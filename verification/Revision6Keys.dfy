/** Passwords of revisions 5 and 6 of the standard security handler, section 7.6.4.3 of ISO 32000-2: hashes
    with a salt, file keys wrapped under them, and the permissions that seal the file key. */
module Revision6Keys {
  import opened Bytes
  import opened PasswordKeys

  type entry = s: seq<byte> | |s| == 48 witness seq(48, _ => 0)
  type wrapped = s: seq<byte> | |s| == 32 witness seq(32, _ => 0)
  type block = s: seq<byte> | |s| == 16 witness seq(16, _ => 0)
  type word = s: seq<byte> | |s| == 4 witness seq(4, _ => 0)

  /** AES with 32-byte keys: chained without padding from a vector of zeros, and single blocks. */
  datatype Aes256 = Aes256(
    encrypt: (seq<byte>, seq<byte>) -> seq<byte>,
    decrypt: (seq<byte>, seq<byte>) -> Option<seq<byte>>,
    encryptBlock: (seq<byte>, block) -> block,
    decryptBlock: (seq<byte>, block) -> Option<block>)

  /** Keys of 32 bytes and whole blocks are taken and undone; anything else is refused. */
  ghost predicate Undoes(a: Aes256) {
    && (forall key, s | |key| == 32 && |s| % 16 == 0 ::
          |a.encrypt(key, s)| == |s| && a.decrypt(key, a.encrypt(key, s)) == Some(s))
    && (forall key, s :: |key| == 32 && |s| % 16 == 0 <==> a.decrypt(key, s).Some?)
    && (forall key, b: block | |key| == 32 :: a.decryptBlock(key, a.encryptBlock(key, b)) == Some(b))
    && (forall key, b: block :: |key| == 32 <==> a.decryptBlock(key, b).Some?)
  }

  /** Owner and user entries are a hash, a validation salt and a key salt. */
  datatype Dictionary6 = Dictionary6(
    loops: bool, owner: entry, user: entry, ownerKey: wrapped, userKey: wrapped, perms: block,
    permissions: word, encryptMetadata: bool)

  const REVISION_5_6_PASSWORD_BYTES := 127

  /** Only the first 127 bytes of a password count. */
  function Shortened(password: seq<byte>): seq<byte> {
    Take(password, REVISION_5_6_PASSWORD_BYTES)
  }

  function ContextOf(context: Option<seq<byte>>): seq<byte> {
    if context.Some? then context.value else []
  }

  ghost function PasswordHash(h: Hashes, loops: bool, password: seq<byte>, salt: seq<byte>, context: Option<seq<byte>>)
      : (r: seq<byte>)
    requires RightLengths(h)
    ensures |r| == 32
  {
    var userEntry := match context case None => [] case Some(bytes) => bytes;
    var digest := h.sha256(password + salt + userEntry);
    (if loops then LoopResult(h, password, userEntry, digest) else digest)[..32]
  }

  method HashPassword(h: Hashes, loops: bool, password: seq<byte>, salt: seq<byte>, context: Option<seq<byte>>)
    returns (r: seq<byte>)
    requires RightLengths(h)
    ensures r == PasswordHash(h, loops, password, salt, context)
  {
    var digest := h.sha256(password + salt + ContextOf(context));
    if loops {
      var looped, rounds := Revision6HashLoop(h, password, context, digest);
      digest := looped.value;
    }
    r := Take(digest, 32);
  }

  /** The permissions, four bytes of ones, the metadata mark and `adb`; the last four bytes are free. */
  function Seal(d: Dictionary6): (s: seq<byte>)
    ensures |s| == 12
  {
    d.permissions + [255, 255, 255, 255] + [if d.encryptMetadata then 84 else 70] + [97, 100, 98]
  }

  predicate SealHolds(a: Aes256, d: Dictionary6, fileKey: seq<byte>) {
    var plain := a.decryptBlock(fileKey, d.perms);
    plain.Some? && plain.value[..12] == Seal(d)
  }

  method ValidatePerms(a: Aes256, d: Dictionary6, fileKey: seq<byte>) returns (ok: bool)
    ensures ok <==> SealHolds(a, d, fileKey)
  {
    var plain := a.decryptBlock(fileKey, d.perms);
    if plain.None? {
      return false;
    }
    SealParts(d, plain.value);
    if plain.value[..4] != d.permissions {
      return false;
    }
    var suffix := plain.value[4..12];
    return suffix == [255, 255, 255, 255, if d.encryptMetadata then 84 else 70, 97, 100, 98];
  }

  lemma SealParts(d: Dictionary6, plain: block)
    ensures plain[..12] == Seal(d)
       <==> plain[..4] == d.permissions
            && plain[4..12] == [255, 255, 255, 255, if d.encryptMetadata then 84 else 70, 97, 100, 98]
  {
    assert plain[..12][..4] == plain[..4] && plain[..12][4..] == plain[4..12];
    assert Seal(d)[..4] == d.permissions;
    assert Seal(d)[4..] == [255, 255, 255, 255, if d.encryptMetadata then 84 else 70, 97, 100, 98];
    assert plain[..12] == plain[..4] + plain[4..12] && Seal(d) == Seal(d)[..4] + Seal(d)[4..];
  }

  /** Access with a password against one entry and the file key wrapped beside it. */
  ghost function EntryAccess(
      h: Hashes, a: Aes256, d: Dictionary6, password: seq<byte>, e: entry, key: wrapped, context: Option<seq<byte>>)
      : Access
    requires RightLengths(h)
  {
    var short := if |password| > 127 then password[..127] else password;
    if PasswordHash(h, d.loops, short, e[32..40], context) != e[..32] then Refused
    else
      var fileKey := a.decrypt(PasswordHash(h, d.loops, short, e[40..48], context), key);
      if fileKey.None? || !SealHolds(a, d, fileKey.value) then Broken else Granted(fileKey.value)
  }

  method AuthenticateEntry(
      h: Hashes, a: Aes256, d: Dictionary6, password: seq<byte>, e: entry, key: wrapped, context: Option<seq<byte>>)
    returns (r: Access)
    requires RightLengths(h)
    ensures r == EntryAccess(h, a, d, password, e, key, context)
  {
    hide PasswordHash, SealHolds;
    var short := Shortened(password);
    var candidate := HashPassword(h, d.loops, short, e[32..40], context);
    if candidate != e[..32] {
      return Refused;
    }
    var unwrapping := HashPassword(h, d.loops, short, e[40..48], context);
    var fileKey := a.decrypt(unwrapping, key);
    if fileKey.None? {
      return Broken;
    }
    var sealed := ValidatePerms(a, d, fileKey.value);
    return if sealed then Granted(fileKey.value) else Broken;
  }

  /** The owner's password first, hashed together with the user entry, then the user's. */
  ghost function PasswordAccess6(h: Hashes, a: Aes256, d: Dictionary6, password: seq<byte>): Access
    requires RightLengths(h)
  {
    var owner := EntryAccess(h, a, d, password, d.owner, d.ownerKey, Some(d.user));
    if owner == Refused then EntryAccess(h, a, d, password, d.user, d.userKey, None) else owner
  }

  method Authenticate6(h: Hashes, a: Aes256, d: Dictionary6, password: seq<byte>) returns (r: Access)
    requires RightLengths(h)
    ensures r == PasswordAccess6(h, a, d, password)
  {
    hide EntryAccess;
    r := AuthenticateEntry(h, a, d, password, d.owner, d.ownerKey, Some(d.user));
    if r == Refused {
      r := AuthenticateEntry(h, a, d, password, d.user, d.userKey, None);
    }
  }

  // ---------------------------------------------------------------------------------------------
  // Entries as a writer makes them
  // ---------------------------------------------------------------------------------------------

  /** The entry holds the hash of the password, and the file key is wrapped under the other hash. */
  ghost predicate EntryMadeFrom(
      h: Hashes, a: Aes256, d: Dictionary6, password: seq<byte>, fileKey: wrapped, e: entry, key: wrapped,
      context: Option<seq<byte>>)
    requires RightLengths(h)
  {
    && e[..32] == PasswordHash(h, d.loops, Shortened(password), e[32..40], context)
    && key == a.encrypt(PasswordHash(h, d.loops, Shortened(password), e[40..48], context), fileKey)
  }

  ghost predicate MadeFrom6(
      h: Hashes, a: Aes256, d: Dictionary6, ownerPassword: seq<byte>, userPassword: seq<byte>, fileKey: wrapped)
    requires RightLengths(h)
  {
    && EntryMadeFrom(h, a, d, ownerPassword, fileKey, d.owner, d.ownerKey, Some(d.user))
    && EntryMadeFrom(h, a, d, userPassword, fileKey, d.user, d.userKey, None)
  }

  lemma EntryOpens(
      h: Hashes, a: Aes256, d: Dictionary6, password: seq<byte>, fileKey: wrapped, e: entry, key: wrapped,
      context: Option<seq<byte>>)
    requires RightLengths(h) && Undoes(a) && EntryMadeFrom(h, a, d, password, fileKey, e, key, context)
    ensures EntryAccess(h, a, d, password, e, key, context)
            == if SealHolds(a, d, fileKey) then Granted(fileKey) else Broken
  {
    hide PasswordHash, SealHolds;
  }

  /** The permissions seal the file key exactly when the plain block begins as it should. */
  lemma SealHoldsIff(a: Aes256, d: Dictionary6, fileKey: wrapped, plain: block)
    requires Undoes(a) && d.perms == a.encryptBlock(fileKey, plain)
    ensures SealHolds(a, d, fileKey) <==> plain[..12] == Seal(d)
  {
    hide Seal;
  }

  /** A document made from two passwords is opened by the owner's with its file key exactly when the
      permissions have not been tampered with; otherwise it is refused as broken. */
  lemma OwnerPasswordOpens6Iff(
      h: Hashes, a: Aes256, d: Dictionary6, ownerPassword: seq<byte>, userPassword: seq<byte>, fileKey: wrapped,
      plain: block)
    requires RightLengths(h) && Undoes(a) && MadeFrom6(h, a, d, ownerPassword, userPassword, fileKey)
    requires d.perms == a.encryptBlock(fileKey, plain)
    ensures PasswordAccess6(h, a, d, ownerPassword) == if plain[..12] == Seal(d) then Granted(fileKey) else Broken
  {
    hide EntryAccess, EntryMadeFrom, SealHolds, Undoes, RightLengths;
    EntryOpens(h, a, d, ownerPassword, fileKey, d.owner, d.ownerKey, Some(d.user));
    SealHoldsIff(a, d, fileKey, plain);
  }

  /** So does the user's, unless it passes for the owner's. */
  lemma UserPasswordOpens6Iff(
      h: Hashes, a: Aes256, d: Dictionary6, ownerPassword: seq<byte>, userPassword: seq<byte>, fileKey: wrapped,
      plain: block)
    requires RightLengths(h) && Undoes(a) && MadeFrom6(h, a, d, ownerPassword, userPassword, fileKey)
    requires d.perms == a.encryptBlock(fileKey, plain)
    requires EntryAccess(h, a, d, userPassword, d.owner, d.ownerKey, Some(d.user)) == Refused
    ensures PasswordAccess6(h, a, d, userPassword) == if plain[..12] == Seal(d) then Granted(fileKey) else Broken
  {
    hide EntryAccess, EntryMadeFrom, SealHolds, Undoes, RightLengths;
    EntryOpens(h, a, d, userPassword, fileKey, d.user, d.userKey, None);
    SealHoldsIff(a, d, fileKey, plain);
  }

  /** Passwords that agree in their first 127 bytes open the same documents. */
  lemma LongPasswordsAreCut(h: Hashes, a: Aes256, d: Dictionary6, password: seq<byte>, other: seq<byte>)
    requires RightLengths(h) && Shortened(password) == Shortened(other)
    ensures PasswordAccess6(h, a, d, password) == PasswordAccess6(h, a, d, other)
  {
    hide PasswordHash, SealHolds;
  }
}
