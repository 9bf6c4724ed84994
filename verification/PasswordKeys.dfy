/** Passwords and keys of the standard security handler: the hash loop of revision 6, and the owner key
    and password checks of revisions 2 to 4. Hashes and ciphers are abstract. */
module PasswordKeys {
  import opened Arithmetic
  import opened Bytes
  import Bits

  // ---------------------------------------------------------------------------------------------
  // The hash loop of revision 6
  // ---------------------------------------------------------------------------------------------

  datatype Hashes = Hashes(
    sha256: seq<byte> -> seq<byte>,
    sha384: seq<byte> -> seq<byte>,
    sha512: seq<byte> -> seq<byte>,
    aes128Cbc: (seq<byte>, seq<byte>, seq<byte>) -> Option<seq<byte>>)

  /** A digest has its own length. The cipher takes a key and a vector of 16 bytes and whole blocks, and then
      its output is as long as its input; anything else it refuses. */
  ghost predicate RightLengths(h: Hashes) {
    && (forall s :: |h.sha256(s)| == 32)
    && (forall s :: |h.sha384(s)| == 48)
    && (forall s :: |h.sha512(s)| == 64)
    && (forall key, iv, s ::
          var r := h.aes128Cbc(key, iv, s);
          if |key| == 16 && |iv| == 16 && |s| % 16 == 0 then r.Some? && |r.value| == |s| else r.None?)
  }

  const REVISION_6_HASH_MAX_ROUNDS := 288

  function Repeated(s: seq<byte>, times: nat): (r: seq<byte>)
    ensures |r| == times * |s|
  {
    if times == 0 then [] else Repeated(s, times - 1) + s
  }

  function SumOf(s: seq<byte>): nat {
    if s == [] then 0
    else
      var last: int := s[|s| - 1];
      SumOf(s[..|s| - 1]) + last
  }

  function BigEndian(s: seq<byte>): nat {
    if s == [] then 0
    else
      var last: int := s[|s| - 1];
      256 * BigEndian(s[..|s| - 1]) + last
  }

  /** The sum of the bytes and the number they spell leave the same remainder by three. */
  lemma {:induction false} SelectorIsRemainder(s: seq<byte>)
    ensures SumOf(s) % 3 == BigEndian(s) % 3
  {
    if s != [] {
      SelectorIsRemainder(s[..|s| - 1]);
      var a, b := SumOf(s[..|s| - 1]), BigEndian(s[..|s| - 1]);
      var last: int := s[|s| - 1];
      assert 256 * b + last == 3 * (85 * b) + (b + last);
    }
  }

  /** One round: the digest, and the bytes it was encrypted from. */
  function Encrypted(h: Hashes, password: seq<byte>, context: seq<byte>, digest: seq<byte>): Option<seq<byte>>
    requires |digest| >= 32
  {
    h.aes128Cbc(digest[..16], digest[16..32], Repeated(password + digest + context, 64))
  }

  /** Which hash the first block chooses: the block as a 128-bit number, by three. */
  function HashBy(h: Hashes, encrypted: seq<byte>): seq<byte>
    requires |encrypted| >= 16
  {
    var selector := BigEndian(encrypted[..16]) % 3;
    if selector == 0 then h.sha256(encrypted)
    else if selector == 1 then h.sha384(encrypted)
    else h.sha512(encrypted)
  }

  lemma EncryptedLength(h: Hashes, password: seq<byte>, context: seq<byte>, digest: seq<byte>)
    requires RightLengths(h) && |digest| >= 32
    ensures var encrypted := Encrypted(h, password, context, digest); encrypted.Some? && |encrypted.value| >= 64 * 32
  {
    var block := password + digest + context;
    assert |Repeated(block, 64)| == 16 * (4 * |block|);
    DivIs(16 * (4 * |block|), 16, 4 * |block|, 0);
  }

  /** The digest after `n` rounds. */
  ghost function DigestAfter(h: Hashes, password: seq<byte>, context: seq<byte>, digest: seq<byte>, n: nat): (r: seq<byte>)
    requires RightLengths(h) && |digest| >= 32
    ensures |r| >= 32
  {
    if n == 0 then digest
    else
      var before := DigestAfter(h, password, context, digest, n - 1);
      EncryptedLength(h, password, context, before);
      HashBy(h, Encrypted(h, password, context, before).value)
  }

  /** The last byte encrypted in a round, rounds counted from zero. */
  ghost function LastByte(h: Hashes, password: seq<byte>, context: seq<byte>, digest: seq<byte>, round: nat): byte
    requires RightLengths(h) && |digest| >= 32
  {
    var before := DigestAfter(h, password, context, digest, round);
    EncryptedLength(h, password, context, before);
    var encrypted := Encrypted(h, password, context, before).value;
    encrypted[|encrypted| - 1]
  }

  /** The loop's own stop test. */
  ghost predicate Stops(h: Hashes, password: seq<byte>, context: seq<byte>, digest: seq<byte>, round: nat)
    requires RightLengths(h) && |digest| >= 32
  {
    round >= 63 && LastByte(h, password, context, digest, round) <= (if round < 32 then 0 else round - 32)
  }

  /** Whatever the hashes do, round 287 stops. */
  lemma LastRoundStops(h: Hashes, password: seq<byte>, context: seq<byte>, digest: seq<byte>)
    requires RightLengths(h) && |digest| >= 32
    ensures Stops(h, password, context, digest, REVISION_6_HASH_MAX_ROUNDS - 1)
  {
    hide LastByte;
  }

  /** The first round from `n` on that stops. */
  ghost function FirstStop(h: Hashes, password: seq<byte>, context: seq<byte>, digest: seq<byte>, n: nat): (m: nat)
    requires RightLengths(h) && |digest| >= 32 && n < REVISION_6_HASH_MAX_ROUNDS
    ensures n <= m < REVISION_6_HASH_MAX_ROUNDS && Stops(h, password, context, digest, m)
    ensures forall k | n <= k < m :: !Stops(h, password, context, digest, k)
    decreases REVISION_6_HASH_MAX_ROUNDS - n
  {
    LastRoundStops(h, password, context, digest);
    if Stops(h, password, context, digest, n) then n else FirstStop(h, password, context, digest, n + 1)
  }

  /** The digest the loop ends with. */
  ghost function LoopResult(h: Hashes, password: seq<byte>, context: seq<byte>, digest: seq<byte>): (r: seq<byte>)
    requires RightLengths(h) && |digest| >= 32
    ensures |r| >= 32
  {
    DigestAfter(h, password, context, digest, FirstStop(h, password, context, digest, 0) + 1)
  }

  /** The loop never fails: it returns the digest after the first round that stops, at least the 64th and
      at most the 288th. */
  method Revision6HashLoop(h: Hashes, password: seq<byte>, ownerContext: Option<seq<byte>>, initial: seq<byte>)
    returns (r: Result<seq<byte>>, rounds: nat)
    requires RightLengths(h) && |initial| >= 32
    ensures 64 <= rounds <= REVISION_6_HASH_MAX_ROUNDS
    ensures var context := if ownerContext.Some? then ownerContext.value else [];
            && r == Ok(DigestAfter(h, password, context, initial, rounds))
            && Stops(h, password, context, initial, rounds - 1)
            && (forall n | 0 <= n < rounds - 1 :: !Stops(h, password, context, initial, n))
            && r == Ok(LoopResult(h, password, context, initial))
  {
    hide Stops, DigestAfter, LastByte, Encrypted, HashBy, RightLengths;
    var context := if ownerContext.Some? then ownerContext.value else [];
    var digest := initial;
    var round := 0;
    FirstDigest(h, password, context, initial);
    LastRoundStops(h, password, context, initial);
    while true
      invariant 0 <= round < REVISION_6_HASH_MAX_ROUNDS
      invariant |digest| >= 32 && digest == DigestAfter(h, password, context, initial, round)
      invariant forall n | 0 <= n < round :: !Stops(h, password, context, initial, n)
      decreases REVISION_6_HASH_MAX_ROUNDS - round
    {
      if round >= REVISION_6_HASH_MAX_ROUNDS {
        // The error of the iteration bound cannot be reached.
        assert false;
      }
      OneRound(h, password, context, initial, round);
      EncryptedLength(h, password, context, digest);
      var encryption := h.aes128Cbc(digest[..16], digest[16..32], Repeated(password + digest + context, 64));
      EncryptionIs(h, password, context, digest);
      if encryption.None? {
        // Nor can an error of the cipher.
        assert false;
      }
      var encrypted := encryption.value;
      digest := ChooseHash(h, encrypted);
      var last := encrypted[|encrypted| - 1];
      if round >= 63 && last <= (if round < 32 then 0 else round - 32) {
        return Ok(digest), round + 1;
      }
      round := round + 1;
    }
  }

  lemma EncryptionIs(h: Hashes, password: seq<byte>, context: seq<byte>, digest: seq<byte>)
    requires |digest| >= 32
    ensures Encrypted(h, password, context, digest)
            == h.aes128Cbc(digest[..16], digest[16..32], Repeated(password + digest + context, 64))
  {
  }

  /** Chooses by the sum of the bytes of the first block, which is the choice by its 128-bit number. */
  function ChooseHash(h: Hashes, encrypted: seq<byte>): (r: seq<byte>)
    requires |encrypted| >= 16
    ensures r == HashBy(h, encrypted)
  {
    SelectorIsRemainder(encrypted[..16]);
    var selector := SumOf(encrypted[..16]) % 3;
    if selector == 0 then h.sha256(encrypted)
    else if selector == 1 then h.sha384(encrypted)
    else h.sha512(encrypted)
  }

  lemma FirstDigest(h: Hashes, password: seq<byte>, context: seq<byte>, digest: seq<byte>)
    requires RightLengths(h) && |digest| >= 32
    ensures DigestAfter(h, password, context, digest, 0) == digest
  {
  }

  lemma OneRound(h: Hashes, password: seq<byte>, context: seq<byte>, initial: seq<byte>, round: nat)
    requires RightLengths(h) && |initial| >= 32
    ensures var digest := DigestAfter(h, password, context, initial, round);
            Encrypted(h, password, context, digest).Some? &&
            var encrypted := Encrypted(h, password, context, digest).value;
            && |encrypted| >= 16
            && DigestAfter(h, password, context, initial, round + 1) == HashBy(h, encrypted)
            && |HashBy(h, encrypted)| >= 32
            && (Stops(h, password, context, initial, round) <==>
                round >= 63 && encrypted[|encrypted| - 1] <= (if round < 32 then 0 else round - 32))
  {
    hide Encrypted, HashBy;
    EncryptedLength(h, password, context, DigestAfter(h, password, context, initial, round));
    assert |DigestAfter(h, password, context, initial, round + 1)| >= 32;
  }

  // ---------------------------------------------------------------------------------------------
  // Revisions 2 to 4
  // ---------------------------------------------------------------------------------------------

  datatype Revision = R2 | R3 | R4

  datatype Legacy = Legacy(md5: seq<byte> -> seq<byte>, rc4: (seq<byte>, seq<byte>) -> seq<byte>)

  /** Key lengths in bytes: 40 to 128 bits. */
  type keyBytes = n: nat | 5 <= n <= 16 witness 5

  /** A stream cipher undoes itself under any key from 5 to 16 bytes; a hash has 16. */
  ghost predicate StreamCipher(c: Legacy) {
    && (forall key, s | 5 <= |key| <= 16 :: c.rc4(key, c.rc4(key, s)) == s)
    && (forall s :: |c.md5(s)| == 16)
  }

  datatype EncryptionDictionary = EncryptionDictionary(
    revision: Revision, keyLength: keyBytes, ownerKey: seq<byte>, userKey: seq<byte>,
    permissions: seq<byte>, documentId: seq<byte>, encryptMetadata: bool)

  const PASSWORD_PADDING: seq<byte> := [
    0x28, 0xBF, 0x4E, 0x5E, 0x4E, 0x75, 0x8A, 0x41, 0x64, 0x00, 0x4E, 0x56, 0xFF, 0xFA, 0x01, 0x08,
    0x2E, 0x2E, 0x00, 0xB6, 0xD0, 0x68, 0x3E, 0x80, 0x2F, 0x0C, 0xA9, 0xFE, 0x64, 0x53, 0x69, 0x7A]

  /** The password over the front of the padding string. */
  function Padded(password: seq<byte>): (r: seq<byte>)
    ensures |r| == 32
  {
    if |password| >= 32 then password[..32] else password + PASSWORD_PADDING[|password|..]
  }

  /** Algorithm 2, step a, of section 7.6.3.3: padding is taken from the beginning of the string. */
  function StandardPadded(password: seq<byte>): (r: seq<byte>)
    ensures |r| == 32
  {
    if |password| >= 32 then password[..32] else password + PASSWORD_PADDING[..32 - |password|]
  }

  lemma FirstPaddingByteIsUnique(n: nat)
    requires 0 < n < 32
    ensures PASSWORD_PADDING[n] != PASSWORD_PADDING[0]
  {
  }

  /** The code pads as the standard does exactly when there is nothing to pad or nothing but padding. */
  lemma PaddingMeetsStandardIff(password: seq<byte>)
    ensures Padded(password) == StandardPadded(password) <==> |password| == 0 || |password| >= 32
  {
    var n := |password|;
    if 0 < n < 32 {
      FirstPaddingByteIsUnique(n);
      assert Padded(password)[n] == PASSWORD_PADDING[n] && StandardPadded(password)[n] == PASSWORD_PADDING[0];
    } else if n == 0 {
      assert PASSWORD_PADDING[0..] == PASSWORD_PADDING[..32];
    }
  }

  lemma PaddedTwice(password: seq<byte>)
    ensures Padded(Padded(password)) == Padded(password)
  {
  }

  /** The bits in which two numbers differ. */
  function Xor(a: nat, b: nat): nat {
    if a == 0 then b else if b == 0 then a else 2 * Xor(a / 2, b / 2) + (a + b) % 2
  }

  lemma {:induction false} XorFits(a: nat, b: nat, width: nat)
    requires a < Bits.Pow2(width) && b < Bits.Pow2(width)
    ensures Xor(a, b) < Bits.Pow2(width)
  {
    if a > 0 && b > 0 {
      XorFits(a / 2, b / 2, width - 1);
    }
  }

  function XorByte(a: byte, b: byte): byte {
    assert Bits.Pow2(8) == 256;
    XorFits(a, b, 8);
    Xor(a, b)
  }

  /** The key with each byte flipped where the round number has a one. */
  function XorKey(key: seq<byte>, round: nat): (r: seq<byte>)
    requires round < 32
    ensures |r| == |key|
  {
    seq(|key|, i requires 0 <= i < |key| => XorByte(key[i], round))
  }

  function Take(s: seq<byte>, n: nat): seq<byte> {
    if |s| <= n then s else s[..n]
  }

  /** The digest hashed again `times` times, its first bytes only. */
  function Rehashed(c: Legacy, digest: seq<byte>, keyLength: nat, times: nat): Option<seq<byte>>
    decreases times
  {
    if times == 0 then Some(digest)
    else if keyLength > |digest| then None
    else Rehashed(c, c.md5(digest[..keyLength]), keyLength, times - 1)
  }

  function HashedKey(c: Legacy, d: EncryptionDictionary, seed: seq<byte>): Option<seq<byte>> {
    var digest := Rehashed(c, c.md5(seed), d.keyLength, if d.revision == R2 then 0 else 50);
    if digest.None? then None else Some(Take(digest.value, d.keyLength))
  }

  function OwnerPasswordKey(c: Legacy, d: EncryptionDictionary, password: seq<byte>): Option<seq<byte>> {
    HashedKey(c, d, Padded(password))
  }

  function FileKeySeed(d: EncryptionDictionary, password: seq<byte>): seq<byte> {
    Padded(password) + d.ownerKey + d.permissions + d.documentId
    + (if d.revision == R4 && !d.encryptMetadata then [0xFF, 0xFF, 0xFF, 0xFF] else [])
  }

  function DeriveFileKey(c: Legacy, d: EncryptionDictionary, password: seq<byte>): Option<seq<byte>> {
    HashedKey(c, d, FileKeySeed(d, password))
  }

  /** Rounds `0` to `n - 1` of the stream cipher, each under its own key. */
  function Rounds(c: Legacy, key: seq<byte>, s: seq<byte>, n: nat): seq<byte>
    requires n <= 20
  {
    if n == 0 then s else c.rc4(XorKey(key, n - 1), Rounds(c, key, s, n - 1))
  }

  /** The same rounds from the last to the first. */
  function RoundsBack(c: Legacy, key: seq<byte>, s: seq<byte>, n: nat): seq<byte>
    requires n <= 20
    decreases n
  {
    if n == 0 then s else RoundsBack(c, key, c.rc4(XorKey(key, n - 1), s), n - 1)
  }

  lemma {:induction false} RoundsBackUndoRounds(c: Legacy, key: seq<byte>, s: seq<byte>, n: nat)
    requires StreamCipher(c) && n <= 20 && 5 <= |key| <= 16
    ensures RoundsBack(c, key, Rounds(c, key, s, n), n) == s
  {
    hide XorKey;
    if n > 0 {
      RoundsBackUndoRounds(c, key, s, n - 1);
    }
  }

  /** The owner entry: the padded user password under the owner's key, Algorithm 3 of section 7.6.3.4. */
  function OwnerEntry(c: Legacy, revision: Revision, ownerKey: seq<byte>, userPassword: seq<byte>): seq<byte> {
    if revision == R2 then c.rc4(ownerKey, Padded(userPassword)) else Rounds(c, ownerKey, Padded(userPassword), 20)
  }

  method DecryptOwnerKey(c: Legacy, d: EncryptionDictionary, ownerKey: seq<byte>) returns (current: seq<byte>)
    ensures current == if d.revision == R2 then c.rc4(ownerKey, d.ownerKey) else RoundsBack(c, ownerKey, d.ownerKey, 20)
  {
    hide XorKey;
    current := d.ownerKey;
    if d.revision == R2 {
      return c.rc4(ownerKey, current);
    }
    for round := 20 downto 0
      invariant RoundsBack(c, ownerKey, current, round) == RoundsBack(c, ownerKey, d.ownerKey, 20)
    {
      current := c.rc4(XorKey(ownerKey, round), current);
    }
  }

  /** The value a user password leads to; revisions 3 and 4 append sixteen zeros. */
  function UserPasswordValue(c: Legacy, d: EncryptionDictionary, fileKey: seq<byte>): seq<byte> {
    if d.revision == R2 then c.rc4(fileKey, PASSWORD_PADDING)
    else Rounds(c, fileKey, c.md5(PASSWORD_PADDING + d.documentId), 20) + seq(16, _ => 0)
  }

  /** The user entry belongs to the file key; from revision 3 on only its first sixteen bytes count. */
  predicate UserEntryMatches(c: Legacy, d: EncryptionDictionary, fileKey: seq<byte>) {
    var candidate := UserPasswordValue(c, d, fileKey);
    if d.revision == R2 then candidate == d.userKey
    else |d.userKey| >= 16 && |candidate| >= 16 && candidate[..16] == d.userKey[..16]
  }

  datatype Access = Granted(fileKey: seq<byte>) | Refused | Broken

  function UserAccess(c: Legacy, d: EncryptionDictionary, password: seq<byte>): Access {
    var fileKey := DeriveFileKey(c, d, password);
    if fileKey.None? then Broken
    else if d.revision != R2 && |d.userKey| < 16 then Broken
    else if UserEntryMatches(c, d, fileKey.value) then Granted(fileKey.value)
    else Refused
  }

  method AuthenticateUserPassword(c: Legacy, d: EncryptionDictionary, password: seq<byte>) returns (r: Access)
    ensures r == UserAccess(c, d, password)
  {
    hide Padded, XorKey, PASSWORD_PADDING;
    var fileKey := DeriveFileKey(c, d, password);
    if fileKey.None? {
      return Broken;
    }
    var candidate := CandidateFor(c, d, fileKey.value);
    if d.revision == R2 {
      return if candidate == d.userKey then Granted(fileKey.value) else Refused;
    }
    if |d.userKey| < 16 {
      return Broken;
    }
    return if candidate[..16] == d.userKey[..16] then Granted(fileKey.value) else Refused;
  }

  method CandidateFor(c: Legacy, d: EncryptionDictionary, fileKey: seq<byte>) returns (current: seq<byte>)
    ensures current == UserPasswordValue(c, d, fileKey) && (d.revision != R2 ==> |current| >= 16)
  {
    hide XorKey, PASSWORD_PADDING;
    if d.revision == R2 {
      return c.rc4(fileKey, PASSWORD_PADDING);
    }
    ghost var first := c.md5(PASSWORD_PADDING + d.documentId);
    current := c.md5(PASSWORD_PADDING + d.documentId);
    for round := 0 to 20
      invariant current == Rounds(c, fileKey, first, round)
    {
      current := c.rc4(XorKey(fileKey, round), current);
    }
    current := current + seq(16, _ => 0);
  }

  /** Access with the owner's password first, then with the user's. */
  function PasswordAccess(c: Legacy, d: EncryptionDictionary, password: seq<byte>): Access {
    var ownerKey := OwnerPasswordKey(c, d, password);
    if ownerKey.None? then Broken
    else
      var owner := UserAccess(c, d, DecryptedOwner(c, d, ownerKey.value));
      if owner == Refused then UserAccess(c, d, password) else owner
  }

  method Authenticate(c: Legacy, d: EncryptionDictionary, password: seq<byte>) returns (r: Access)
    ensures r == PasswordAccess(c, d, password)
  {
    hide UserAccess, OwnerPasswordKey, RoundsBack;
    var ownerKey := OwnerPasswordKey(c, d, password);
    if ownerKey.None? {
      return Broken;
    }
    var padded := DecryptOwnerKey(c, d, ownerKey.value);
    r := AuthenticateUserPassword(c, d, padded);
    if r == Refused {
      r := AuthenticateUserPassword(c, d, password);
    }
  }

  function DecryptedOwner(c: Legacy, d: EncryptionDictionary, ownerKey: seq<byte>): seq<byte> {
    if d.revision == R2 then c.rc4(ownerKey, d.ownerKey) else RoundsBack(c, ownerKey, d.ownerKey, 20)
  }

  /** Every password has a key, of the length the dictionary gives. */
  lemma KeyIsThere(c: Legacy, d: EncryptionDictionary, seed: seq<byte>)
    requires StreamCipher(c)
    ensures HashedKey(c, d, seed).Some? && |HashedKey(c, d, seed).value| == d.keyLength
  {
    RehashedLength(c, c.md5(seed), d.keyLength, if d.revision == R2 then 0 else 50);
  }

  lemma {:induction false} RehashedLength(c: Legacy, digest: seq<byte>, keyLength: keyBytes, times: nat)
    requires StreamCipher(c) && |digest| == 16
    ensures var r := Rehashed(c, digest, keyLength, times); r.Some? && |r.value| == 16
    decreases times
  {
    if times > 0 {
      RehashedLength(c, c.md5(digest[..keyLength]), keyLength, times - 1);
    }
  }

  /** The entries were made from the two passwords. */
  ghost predicate MadeFrom(c: Legacy, d: EncryptionDictionary, ownerPassword: seq<byte>, userPassword: seq<byte>)
    requires StreamCipher(c)
  {
    KeyIsThere(c, d, Padded(ownerPassword));
    KeyIsThere(c, d, FileKeySeed(d, userPassword));
    && d.ownerKey == OwnerEntry(c, d.revision, OwnerPasswordKey(c, d, ownerPassword).value, userPassword)
    && d.userKey == UserPasswordValue(c, d, DeriveFileKey(c, d, userPassword).value)
  }

  /** A document made from two passwords is opened by the owner's with the user's file key, through twenty
      rounds undone in reverse. */
  lemma OwnerPasswordOpens(c: Legacy, d: EncryptionDictionary, ownerPassword: seq<byte>, userPassword: seq<byte>)
    requires StreamCipher(c) && MadeFrom(c, d, ownerPassword, userPassword)
    ensures DeriveFileKey(c, d, userPassword).Some?
    ensures PasswordAccess(c, d, ownerPassword) == Granted(DeriveFileKey(c, d, userPassword).value)
  {
    KeyIsThere(c, d, Padded(ownerPassword));
    KeyIsThere(c, d, FileKeySeed(d, userPassword));
    hide XorKey, HashedKey, PASSWORD_PADDING, StreamCipher;
    var ownerKey := OwnerPasswordKey(c, d, ownerPassword).value;
    OwnerEntryOpens(c, d, ownerKey, userPassword);
    PaddedTwice(userPassword);
    UserPasswordMatches(c, d, Padded(userPassword));
  }

  /** The owner's key undoes the owner entry. */
  lemma OwnerEntryOpens(c: Legacy, d: EncryptionDictionary, ownerKey: seq<byte>, userPassword: seq<byte>)
    requires StreamCipher(c) && 5 <= |ownerKey| <= 16
    requires d.ownerKey == OwnerEntry(c, d.revision, ownerKey, userPassword)
    ensures DecryptedOwner(c, d, ownerKey) == Padded(userPassword)
  {
    hide XorKey, PASSWORD_PADDING;
    if d.revision != R2 {
      RoundsBackUndoRounds(c, ownerKey, Padded(userPassword), 20);
    }
  }

  lemma UserPasswordMatches(c: Legacy, d: EncryptionDictionary, userPassword: seq<byte>)
    requires DeriveFileKey(c, d, userPassword).Some?
    requires d.userKey == UserPasswordValue(c, d, DeriveFileKey(c, d, userPassword).value)
    ensures UserAccess(c, d, userPassword) == Granted(DeriveFileKey(c, d, userPassword).value)
  {
    hide Rounds, DeriveFileKey, PASSWORD_PADDING;
  }

  /** The user's password opens it as well, with the same key unless it passes for an owner's password. */
  lemma UserPasswordOpens(c: Legacy, d: EncryptionDictionary, ownerPassword: seq<byte>, userPassword: seq<byte>)
    requires StreamCipher(c) && MadeFrom(c, d, ownerPassword, userPassword)
    ensures PasswordAccess(c, d, userPassword).Granted?
    ensures var asOwner := OwnerPasswordKey(c, d, userPassword);
            asOwner.Some? && DeriveFileKey(c, d, userPassword).Some?
            && (UserAccess(c, d, DecryptedOwner(c, d, asOwner.value)) == Refused ==>
                  PasswordAccess(c, d, userPassword) == Granted(DeriveFileKey(c, d, userPassword).value))
  {
    KeyIsThere(c, d, Padded(userPassword));
    KeyIsThere(c, d, FileKeySeed(d, userPassword));
    var asOwner := OwnerPasswordKey(c, d, userPassword).value;
    KeyIsThere(c, d, FileKeySeed(d, DecryptedOwner(c, d, asOwner)));
    hide HashedKey, PASSWORD_PADDING, StreamCipher, UserPasswordValue, DecryptedOwner;
    UserPasswordMatches(c, d, userPassword);
    EntryIsLongEnough(c, d, DeriveFileKey(c, d, userPassword).value);
  }

  lemma EntryIsLongEnough(c: Legacy, d: EncryptionDictionary, fileKey: seq<byte>)
    requires d.userKey == UserPasswordValue(c, d, fileKey)
    ensures d.revision != R2 ==> |d.userKey| >= 16
  {
    hide Rounds, PASSWORD_PADDING;
  }
}
