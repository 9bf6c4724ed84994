/** The keys of the standard security handler against the algorithms of section 7.6 of ISO 32000-1, written
    out byte by byte. */
module KeyLaws {
  import opened Bytes
  import opened Cos
  import opened StandardTables
  import Encryption
  import PasswordKeys

  // ---------------------------------------------------------------------------------------------
  // Algorithm 1: the key of one object
  // ---------------------------------------------------------------------------------------------

  /** The file key, three bytes of the object number, two of the generation, low bytes first, and four more
      bytes for AES. */
  function ObjectKeyInput(fileKey: seq<byte>, key: ObjectKey, aes: bool): seq<byte> {
    var n, g := key.number as int, key.generation as int;
    fileKey + [n % 0x100, n / 0x100 % 0x100, n / 0x1_0000 % 0x100, g % 0x100, g / 0x100 % 0x100]
    + (if aes then Ascii("sAlT") else [])
  }

  lemma LowBytes(n: nat)
    ensures Encryption.LittleEndian(n, 2) == [n % 0x100, n / 0x100 % 0x100]
    ensures Encryption.LittleEndian(n, 3) == [n % 0x100, n / 0x100 % 0x100, n / 0x1_0000 % 0x100]
  {
    assert forall m: nat :: Encryption.LittleEndian(m, 0) == [];
    assert forall m: nat :: Encryption.LittleEndian(m, 1) == [m % 0x100];
    assert forall m: nat :: Encryption.LittleEndian(m, 2) == [m % 0x100, m / 0x100 % 0x100];
  }

  /** The object key is the front of the hash of that input, five bytes more than the file key and 16 at most;
      under AESV3 it is the file key. */
  lemma ObjectKeyIsStandard(
      crypto: Encryption.Crypto, fileKey: seq<byte>, key: ObjectKey, m: Encryption.CryptMethod)
    requires forall s :: |crypto.md5(s)| == 16
    ensures Encryption.ObjectCipherKey(crypto, fileKey, key, m) ==
            match m
            case AesV3 => fileKey
            case AesV2 => crypto.md5(ObjectKeyInput(fileKey, key, true))[..if |fileKey| < 11 then |fileKey| + 5 else 16]
            case _ => crypto.md5(ObjectKeyInput(fileKey, key, false))[..if |fileKey| < 11 then |fileKey| + 5 else 16]
  {
    LowBytes(key.number);
    LowBytes(key.generation);
    var salt := if m.AesV2? then Ascii("sAlT") else [];
    assert Encryption.AES_SALT == Ascii("sAlT");
    if m != Encryption.AesV3 {
      assert Encryption.KeyMaterial(fileKey, key, m) == ObjectKeyInput(fileKey, key, m.AesV2?);
      var digest := crypto.md5(Encryption.KeyMaterial(fileKey, key, m));
      assert digest[..16] == digest;
    }
  }

  // ---------------------------------------------------------------------------------------------
  // Algorithms 2 and 3: the file key and the owner's key
  // ---------------------------------------------------------------------------------------------

  /** A hash, and the hash of the front of a hash, `times` times. */
  function HashedAgain(c: PasswordKeys.Legacy, s: seq<byte>, length: nat, times: nat): (r: seq<byte>)
    requires PasswordKeys.StreamCipher(c) && length <= 16
    ensures |r| == 16
  {
    if times == 0 then c.md5(s) else c.md5(HashedAgain(c, s, length, times - 1)[..length])
  }

  lemma {:induction false} RehashedIs(c: PasswordKeys.Legacy, s: seq<byte>, length: nat, done: nat, times: nat)
    requires PasswordKeys.StreamCipher(c) && length <= 16
    ensures PasswordKeys.Rehashed(c, HashedAgain(c, s, length, done), length, times)
         == Some(HashedAgain(c, s, length, done + times))
    decreases times
  {
    if times > 0 {
      RehashedIs(c, s, length, done + 1, times - 1);
    }
  }

  /** The first bytes of the hash, hashed fifty times more from revision 3 on. */
  ghost function KeyFrom(c: PasswordKeys.Legacy, d: PasswordKeys.EncryptionDictionary, s: seq<byte>): seq<byte>
    requires PasswordKeys.StreamCipher(c)
  {
    (match d.revision
     case R2 => c.md5(s)
     case _ => HashedAgain(c, s, d.keyLength, 50))[..d.keyLength]
  }

  lemma HashedKeyIs(c: PasswordKeys.Legacy, d: PasswordKeys.EncryptionDictionary, s: seq<byte>)
    requires PasswordKeys.StreamCipher(c)
    ensures PasswordKeys.HashedKey(c, d, s) == Some(KeyFrom(c, d, s))
  {
    assert HashedAgain(c, s, d.keyLength, 0) == c.md5(s);
    RehashedIs(c, s, d.keyLength, 0, if d.revision == PasswordKeys.R2 then 0 else 50);
    if d.keyLength == 16 {
      assert c.md5(s)[..16] == c.md5(s);
      assert HashedAgain(c, s, 16, 50)[..16] == HashedAgain(c, s, 16, 50);
    }
  }

  /** The padded password: the bytes of the password, then those of the padding string at the same places. */
  ghost predicate PadsInPlace(password: seq<byte>, padded: seq<byte>) {
    |padded| == 32
    && forall i | 0 <= i < 32 ::
         padded[i] == if i < |password| then password[i] else PasswordKeys.PASSWORD_PADDING[i]
  }

  /** The file key is made from the padded password, the owner entry, the permissions, the document's identifier
      and, from revision 4 on, a mark when metadata stay clear; the owner's key from the padded password alone. */
  lemma KeysAreStandard(c: PasswordKeys.Legacy, d: PasswordKeys.EncryptionDictionary, password: seq<byte>)
    requires PasswordKeys.StreamCipher(c)
    ensures exists padded ::
              && PadsInPlace(password, padded)
              && PasswordKeys.OwnerPasswordKey(c, d, password) == Some(KeyFrom(c, d, padded))
              && var mark := if d.revision.R4? && !d.encryptMetadata then [255, 255, 255, 255] else [];
                 PasswordKeys.DeriveFileKey(c, d, password)
                 == Some(KeyFrom(c, d, padded + d.ownerKey + d.permissions + d.documentId + mark))
  {
    var padded := PasswordKeys.Padded(password);
    assert PadsInPlace(password, padded);
    HashedKeyIs(c, d, padded);
    HashedKeyIs(c, d, PasswordKeys.FileKeySeed(d, password));
    hide PasswordKeys.HashedKey, PadsInPlace, KeyFrom, PasswordKeys.Padded;
  }

  // ---------------------------------------------------------------------------------------------
  // The keys of the rounds
  // ---------------------------------------------------------------------------------------------

  lemma {:induction false} BitsOfZero(k: nat)
    ensures BitOf(0, k) == 0
    decreases k
  {
    if k > 0 {
      BitsOfZero(k - 1);
    }
  }

  lemma {:induction false} BitIsBit(n: int, k: nat)
    ensures 0 <= BitOf(n, k) < 2
    decreases k
  {
    if k > 0 {
      BitIsBit(n / 2, k - 1);
    }
  }

  /** A bit is set exactly when it is set in one of the numbers and not in the other. */
  lemma {:induction false} XorIsBitwise(a: nat, b: nat, k: nat)
    ensures BitOf(PasswordKeys.Xor(a, b), k) == (BitOf(a, k) + BitOf(b, k)) % 2
    decreases k
  {
    BitsOfZero(k);
    BitIsBit(a, k);
    BitIsBit(b, k);
    if a > 0 && b > 0 {
      var low := (a + b) % 2;
      var rest := PasswordKeys.Xor(a / 2, b / 2);
      assert PasswordKeys.Xor(a, b) == 2 * rest + low;
      if k > 0 {
        XorIsBitwise(a / 2, b / 2, k - 1);
        assert (2 * rest + low) / 2 == rest;
      }
    }
  }

  /** Byte for byte, the key of a round differs from the key in the bits of the round number. */
  lemma RoundKeyIs(key: seq<byte>, round: nat, i: nat, k: nat)
    requires round < 32 && i < |key|
    ensures BitOf(PasswordKeys.XorKey(key, round)[i], k) == (BitOf(key[i], k) + BitOf(round, k)) % 2
  {
    XorIsBitwise(key[i], round, k);
  }
}
