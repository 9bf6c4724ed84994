/** Decrypting a document in place: section 7.6 of ISO 32000-1 over an object store, the cipher left
    abstract. */
module Encryption {
  import opened Arithmetic
  import opened Bytes
  import opened Cos

  datatype CryptMethod = Identity | Rc4 | AesV2 | AesV3

  /** The hash and the ciphers; `encrypt` takes an initialisation vector where the method has one. */
  datatype Crypto = Crypto(
    md5: seq<byte> -> seq<byte>,
    encrypt: (CryptMethod, seq<byte>, seq<byte>, seq<byte>) -> seq<byte>,
    decrypt: (CryptMethod, seq<byte>, seq<byte>) -> Option<seq<byte>>)

  /** The key lengths each cipher takes. */
  predicate KeyFits(m: CryptMethod, key: seq<byte>) {
    match m
    case Identity => true
    case Rc4 => 1 <= |key| <= 256
    case AesV2 => |key| == 16
    case AesV3 => |key| == 32
  }

  predicate VectorFits(m: CryptMethod, iv: seq<byte>) {
    m == AesV2 || m == AesV3 ==> |iv| == 16
  }

  /** Hashes have 16 bytes; decrypting undoes encrypting under the same key, whatever the vector, where the key
      has a length the cipher takes, and fails where it has not. */
  ghost predicate Inverts(crypto: Crypto) {
    && (forall s :: |crypto.md5(s)| == 16)
    && (forall m, key, iv, plain | KeyFits(m, key) && VectorFits(m, iv) ::
          crypto.decrypt(m, key, crypto.encrypt(m, key, iv, plain)) == Some(plain))
    && (forall m, key, s | !KeyFits(m, key) :: crypto.decrypt(m, key, s) == None)
  }

  datatype CryptLimits = CryptLimits(
    maxStringBytes: nat, maxDecryptedStringBytes: nat, maxStreamDeclaredBytes: nat, maxDecryptedStreamBytes: nat)

  /** The part of the encryption dictionary that decryption looks at. */
  datatype Handler = Handler(
    dictionaryKey: Option<ObjectKey>, encryptMetadata: bool, streamMethod: CryptMethod, stringMethod: CryptMethod)

  /** `sAlT`. */
  const AES_SALT: seq<byte> := [115, 65, 108, 84]

  /** The low `count` bytes of a number, the lowest first. */
  function LittleEndian(n: nat, count: nat): (r: seq<byte>)
    ensures |r| == count
  {
    if count == 0 then [] else [n % 256] + LittleEndian(n / 256, count - 1)
  }

  function Truncated(s: seq<byte>, n: nat): seq<byte> {
    if |s| <= n then s else s[..n]
  }

  /** What the key of one object is made from: hashed, but for AESV3, where it is the key itself. */
  function KeyMaterial(fileKey: seq<byte>, key: ObjectKey, m: CryptMethod): seq<byte> {
    if m == AesV3 then fileKey
    else fileKey + LittleEndian(key.number, 3) + LittleEndian(key.generation, 2) + (if m == AesV2 then AES_SALT else [])
  }

  /** The key of one object: Algorithm 1 of section 7.6.2, or the file key itself. */
  function ObjectCipherKey(crypto: Crypto, fileKey: seq<byte>, key: ObjectKey, m: CryptMethod): seq<byte> {
    if m == AesV3 then fileKey
    else
      var digest := crypto.md5(KeyMaterial(fileKey, key, m));
      Truncated(digest, if |fileKey| + 5 < 16 then |fileKey| + 5 else 16)
  }

  /** The file keys whose object keys the cipher takes: from 11 bytes on for AESV2, 32 for AESV3. */
  predicate MethodFits(m: CryptMethod, fileKey: seq<byte>) {
    (m == AesV2 ==> |fileKey| >= 11) && (m == AesV3 ==> |fileKey| == 32)
  }

  lemma ObjectKeyFitsIff(crypto: Crypto, fileKey: seq<byte>, key: ObjectKey, m: CryptMethod)
    requires Inverts(crypto)
    ensures KeyFits(m, ObjectCipherKey(crypto, fileKey, key, m)) <==> MethodFits(m, fileKey)
  {
    hide KeyMaterial;
  }

  function Power256(count: nat): (p: nat)
    ensures p > 0
  {
    if count == 0 then 1 else 256 * Power256(count - 1)
  }

  /** The bytes kept are the number modulo what they can count to. */
  lemma {:induction false} LittleEndianIff(a: nat, b: nat, count: nat)
    ensures LittleEndian(a, count) == LittleEndian(b, count) <==> a % Power256(count) == b % Power256(count)
  {
    if count > 0 {
      var p := Power256(count - 1);
      LittleEndianIff(a / 256, b / 256, count - 1);
      ModuloSplits(a, p);
      ModuloSplits(b, p);
      var x, y := LittleEndian(a, count), LittleEndian(b, count);
      assert x[1..] == LittleEndian(a / 256, count - 1) && y[1..] == LittleEndian(b / 256, count - 1);
      assert x == y <==> x[0] == y[0] && x[1..] == y[1..] by {
        assert x == [x[0]] + x[1..] && y == [y[0]] + y[1..];
      }
    }
  }

  lemma ModuloSplits(n: nat, p: nat)
    requires p > 0
    ensures n % (256 * p) == n % 256 + 256 * (n / 256 % p)
  {
    var q, r := n / 256 / p, n / 256 % p;
    assert n / 256 == p * q + r;
    assert n == (256 * p) * q + (n % 256 + 256 * r);
    assert n % 256 + 256 * r < 256 * p by {
      MulMonotonic(256, r, p - 1);
    }
    DivIs(n, 256 * p, q, n % 256 + 256 * r);
  }

  /** Two objects are keyed alike exactly when their numbers agree in their low three bytes and their
      generations are the same; under AESV3 all of them are. */
  lemma KeyedAlikeIff(fileKey: seq<byte>, a: ObjectKey, b: ObjectKey, m: CryptMethod)
    ensures KeyMaterial(fileKey, a, m) == KeyMaterial(fileKey, b, m)
            <==> m == AesV3 || (a.number % 0x100_0000 == b.number % 0x100_0000 && a.generation == b.generation)
  {
    if m != AesV3 {
      MaterialEqualIff(fileKey, LittleEndian(a.number, 3), LittleEndian(a.generation, 2),
                       LittleEndian(b.number, 3), LittleEndian(b.generation, 2), if m == AesV2 then AES_SALT else []);
      LittleEndianIff(a.number, b.number, 3);
      LittleEndianIff(a.generation, b.generation, 2);
      assert Power256(3) == 0x100_0000 && Power256(2) == 0x1_0000;
    }
  }

  lemma MaterialEqualIff(f: seq<byte>, n: seq<byte>, g: seq<byte>, x: seq<byte>, y: seq<byte>, salt: seq<byte>)
    requires |n| == |x| && |g| == |y|
    ensures f + n + g + salt == f + x + y + salt <==> n == x && g == y
  {
    var s, t := f + n + g + salt, f + x + y + salt;
    var i, j := |f| + |n|, |f| + |n| + |g|;
    assert s[|f|..i] == n && s[i..j] == g && t[|f|..i] == x && t[i..j] == y;
  }

  // ---------------------------------------------------------------------------------------------
  // Decryption
  // ---------------------------------------------------------------------------------------------

  predicate IsMetadata(d: Dictionary) {
    IsName(Get(d, "Type"), "Metadata")
  }

  /** Streams that decryption leaves alone. */
  predicate StaysClear(handler: Handler, d: Dictionary) {
    (!handler.encryptMetadata && IsMetadata(d)) || handler.streamMethod == Identity
  }

  predicate IsCrypt(filter: seq<byte>) {
    Matches(filter, "Crypt")
  }

  /** The filters without `Crypt`, each with its own parameters or the default ones. */
  function WithoutCrypt(filters: seq<seq<byte>>, params: seq<DecodeParams>, index: nat): (seq<seq<byte>>, seq<DecodeParams>)
    requires index <= |filters|
    decreases |filters| - index
  {
    if index == |filters| then ([], [])
    else
      var (restFilters, restParams) := WithoutCrypt(filters, params, index + 1);
      if IsCrypt(filters[index]) then (restFilters, restParams)
      else ([filters[index]] + restFilters, [if index < |params| then params[index] else DEFAULT_PARAMS] + restParams)
  }

  function DecryptString(
      crypto: Crypto, handler: Handler, limits: CryptLimits, fileKey: seq<byte>, key: ObjectKey, bytes: seq<byte>)
    : Option<seq<byte>>
  {
    if handler.stringMethod == Identity then Some(bytes)
    else
      var plain := crypto.decrypt(handler.stringMethod, ObjectCipherKey(crypto, fileKey, key, handler.stringMethod), bytes);
      if plain.None? || |plain.value| > limits.maxDecryptedStringBytes || |plain.value| > limits.maxStringBytes then None
      else plain
  }

  /** The stream with its raw bytes decrypted, its dictionary not yet. */
  function DecryptStream(
      crypto: Crypto, handler: Handler, limits: CryptLimits, fileKey: seq<byte>, key: ObjectKey, stream: StreamObject)
    : Option<StreamObject>
  {
    if StaysClear(handler, stream.dictionary) then Some(stream)
    else if stream.RawBytes().Err? || |stream.RawBytes().value| > limits.maxStreamDeclaredBytes then None
    else
      var cipherKey := ObjectCipherKey(crypto, fileKey, key, handler.streamMethod);
      var plain := crypto.decrypt(handler.streamMethod, cipherKey, stream.RawBytes().value);
      if plain.None? || |plain.value| > limits.maxDecryptedStreamBytes then None
      else
        var (filters, params) := WithoutCrypt(stream.filters, stream.decodeParams, 0);
        Some(stream.(
          rawSource := plain.value, rawStart := 0, rawEnd := |plain.value|, discoveredLength := |plain.value|,
          declaredLength := Some(|plain.value|), filters := filters, decodeParams := params))
  }

  /** The object with every string and stream in it decrypted; nothing when one of them cannot be. */
  function DecryptObject(
      crypto: Crypto, handler: Handler, limits: CryptLimits, fileKey: seq<byte>, key: ObjectKey, o: CosObject)
    : Option<CosObject>
    decreases o
  {
    match o
    case String(bytes) =>
      var plain := DecryptString(crypto, handler, limits, fileKey, key, bytes);
      if plain.None? then None else Some(String(plain.value))
    case Array(items) =>
      if forall i | 0 <= i < |items| :: DecryptObject(crypto, handler, limits, fileKey, key, items[i]).Some? then
        Some(Array(seq(|items|, i requires 0 <= i < |items|
            && DecryptObject(crypto, handler, limits, fileKey, key, items[i]).Some? =>
          DecryptObject(crypto, handler, limits, fileKey, key, items[i]).value)))
      else None
    case Dict(entries) =>
      if forall k | k in entries :: DecryptObject(crypto, handler, limits, fileKey, key, entries[k]).Some? then
        Some(Dict(map k | k in entries :: DecryptObject(crypto, handler, limits, fileKey, key, entries[k]).value))
      else None
    case Stream(stream) =>
      var d := stream.dictionary;
      var body := DecryptStream(crypto, handler, limits, fileKey, key, stream);
      if body.None? then None
      else if forall k | k in d :: DecryptObject(crypto, handler, limits, fileKey, key, d[k]).Some? then
        Some(Stream(body.value.(
          dictionary := map k | k in d :: DecryptObject(crypto, handler, limits, fileKey, key, d[k]).value)))
      else None
    case _ => Some(o)
  }

  /** The store: every object in place, the encryption dictionary left as it is. */
  class ObjectStore {
    var objects: map<ObjectKey, CosObject>

    constructor (objects: map<ObjectKey, CosObject>)
      ensures this.objects == objects
    {
      this.objects := objects;
    }

    method DecryptObjects(crypto: Crypto, handler: Handler, limits: CryptLimits, fileKey: seq<byte>) returns (ok: bool)
      modifies this
      ensures ok <==> Decryptable(crypto, handler, limits, fileKey, old(objects))
      ensures ok ==> DecryptedFrom(old(objects), objects, old(objects).Keys, crypto, handler, limits, fileKey)
    {
      hide DecryptObject, DecryptedFrom;
      NothingDone(objects, crypto, handler, limits, fileKey);
      var left := objects.Keys;
      ghost var done: set<ObjectKey> := {};
      while left != {}
        invariant left !! done && left + done == old(objects).Keys
        invariant DecryptedFrom(old(objects), objects, done, crypto, handler, limits, fileKey)
        decreases |left|
      {
        var key :| key in left;
        NotYet(old(objects), objects, done, key, crypto, handler, limits, fileKey);
        left := left - {key};
        if Some(key) != handler.dictionaryKey {
          var o := DecryptObject(crypto, handler, limits, fileKey, key, objects[key]);
          if o.None? {
            return false;
          }
          objects := objects[key := o.value];
        }
        done := done + {key};
      }
      assert done == old(objects).Keys;
      AllDone(old(objects), objects, crypto, handler, limits, fileKey);
      return true;
    }
  }

  ghost predicate DecryptedFrom(
      before: map<ObjectKey, CosObject>, after: map<ObjectKey, CosObject>, done: set<ObjectKey>,
      crypto: Crypto, handler: Handler, limits: CryptLimits, fileKey: seq<byte>)
  {
    && after.Keys == before.Keys
    && forall k | k in before ::
         if k in done && Some(k) != handler.dictionaryKey then
           Some(after[k]) == DecryptObject(crypto, handler, limits, fileKey, k, before[k])
         else after[k] == before[k]
  }

  lemma NothingDone(
      before: map<ObjectKey, CosObject>, crypto: Crypto, handler: Handler, limits: CryptLimits, fileKey: seq<byte>)
    ensures DecryptedFrom(before, before, {}, crypto, handler, limits, fileKey)
  {
    hide DecryptObject;
  }

  /** The next object is still as it was, and decrypting it is one more done. */
  lemma NotYet(
      before: map<ObjectKey, CosObject>, now: map<ObjectKey, CosObject>, done: set<ObjectKey>, key: ObjectKey,
      crypto: Crypto, handler: Handler, limits: CryptLimits, fileKey: seq<byte>)
    requires DecryptedFrom(before, now, done, crypto, handler, limits, fileKey) && key in before && key !in done
    ensures key in now && now[key] == before[key]
    ensures var o := DecryptObject(crypto, handler, limits, fileKey, key, before[key]);
            if Some(key) == handler.dictionaryKey then
              DecryptedFrom(before, now, done + {key}, crypto, handler, limits, fileKey)
            else if o.Some? then
              DecryptedFrom(before, now[key := o.value], done + {key}, crypto, handler, limits, fileKey)
            else !Decryptable(crypto, handler, limits, fileKey, before)
  {
    hide DecryptObject;
  }

  lemma AllDone(
      before: map<ObjectKey, CosObject>, now: map<ObjectKey, CosObject>,
      crypto: Crypto, handler: Handler, limits: CryptLimits, fileKey: seq<byte>)
    requires DecryptedFrom(before, now, before.Keys, crypto, handler, limits, fileKey)
    ensures Decryptable(crypto, handler, limits, fileKey, before)
  {
    hide DecryptObject;
    forall k | k in before && Some(k) != handler.dictionaryKey
      ensures DecryptObject(crypto, handler, limits, fileKey, k, before[k]).Some?
    {
      assert Some(now[k]) == DecryptObject(crypto, handler, limits, fileKey, k, before[k]);
    }
  }

  ghost predicate Decryptable(
      crypto: Crypto, handler: Handler, limits: CryptLimits, fileKey: seq<byte>, objects: map<ObjectKey, CosObject>)
  {
    forall k | k in objects && Some(k) != handler.dictionaryKey ::
      DecryptObject(crypto, handler, limits, fileKey, k, objects[k]).Some?
  }

  // ---------------------------------------------------------------------------------------------
  // Encryption, as a writer does it
  // ---------------------------------------------------------------------------------------------

  /** The bytes encrypted under the object's key, with some initialisation vector. */
  ghost predicate EncryptsBytes(
      crypto: Crypto, m: CryptMethod, fileKey: seq<byte>, key: ObjectKey, plain: seq<byte>, cipher: seq<byte>)
  {
    if m == Identity then cipher == plain
    else
      exists iv :: VectorFits(m, iv) && cipher == crypto.encrypt(m, ObjectCipherKey(crypto, fileKey, key, m), iv, plain)
  }

  /** `cipher` is `plain` with every string and every stream body encrypted, and nothing else changed. */
  ghost predicate Encrypts(
      crypto: Crypto, handler: Handler, fileKey: seq<byte>, key: ObjectKey, plain: CosObject, cipher: CosObject)
    decreases plain
  {
    match plain
    case String(bytes) =>
      cipher.String? && EncryptsBytes(crypto, handler.stringMethod, fileKey, key, bytes, cipher.bytes)
    case Array(items) =>
      && cipher.Array? && |cipher.items| == |items|
      && forall i | 0 <= i < |items| :: Encrypts(crypto, handler, fileKey, key, items[i], cipher.items[i])
    case Dict(entries) =>
      && cipher.Dict? && cipher.entries.Keys == entries.Keys
      && forall k | k in entries :: Encrypts(crypto, handler, fileKey, key, entries[k], cipher.entries[k])
    case Stream(stream) =>
      && cipher.Stream? && cipher.stream.dictionary.Keys == stream.dictionary.Keys
      && (forall k | k in stream.dictionary ::
            Encrypts(crypto, handler, fileKey, key, stream.dictionary[k], cipher.stream.dictionary[k]))
      && cipher.stream.filters == stream.filters && cipher.stream.decodeParams == stream.decodeParams
      && BodyEncrypts(crypto, handler, fileKey, key, stream, cipher.stream)
    case _ => cipher == plain
  }

  ghost predicate BodyEncrypts(
      crypto: Crypto, handler: Handler, fileKey: seq<byte>, key: ObjectKey, plain: StreamObject, cipher: StreamObject)
  {
    if StaysClear(handler, plain.dictionary) then cipher.RawBytes() == plain.RawBytes()
    else
      && plain.RawBytes().Ok? && cipher.RawBytes().Ok?
      && EncryptsBytes(crypto, handler.streamMethod, fileKey, key, plain.RawBytes().value, cipher.RawBytes().value)
  }

  /** Every string and stream fits the limits, the encrypted stream bodies included, and the file key is long
      enough for whatever is encrypted. */
  ghost predicate Fits(handler: Handler, limits: CryptLimits, fileKey: seq<byte>, plain: CosObject, cipher: CosObject)
    decreases plain
  {
    match plain
    case String(bytes) =>
      || handler.stringMethod == Identity
      || (&& MethodFits(handler.stringMethod, fileKey)
          && |bytes| <= limits.maxDecryptedStringBytes && |bytes| <= limits.maxStringBytes)
    case Array(items) =>
      cipher.Array? && |cipher.items| == |items|
      && forall i | 0 <= i < |items| :: Fits(handler, limits, fileKey, items[i], cipher.items[i])
    case Dict(entries) =>
      cipher.Dict? && cipher.entries.Keys == entries.Keys
      && forall k | k in entries :: Fits(handler, limits, fileKey, entries[k], cipher.entries[k])
    case Stream(stream) =>
      && cipher.Stream? && cipher.stream.dictionary.Keys == stream.dictionary.Keys
      && (forall k | k in stream.dictionary :: Fits(handler, limits, fileKey, stream.dictionary[k], cipher.stream.dictionary[k]))
      && (StaysClear(handler, stream.dictionary) || BodyFits(handler, limits, fileKey, stream, cipher.stream))
    case _ => true
  }

  predicate BodyFits(
      handler: Handler, limits: CryptLimits, fileKey: seq<byte>, plain: StreamObject, cipher: StreamObject)
  {
    && MethodFits(handler.streamMethod, fileKey)
    && cipher.RawBytes().Ok? && |cipher.RawBytes().value| <= limits.maxStreamDeclaredBytes
    && plain.RawBytes().Ok? && |plain.RawBytes().value| <= limits.maxDecryptedStreamBytes
  }

  /** The same tree: equal everywhere but in where a stream keeps its raw bytes, the same bytes, and in
      the `Crypt` filters that decryption takes off. */
  ghost predicate Restores(handler: Handler, plain: CosObject, restored: CosObject)
    decreases plain
  {
    match plain
    case Array(items) =>
      && restored.Array? && |restored.items| == |items|
      && forall i | 0 <= i < |items| :: Restores(handler, items[i], restored.items[i])
    case Dict(entries) =>
      && restored.Dict? && restored.entries.Keys == entries.Keys
      && forall k | k in entries :: Restores(handler, entries[k], restored.entries[k])
    case Stream(stream) =>
      && restored.Stream? && restored.stream.dictionary.Keys == stream.dictionary.Keys
      && (forall k | k in stream.dictionary ::
            Restores(handler, stream.dictionary[k], restored.stream.dictionary[k]))
      && restored.stream.RawBytes() == stream.RawBytes()
      && (restored.stream.filters, restored.stream.decodeParams) ==
         if StaysClear(handler, stream.dictionary) then (stream.filters, stream.decodeParams)
         else WithoutCrypt(stream.filters, stream.decodeParams, 0)
    case _ => restored == plain
  }

  // ---------------------------------------------------------------------------------------------
  // Decryption undoes encryption
  // ---------------------------------------------------------------------------------------------

  lemma BytesRestored(
      crypto: Crypto, m: CryptMethod, fileKey: seq<byte>, key: ObjectKey, plain: seq<byte>, cipher: seq<byte>)
    requires Inverts(crypto) && m != Identity && EncryptsBytes(crypto, m, fileKey, key, plain, cipher)
    ensures crypto.decrypt(m, ObjectCipherKey(crypto, fileKey, key, m), cipher)
            == if MethodFits(m, fileKey) then Some(plain) else None
  {
    hide ObjectCipherKey;
    ObjectKeyFitsIff(crypto, fileKey, key, m);
    var iv :| VectorFits(m, iv) && cipher == crypto.encrypt(m, ObjectCipherKey(crypto, fileKey, key, m), iv, plain);
  }

  /** A dictionary keeps its names, so it keeps its type. */
  lemma TypeKept(crypto: Crypto, handler: Handler, fileKey: seq<byte>, key: ObjectKey, plain: Dictionary, cipher: Dictionary)
    requires plain.Keys == cipher.Keys
    requires forall k | k in plain :: Encrypts(crypto, handler, fileKey, key, plain[k], cipher[k])
    ensures IsMetadata(plain) <==> IsMetadata(cipher)
  {
    var k := Ascii("Type");
    if k in plain {
      assert Encrypts(crypto, handler, fileKey, key, plain[k], cipher[k]);
    }
  }

  lemma BodyRestored(
      crypto: Crypto, handler: Handler, limits: CryptLimits, fileKey: seq<byte>, key: ObjectKey,
      plain: StreamObject, cipher: StreamObject)
    requires Inverts(crypto) && BodyEncrypts(crypto, handler, fileKey, key, plain, cipher)
    requires IsMetadata(plain.dictionary) == IsMetadata(cipher.dictionary)
    requires cipher.filters == plain.filters && cipher.decodeParams == plain.decodeParams
    ensures var r := DecryptStream(crypto, handler, limits, fileKey, key, cipher);
            && (r.Some? <==> StaysClear(handler, plain.dictionary) || BodyFits(handler, limits, fileKey, plain, cipher))
            && (r.Some? ==>
                  && r.value.dictionary == cipher.dictionary && r.value.RawBytes() == plain.RawBytes()
                  && (r.value.filters, r.value.decodeParams) ==
                     if StaysClear(handler, plain.dictionary) then (plain.filters, plain.decodeParams)
                     else WithoutCrypt(plain.filters, plain.decodeParams, 0))
            && (r.Some? && !StaysClear(handler, plain.dictionary) ==>
                  var length := |plain.RawBytes().value|;
                  r.value.declaredLength == Some(length) && r.value.discoveredLength == length)
  {
    hide ObjectCipherKey, WithoutCrypt, Inverts, IsMetadata, MethodFits;
    if !StaysClear(handler, plain.dictionary) {
      var data := plain.RawBytes().value;
      BytesRestored(crypto, handler.streamMethod, fileKey, key, data, cipher.RawBytes().value);
      assert data[0..|data|] == data;
    }
  }

  /** An encrypted object is decrypted to what it was exactly when the limits hold and the file key is long
      enough. */
  lemma {:induction false} ObjectRestoredIff(
      crypto: Crypto, handler: Handler, limits: CryptLimits, fileKey: seq<byte>, key: ObjectKey,
      plain: CosObject, cipher: CosObject)
    requires Inverts(crypto) && Encrypts(crypto, handler, fileKey, key, plain, cipher)
    ensures var r := DecryptObject(crypto, handler, limits, fileKey, key, cipher);
            && (r.Some? <==> Fits(handler, limits, fileKey, plain, cipher))
            && (r.Some? ==> Restores(handler, plain, r.value))
    decreases plain, 2
  {
    hide Inverts, DecryptObject, Encrypts, Fits, Restores;
    match plain
    case Array(items) =>
      ArrayRestored(crypto, handler, limits, fileKey, key, plain, cipher);
    case Dict(entries) =>
      DictRestored(crypto, handler, limits, fileKey, key, plain, cipher);
    case Stream(stream) =>
      StreamRestored(crypto, handler, limits, fileKey, key, plain, cipher);
    case _ =>
      LeafRestored(crypto, handler, limits, fileKey, key, plain, cipher);
  }

  ghost predicate RestoredIff(
      crypto: Crypto, handler: Handler, limits: CryptLimits, fileKey: seq<byte>, key: ObjectKey,
      plain: CosObject, cipher: CosObject)
  {
    var r := DecryptObject(crypto, handler, limits, fileKey, key, cipher);
    && (r.Some? <==> Fits(handler, limits, fileKey, plain, cipher))
    && (r.Some? ==> Restores(handler, plain, r.value))
  }

  lemma LeafRestored(
      crypto: Crypto, handler: Handler, limits: CryptLimits, fileKey: seq<byte>, key: ObjectKey,
      plain: CosObject, cipher: CosObject)
    requires Inverts(crypto) && Encrypts(crypto, handler, fileKey, key, plain, cipher)
    requires !plain.Array? && !plain.Dict? && !plain.Stream?
    ensures RestoredIff(crypto, handler, limits, fileKey, key, plain, cipher)
  {
    hide Inverts, ObjectCipherKey, MethodFits;
    if plain.String? && handler.stringMethod != Identity {
      BytesRestored(crypto, handler.stringMethod, fileKey, key, plain.bytes, cipher.bytes);
    }
  }

  lemma ArrayRestored(
      crypto: Crypto, handler: Handler, limits: CryptLimits, fileKey: seq<byte>, key: ObjectKey,
      plain: CosObject, cipher: CosObject)
    requires Inverts(crypto) && Encrypts(crypto, handler, fileKey, key, plain, cipher) && plain.Array?
    ensures RestoredIff(crypto, handler, limits, fileKey, key, plain, cipher)
    decreases plain, 1
  {
    hide Inverts;
    ItemsRestored(crypto, handler, limits, fileKey, key, plain, plain.items, cipher.items);
  }

  lemma DictRestored(
      crypto: Crypto, handler: Handler, limits: CryptLimits, fileKey: seq<byte>, key: ObjectKey,
      plain: CosObject, cipher: CosObject)
    requires Inverts(crypto) && Encrypts(crypto, handler, fileKey, key, plain, cipher) && plain.Dict?
    ensures RestoredIff(crypto, handler, limits, fileKey, key, plain, cipher)
    decreases plain, 1
  {
    hide Inverts;
    EntriesRestored(crypto, handler, limits, fileKey, key, plain, plain.entries, cipher.entries);
  }

  lemma StreamRestored(
      crypto: Crypto, handler: Handler, limits: CryptLimits, fileKey: seq<byte>, key: ObjectKey,
      plain: CosObject, cipher: CosObject)
    requires Inverts(crypto) && Encrypts(crypto, handler, fileKey, key, plain, cipher) && plain.Stream?
    ensures RestoredIff(crypto, handler, limits, fileKey, key, plain, cipher)
    decreases plain, 1
  {
    hide Inverts, DecryptStream, BodyEncrypts, BodyFits, StaysClear, WithoutCrypt, IsMetadata;
    var p, c := plain.stream, cipher.stream;
    EntriesRestored(crypto, handler, limits, fileKey, key, plain, p.dictionary, c.dictionary);
    TypeKept(crypto, handler, fileKey, key, p.dictionary, c.dictionary);
    BodyRestored(crypto, handler, limits, fileKey, key, p, c);
  }

  lemma ItemsRestored(
      crypto: Crypto, handler: Handler, limits: CryptLimits, fileKey: seq<byte>, key: ObjectKey,
      o: CosObject, plain: seq<CosObject>, cipher: seq<CosObject>)
    requires Inverts(crypto) && |plain| == |cipher|
    requires forall i | 0 <= i < |plain| ::
               plain[i] < o && Encrypts(crypto, handler, fileKey, key, plain[i], cipher[i])
    ensures forall i | 0 <= i < |plain| ::
              var r := DecryptObject(crypto, handler, limits, fileKey, key, cipher[i]);
              && (r.Some? <==> Fits(handler, limits, fileKey, plain[i], cipher[i]))
              && (r.Some? ==> Restores(handler, plain[i], r.value))
    decreases o, 0
  {
    hide DecryptObject, Encrypts, Fits, Restores, Inverts;
    forall i | 0 <= i < |plain|
      ensures var r := DecryptObject(crypto, handler, limits, fileKey, key, cipher[i]);
              && (r.Some? <==> Fits(handler, limits, fileKey, plain[i], cipher[i]))
              && (r.Some? ==> Restores(handler, plain[i], r.value))
    {
      ObjectRestoredIff(crypto, handler, limits, fileKey, key, plain[i], cipher[i]);
    }
  }

  lemma EntriesRestored(
      crypto: Crypto, handler: Handler, limits: CryptLimits, fileKey: seq<byte>, key: ObjectKey,
      o: CosObject, plain: Dictionary, cipher: Dictionary)
    requires Inverts(crypto) && plain.Keys == cipher.Keys
    requires forall k | k in plain :: plain[k] < o && Encrypts(crypto, handler, fileKey, key, plain[k], cipher[k])
    ensures forall k | k in plain ::
              var r := DecryptObject(crypto, handler, limits, fileKey, key, cipher[k]);
              && (r.Some? <==> Fits(handler, limits, fileKey, plain[k], cipher[k]))
              && (r.Some? ==> Restores(handler, plain[k], r.value))
    decreases o, 0
  {
    hide DecryptObject, Encrypts, Fits, Restores, Inverts;
    forall k | k in plain
      ensures var r := DecryptObject(crypto, handler, limits, fileKey, key, cipher[k]);
              && (r.Some? <==> Fits(handler, limits, fileKey, plain[k], cipher[k]))
              && (r.Some? ==> Restores(handler, plain[k], r.value))
    {
      ObjectRestoredIff(crypto, handler, limits, fileKey, key, plain[k], cipher[k]);
    }
  }

  /** The whole document: decrypting an encrypted document restores it, object by object, and leaves the
      encryption dictionary alone. */
  lemma DocumentRestoredIff(
      crypto: Crypto, handler: Handler, limits: CryptLimits, fileKey: seq<byte>,
      plain: map<ObjectKey, CosObject>, cipher: map<ObjectKey, CosObject>)
    requires Inverts(crypto) && plain.Keys == cipher.Keys
    requires forall k | k in plain ::
               if Some(k) == handler.dictionaryKey then cipher[k] == plain[k]
               else Encrypts(crypto, handler, fileKey, k, plain[k], cipher[k])
    ensures Decryptable(crypto, handler, limits, fileKey, cipher) <==>
            forall k | k in plain && Some(k) != handler.dictionaryKey :: Fits(handler, limits, fileKey, plain[k], cipher[k])
    ensures Decryptable(crypto, handler, limits, fileKey, cipher) ==>
            forall k | k in plain && Some(k) != handler.dictionaryKey ::
              Restores(handler, plain[k], DecryptObject(crypto, handler, limits, fileKey, k, cipher[k]).value)
  {
    hide DecryptObject, Encrypts, Fits, Restores, Inverts;
    forall k | k in plain && Some(k) != handler.dictionaryKey
      ensures var r := DecryptObject(crypto, handler, limits, fileKey, k, cipher[k]);
              && (r.Some? <==> Fits(handler, limits, fileKey, plain[k], cipher[k]))
              && (r.Some? ==> Restores(handler, plain[k], r.value))
    {
      ObjectRestoredIff(crypto, handler, limits, fileKey, k, plain[k], cipher[k]);
    }
  }

  /** There is a string in the object, at any depth. */
  ghost predicate HoldsString(o: CosObject) {
    match o
    case String(_) => true
    case Array(items) => exists i | 0 <= i < |items| :: HoldsString(items[i])
    case Dict(entries) => exists k | k in entries :: HoldsString(entries[k])
    case Stream(stream) => exists k | k in stream.dictionary :: HoldsString(stream.dictionary[k])
    case _ => false
  }

  lemma {:induction false} StringStops(
      crypto: Crypto, handler: Handler, limits: CryptLimits, fileKey: seq<byte>, key: ObjectKey, o: CosObject)
    requires Inverts(crypto) && handler.stringMethod == AesV2 && |fileKey| < 11 && HoldsString(o)
    ensures DecryptObject(crypto, handler, limits, fileKey, key, o).None?
    decreases o
  {
    hide ObjectCipherKey, DecryptStream;
    match o
    case String(_) =>
      ObjectKeyFitsIff(crypto, fileKey, key, AesV2);
    case Array(items) =>
      var i :| 0 <= i < |items| && HoldsString(items[i]);
      StringStops(crypto, handler, limits, fileKey, key, items[i]);
    case Dict(entries) =>
      var k :| k in entries && HoldsString(entries[k]);
      StringStops(crypto, handler, limits, fileKey, key, entries[k]);
    case Stream(stream) =>
      var k :| k in stream.dictionary && HoldsString(stream.dictionary[k]);
      StringStops(crypto, handler, limits, fileKey, key, stream.dictionary[k]);
  }

  /** A file key below 11 bytes is too short for AESV2, also the 5 bytes assumed when the dictionary gives no
      length: a document with any string outside the encryption dictionary cannot be decrypted. */
  lemma ShortKeyOpensNothing(
      crypto: Crypto, handler: Handler, limits: CryptLimits, fileKey: seq<byte>, cipher: map<ObjectKey, CosObject>,
      key: ObjectKey)
    requires Inverts(crypto) && handler.stringMethod == AesV2 && |fileKey| < 11
    requires key in cipher && Some(key) != handler.dictionaryKey && HoldsString(cipher[key])
    ensures !Decryptable(crypto, handler, limits, fileKey, cipher)
  {
    hide DecryptObject, Inverts, HoldsString;
    StringStops(crypto, handler, limits, fileKey, key, cipher[key]);
  }
}
