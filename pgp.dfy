/** Envelope (hybrid) encryption (modules/PGP.py). The blob is
    cipherText ++ nonce ++ tag ++ aesKeyEncrypted; the receiver finds the
    fields by their fixed lengths, counted from the end. RSA, AES-GCM and
    scrypt are foreign code: they enter as the function-valued fields of
    Primitives, and the bytes os.urandom and AES.new draw enter as
    parameters. */
module PGP {
  import opened Wrappers
  import opened Bits

  const SaltLength: nat := 16
  const PasswordLength: nat := 16
  const NonceLength: nat := 16
  const TagLength: nat := 16
  /** The RSA modulus in bytes: 128 for a 1024-bit key. */
  const WrappedKeyLength: nat := 128
  /** The fixed trailer: nonce, tag and wrapped key. */
  const TrailerLength: nat := WrappedKeyLength + TagLength + NonceLength

  /** The scrypt work factors and derived key length of encrypt. */
  const ScryptN: nat := 16384
  const ScryptR: nat := 8
  const ScryptP: nat := 1
  const AesKeyLength: nat := 32

  datatype PublicKey = PublicKey(n: nat, e: nat)
  datatype PrivateKey = PrivateKey(n: nat, e: nat, d: nat, p: nat, q: nat)

  datatype CryptoError =
    | MissingKey              // no key of the needed kind has been added
    | KeyUnwrapFailure        // rsa.decrypt rejects the wrapped key
    | AuthenticationFailure   // decrypt_and_verify rejects the tag

  /** The foreign primitives encrypt and decrypt call. */
  datatype Primitives = Primitives(
    // hashlib.scrypt(password, salt, n, r, p, dklen)
    scrypt: (seq<byte>, seq<byte>, nat, nat, nat, nat) -> seq<byte>,
    // rsa.encrypt(message, publicKey)
    rsaEncrypt: (seq<byte>, PublicKey) -> seq<byte>,
    // rsa.decrypt(crypto, privateKey); None where it raises
    rsaDecrypt: (seq<byte>, PrivateKey) -> Option<seq<byte>>,
    // AES-GCM encrypt_and_digest under (key, nonce): (cipherText, tag)
    gcmEncrypt: (seq<byte>, seq<byte>, seq<byte>) -> (seq<byte>, seq<byte>),
    // AES-GCM decrypt_and_verify under (key, nonce) of (cipherText, tag); None where it raises
    gcmDecrypt: (seq<byte>, seq<byte>, seq<byte>, seq<byte>) -> Option<seq<byte>>)

  /** The four fields of a blob. */
  datatype Envelope = Envelope(cipherText: seq<byte>, nonce: seq<byte>, tag: seq<byte>, aesKeyEncrypted: seq<byte>)

  /** The blob encrypt returns. */
  function Pack(e: Envelope): (r: seq<byte>)
    ensures |r| == |e.cipherText| + |e.nonce| + |e.tag| + |e.aesKeyEncrypted|
    ensures r[..|e.cipherText|] == e.cipherText
    ensures r[|r| - |e.aesKeyEncrypted|..] == e.aesKeyEncrypted
  {
    e.cipherText + e.nonce + e.tag + e.aesKeyEncrypted
  }

  /** A Python slice bound: negative counts from the end, then clamped to
      [0, n]. */
  function SliceBound(i: int, n: nat): (r: nat)
    ensures r <= n
    ensures 0 <= i <= n ==> r == i
  {
    var k := if i < 0 then i + n else i;
    if k < 0 then 0 else if k > n then n else k
  }

  /** s[i:j] with Python's slice semantics. */
  function PySlice<T>(s: seq<T>, i: int, j: int): (r: seq<T>)
    // in range, it is the ordinary slice
    ensures 0 <= i <= j <= |s| ==> r == s[i..j]
    // negative bounds count from the end
    ensures -|s| <= i <= j < 0 ==> r == s[|s| + i..|s| + j]
    // empty when the clamped bounds cross
    ensures SliceBound(j, |s|) <= SliceBound(i, |s|) ==> r == []
  {
    var a, b := SliceBound(i, |s|), SliceBound(j, |s|);
    if a < b then s[a..b] else []
  }

  /** The four slices decrypt takes from the back of the message. */
  function Unpack(message: seq<byte>): (e: Envelope)
    ensures |message| >= TrailerLength ==>
      && e.aesKeyEncrypted == message[|message| - WrappedKeyLength..]
      && e.tag == message[|message| - WrappedKeyLength - TagLength..|message| - WrappedKeyLength]
      && e.nonce == message[|message| - TrailerLength..|message| - WrappedKeyLength - TagLength]
      && e.cipherText == message[..|message| - TrailerLength]
  {
    var n := |message|;
    Envelope(
      PySlice(message, 0, n - (128 + 16 * 2)),
      PySlice(message, n - (128 + 16 * 2), n - (128 + 16)),
      PySlice(message, n - (128 + 16), n - 128),
      PySlice(message, n - 128, n))
  }

  /** encrypt with a public key loaded: scrypt derives the AES key from the
      random password and salt, RSA wraps it, AES-GCM encrypts the message
      under a fresh nonce, and the four results are packed. */
  function Seal(prims: Primitives, key: PublicKey, salt: seq<byte>, password: seq<byte>,
                nonce: seq<byte>, message: seq<byte>): (r: seq<byte>)
    // with the design's field lengths, decrypt's slicing finds the four results again
    ensures var aesKey := prims.scrypt(password, salt, ScryptN, ScryptR, ScryptP, AesKeyLength);
            var (cipherText, tag) := prims.gcmEncrypt(aesKey, nonce, message);
            var wrapped := prims.rsaEncrypt(aesKey, key);
            |nonce| == NonceLength && |tag| == TagLength && |wrapped| == WrappedKeyLength ==>
              Unpack(r) == Envelope(cipherText, nonce, tag, wrapped)
  {
    var aesKey := prims.scrypt(password, salt, ScryptN, ScryptR, ScryptP, AesKeyLength);
    var (cipherText, tag) := prims.gcmEncrypt(aesKey, nonce, message);
    var e := Envelope(cipherText, nonce, tag, prims.rsaEncrypt(aesKey, key));
    if |nonce| == NonceLength && |tag| == TagLength && |e.aesKeyEncrypted| == WrappedKeyLength then
      UnpackPack(e);
      Pack(e)
    else
      Pack(e)
  }

  /** decrypt with a private key loaded: unwrap the AES key, then decrypt and
      verify. */
  function Open(prims: Primitives, key: PrivateKey, message: seq<byte>): (r: Result<seq<byte>, CryptoError>)
    ensures r.Success? ==>
      var e := Unpack(message);
      && prims.rsaDecrypt(e.aesKeyEncrypted, key).Some?
      && prims.gcmDecrypt(prims.rsaDecrypt(e.aesKeyEncrypted, key).value, e.nonce, e.cipherText, e.tag) == Some(r.value)
  {
    var e := Unpack(message);
    match prims.rsaDecrypt(e.aesKeyEncrypted, key)
    case None => Failure(KeyUnwrapFailure)
    case Some(aesKey) =>
      match prims.gcmDecrypt(aesKey, e.nonce, e.cipherText, e.tag)
      case None => Failure(AuthenticationFailure)
      case Some(plainText) => Success(plainText)
  }

  /** What the primitives must do for one seal/open pair: RSA gives back the
      wrapped key and AES-GCM verifies and gives back the message, with the
      field lengths of this design. */
  predicate SealOpens(prims: Primitives, publicKey: PublicKey, privateKey: PrivateKey,
                      salt: seq<byte>, password: seq<byte>, nonce: seq<byte>, message: seq<byte>)
  {
    var aesKey := prims.scrypt(password, salt, ScryptN, ScryptR, ScryptP, AesKeyLength);
    var wrapped := prims.rsaEncrypt(aesKey, publicKey);
    var (cipherText, tag) := prims.gcmEncrypt(aesKey, nonce, message);
    && |nonce| == NonceLength && |tag| == TagLength && |wrapped| == WrappedKeyLength
    && prims.rsaDecrypt(wrapped, privateKey) == Some(aesKey)
    && prims.gcmDecrypt(aesKey, nonce, cipherText, tag) == Some(message)
  }

  /** The key holder of PGP.py: both keys start unset (__init__ assigns
      neither) and are added from key files. */
  class PGP {
    var publicKey: Option<PublicKey>
    var privateKey: Option<PrivateKey>

    constructor ()
      ensures publicKey == None && privateKey == None
    {
      publicKey := None;
      privateKey := None;
    }

    /** addPublicKey, after the PEM file has been read and parsed. */
    method AddPublicKey(key: PublicKey)
      modifies this
      ensures publicKey == Some(key) && privateKey == old(privateKey)
    {
      publicKey := Some(key);
    }

    /** addPrivateKey, after the PEM file has been read and parsed. */
    method AddPrivateKey(key: PrivateKey)
      modifies this
      ensures privateKey == Some(key) && publicKey == old(publicKey)
    {
      privateKey := Some(key);
    }

    /** encrypt: refused without a public key; salt and password are the
        16 random bytes os.urandom gives, nonce the one AES.new draws. */
    method Encrypt(prims: Primitives, salt: seq<byte>, password: seq<byte>, nonce: seq<byte>,
                   message: seq<byte>) returns (r: Result<seq<byte>, CryptoError>)
      requires |salt| == SaltLength && |password| == PasswordLength && |nonce| == NonceLength
      ensures publicKey.None? ==> r == Failure(MissingKey)
      ensures publicKey.Some? ==> r == Success(Seal(prims, publicKey.value, salt, password, nonce, message))
    {
      if publicKey.None? {
        return Failure(MissingKey);
      }
      var aesKey := prims.scrypt(password, salt, ScryptN, ScryptR, ScryptP, AesKeyLength);
      var aesKeyEncrypted := prims.rsaEncrypt(aesKey, publicKey.value);
      var (cipherText, tag) := prims.gcmEncrypt(aesKey, nonce, message);
      r := Success(Pack(Envelope(cipherText, nonce, tag, aesKeyEncrypted)));
    }

    /** decrypt: refused without a private key. */
    method Decrypt(prims: Primitives, message: seq<byte>) returns (r: Result<seq<byte>, CryptoError>)
      ensures privateKey.None? ==> r == Failure(MissingKey)
      ensures privateKey.Some? ==> r == Open(prims, privateKey.value, message)
    {
      if privateKey.None? {
        return Failure(MissingKey);
      }
      var e := Unpack(message);
      var aesKey := prims.rsaDecrypt(e.aesKeyEncrypted, privateKey.value);
      if aesKey.None? {
        return Failure(KeyUnwrapFailure);
      }
      var plainText := prims.gcmDecrypt(aesKey.value, e.nonce, e.cipherText, e.tag);
      if plainText.None? {
        return Failure(AuthenticationFailure);
      }
      r := Success(plainText.value);
    }
  }

  // ---------------------------------------------------------------- lemmas

  /** A blob of at least 160 bytes is exactly the concatenation of its four
      slices, the last three of lengths 16, 16 and 128. */
  lemma PackUnpack(message: seq<byte>)
    requires |message| >= TrailerLength
    ensures var e := Unpack(message);
            && |e.nonce| == NonceLength && |e.tag| == TagLength && |e.aesKeyEncrypted| == WrappedKeyLength
            && |e.cipherText| == |message| - TrailerLength
            && Pack(e) == message
  {
    var e := Unpack(message);
    var n := |message|;
    assert Pack(e) == message[..n - 160] + message[n - 160..n - 144] + message[n - 144..n - 128] + message[n - 128..];
    assert message[..n - 160] + message[n - 160..n - 144] == message[..n - 144];
    assert message[..n - 144] + message[n - 144..n - 128] == message[..n - 128];
    assert message[..n - 128] + message[n - 128..] == message;
  }

  /** Splitting a packed blob whose nonce, tag and wrapped key have the
      design's lengths gives back the four fields. */
  lemma UnpackPack(e: Envelope)
    requires |e.nonce| == NonceLength && |e.tag| == TagLength && |e.aesKeyEncrypted| == WrappedKeyLength
    ensures Unpack(Pack(e)) == e
  {
    var blob := Pack(e);
    var c := |e.cipherText|;
    assert blob[..c] == e.cipherText;
    assert blob[c..c + 16] == e.nonce;
    assert blob[c + 16..c + 32] == e.tag;
    assert blob[c + 32..] == e.aesKeyEncrypted;
  }

  /** Envelope round trip: what was sealed for a key pair opens with it,
      provided the primitives do their part. */
  lemma OpenSeal(prims: Primitives, publicKey: PublicKey, privateKey: PrivateKey,
                 salt: seq<byte>, password: seq<byte>, nonce: seq<byte>, message: seq<byte>)
    requires SealOpens(prims, publicKey, privateKey, salt, password, nonce, message)
    ensures Open(prims, privateKey, Seal(prims, publicKey, salt, password, nonce, message)) == Success(message)
  {
    var aesKey := prims.scrypt(password, salt, ScryptN, ScryptR, ScryptP, AesKeyLength);
    var (cipherText, tag) := prims.gcmEncrypt(aesKey, nonce, message);
    UnpackPack(Envelope(cipherText, nonce, tag, prims.rsaEncrypt(aesKey, publicKey)));
  }
}
