/** The send and receive chains of main.py, from the (already compressed)
    payload to the colours of the document and back. The document is the
    list of colours of its slots, in document order; committing recolours
    the first slots, one per element, and leaves the others as they were. */
module Pipeline {
  import opened Wrappers
  import opened Bits
  import opened Scrambling
  import opened Messages
  import opened PGP

  datatype StegoError =
    | Framing(framing: FramingError)
    | Capacity(available: nat, needed: nat)   // the document has too few slots
    | Crypto(crypto: CryptoError)

  /** The document after commit(elems): the first |elems| slots recoloured. */
  function Commit(document: seq<SetElem>, elems: seq<SetElem>): (r: seq<SetElem>)
    requires |elems| <= |document|
    ensures |r| == |document| && r[..|elems|] == elems
    ensures r[|elems|..] == document[|elems|..]
  {
    elems + document[|elems|..]
  }

  /** Sending: encrypt, frame, check the document's capacity before any
      write, encode, commit. */
  function Send(prims: Primitives, publicKey: PublicKey, salt: seq<byte>, password: seq<byte>,
                nonce: seq<byte>, s: Set, payload: seq<byte>, document: seq<SetElem>): (r: Result<seq<SetElem>, StegoError>)
    requires s.Valid() && s.groupSize >= 1
    ensures r.Success? ==> |r.value| == |document|
  {
    var cipherText := Seal(prims, publicKey, salt, password, nonce, payload);
    match FrameBytes(cipherText, s.groupSize)
    case Failure(e) => Failure(Framing(e))
    case Success(plainMsg) =>
      var needed := CalculateEncodedSize(plainMsg);
      if |document| < needed then Failure(Capacity(|document|, needed))
      else Success(Commit(document, ElemsOf(plainMsg.groups, s)))
  }

  /** Receiving: decode every slot's colour, reassemble the blob, decrypt. */
  function Receive(prims: Primitives, privateKey: PrivateKey, s: Set, document: seq<SetElem>): (r: Result<seq<byte>, StegoError>)
    requires s.Valid()
    // receiving never reports a capacity failure or an oversized message
    ensures r.Failure? ==> !r.error.Capacity? && r.error != Framing(MessageTooLong)
    // an empty document holds the empty blob
    ensures document == [] ==> r == match Open(prims, privateKey, []) {
                                       case Failure(e) => Failure(Crypto(e))
                                       case Success(p) => Success(p)
                                     }
  {
    match GetMessage(PlainMessage(GroupsOf(document, s)))
    case Failure(e) => Failure(Framing(e))
    case Success(encryptedMessage) =>
      match Open(prims, privateKey, encryptedMessage)
      case Failure(e) => Failure(Crypto(e))
      case Success(plainText) => Success(plainText)
  }

  /** Sending fails only when the framed message cannot be represented or
      does not fit in the document, and then the document is not written. */
  lemma SendFailures(prims: Primitives, publicKey: PublicKey, salt: seq<byte>, password: seq<byte>,
                     nonce: seq<byte>, s: Set, payload: seq<byte>, document: seq<SetElem>)
    requires s.Valid() && s.groupSize >= 1
    ensures var blob := Seal(prims, publicKey, salt, password, nonce, payload);
            var needed := (8 * |blob| + s.groupSize - 1) / s.groupSize + 2;
            && (Send(prims, publicKey, salt, password, nonce, s, payload, document).Failure?
                <==> needed - 1 >= Pow2(s.groupSize) || |document| < needed)
  {
    var blob := Seal(prims, publicKey, salt, password, nonce, payload);
    FromBytesSize(blob, s.groupSize);
  }

  /** End to end: whatever the document held, after a successful send the
      receiver with the matching private key and the same Set gets the
      payload back. */
  lemma ReceiveSend(prims: Primitives, publicKey: PublicKey, privateKey: PrivateKey, salt: seq<byte>,
                    password: seq<byte>, nonce: seq<byte>, s: Set, payload: seq<byte>, document: seq<SetElem>)
    requires s.Valid() && s.groupSize >= 1
    requires SealOpens(prims, publicKey, privateKey, salt, password, nonce, payload)
    requires Send(prims, publicKey, salt, password, nonce, s, payload, document).Success?
    ensures Receive(prims, privateKey, s, Send(prims, publicKey, salt, password, nonce, s, payload, document).value)
            == Success(payload)
  {
    var blob := Seal(prims, publicKey, salt, password, nonce, payload);
    var plainMsg := FrameBytes(blob, s.groupSize).value;
    var elems := ElemsOf(plainMsg.groups, s);
    FrameBytesRoundTrip(blob, s, document[|elems|..]);
    OpenSeal(prims, publicKey, privateKey, salt, password, nonce, payload);
  }
}
