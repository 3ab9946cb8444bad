/** Message framing (modules/Messages.py): a payload becomes
    [length indicator, payload groups..., padding indicator], every group a
    bit string of groupSize bits, and each group a colour of the Set. */
module Messages {
  import opened Wrappers
  import opened Bits
  import opened Scrambling

  /** One group: a string of '0'/'1' characters. */
  type Group = seq<bool>

  /** PlainMessage: the groups, length and padding indicators included. */
  datatype PlainMessage = PlainMessage(groups: seq<Group>)

  /** EncodedMessage: one SetElem per group, in message order. */
  datatype EncodedMessage = EncodedMessage(values: seq<SetElem>)

  datatype FramingError =
    | TruncatedMessage          // fewer groups than the length indicator declares
    | PaddingIndicatorMissing   // exactly as many groups as declared: groups[L] raises
    | MessageTooLong            // the group count does not fit in one group

  /** The zero bits fromBytes appends so that the bit count becomes a
      multiple of the group size. */
  function PaddingLength(bitCount: nat, groupSize: nat): (p: nat)
    requires groupSize >= 1
    ensures p < groupSize
    ensures (bitCount + p) % groupSize == 0
  {
    var remainder := bitCount % groupSize;
    var p := if remainder == 0 then 0 else groupSize - remainder;
    assert bitCount == groupSize * (bitCount / groupSize) + remainder;
    if remainder == 0 then
      DivModUnique(bitCount, groupSize, bitCount / groupSize, 0);
      p
    else
      DivModUnique(bitCount + p, groupSize, bitCount / groupSize + 1, 0);
      p
  }

  /** The padding indicator: groupSize - p zeros, then p ones. */
  function PaddingIndicator(p: nat, groupSize: nat): (r: Group)
    requires p <= groupSize
    ensures |r| == groupSize
  {
    Zeros(groupSize - p) + Ones(p)
  }

  /** PlainMessage.fromBytes. */
  function FromBytes(payload: seq<byte>, groupSize: nat): (r: PlainMessage)
    requires groupSize >= 1
    // the length indicator counts the groups after it, padding indicator included
    ensures |r.groups| >= 2 && Value(r.groups[0]) == |r.groups| - 1
  {
    var bits := BytesToBits(payload);
    var paddingLength := PaddingLength(|bits|, groupSize);
    var padded := bits + Zeros(paddingLength);
    var framed := padded + PaddingIndicator(paddingLength, groupSize);
    var groups := Split(framed, groupSize);
    PlainMessage([Binary(|groups|, groupSize)] + groups)
  }

  /** PlainMessage.getMessage. */
  function GetMessage(m: PlainMessage): (r: Result<seq<byte>, FramingError>)
    ensures r.Failure? <==> |m.groups| > 0 && |m.groups| <= Value(m.groups[0])
    ensures r == Failure(TruncatedMessage) <==> |m.groups| > 0 && |m.groups| < Value(m.groups[0])
    ensures |m.groups| == 0 ==> r == Success([])
  {
    if |m.groups| == 0 then Success([])
    else
      var lengthIndicator := Value(m.groups[0]);
      if |m.groups| < lengthIndicator then Failure(TruncatedMessage)
      else if |m.groups| == lengthIndicator then Failure(PaddingIndicatorMissing)
      else
        var paddingSize := PopCount(m.groups[lengthIndicator]);
        var bits := Concat(Between(m.groups, lengthIndicator));
        Success(ToBytes(DropLast(bits, paddingSize)))
  }

  /** groups[1:L]: empty when L <= 1. */
  function Between(groups: seq<Group>, l: nat): (r: seq<Group>)
    requires l <= |groups|
    ensures |r| == if l <= 1 then 0 else l - 1
  {
    if l <= 1 then [] else groups[1..l]
  }

  /** PlainMessage.calculateEncodedSize: the number of SetElems needed. */
  function CalculateEncodedSize(m: PlainMessage): (r: nat)
    ensures forall s: Set :: s.Valid() ==> |ElemsOf(m.groups, s)| == r
  {
    |m.groups|
  }

  /** The element list encode builds. */
  function ElemsOf(groups: seq<Group>, s: Set): seq<SetElem>
    requires s.Valid()
  {
    seq(|groups|, k requires 0 <= k < |groups| => s.ElemAt(Value(groups[k])))
  }

  /** The group list decode builds. */
  function GroupsOf(values: seq<SetElem>, s: Set): seq<Group>
    requires s.Valid()
  {
    seq(|values|, k requires 0 <= k < |values| => Binary(s.GetIndexOf(values[k]), s.groupSize))
  }

  /** PlainMessage.encode: each group, read as a binary number, is looked up
      in the Set. */
  method Encode(m: PlainMessage, s: Set) returns (e: EncodedMessage)
    requires s.Valid()
    ensures e.values == ElemsOf(m.groups, s)
  {
    var elems: seq<SetElem> := [];
    for i := 0 to |m.groups|
      invariant |elems| == i
      invariant forall k :: 0 <= k < i ==> elems[k] == s.ElemAt(Value(m.groups[k]))
    {
      var index := Value(m.groups[i]);
      var elem := s.GetElemAt(index);
      elems := elems + [elem];
    }
    e := EncodedMessage(elems);
  }

  /** EncodedMessage.decode: each element's index in the Set, formatted as a
      group of groupSize bits. */
  method Decode(e: EncodedMessage, s: Set) returns (m: PlainMessage)
    requires s.Valid()
    ensures m.groups == GroupsOf(e.values, s)
    ensures s.groupSize >= 1 ==> forall k :: 0 <= k < |m.groups| ==> |m.groups[k]| == s.groupSize
  {
    var groups: seq<Group> := [];
    for i := 0 to |e.values|
      invariant |groups| == i
      invariant forall k :: 0 <= k < i ==> groups[k] == Binary(s.GetIndexOf(e.values[k]), s.groupSize)
      invariant s.groupSize >= 1 ==> forall k :: 0 <= k < i ==> |groups[k]| == s.groupSize
    {
      var index := s.GetIndexOf(e.values[i]);
      var group := Binary(index, s.groupSize);
      if s.groupSize >= 1 {
        BinaryWidth(index, s.groupSize);
      }
      groups := groups + [group];
    }
    m := PlainMessage(groups);
  }

  /** The corrected framing: fromBytes, refused when the group count does not
      fit in a groupSize-bit length indicator. */
  function FrameBytes(payload: seq<byte>, groupSize: nat): (r: Result<PlainMessage, FramingError>)
    requires groupSize >= 1
    ensures r.Failure? <==> (8 * |payload| + groupSize - 1) / groupSize + 1 >= Pow2(groupSize)
    ensures r.Success? ==> r.value == FromBytes(payload, groupSize)
  {
    var m := FromBytes(payload, groupSize);
    FromBytesSize(payload, groupSize);
    if CalculateEncodedSize(m) - 1 >= Pow2(groupSize) then Failure(MessageTooLong) else Success(m)
  }

  // ---------------------------------------------------------------- lemmas

  /** The bits fromBytes cuts into payload groups: the payload's bits and
      the zero padding. */
  function PaddedBits(payload: seq<byte>, groupSize: nat): seq<bool>
    requires groupSize >= 1
  {
    BytesToBits(payload) + Zeros(PaddingLength(8 * |payload|, groupSize))
  }

  /** The padded bits fill k groups exactly. */
  lemma PaddedBitsGroups(payload: seq<byte>, groupSize: nat) returns (k: nat)
    requires groupSize >= 1
    ensures |PaddedBits(payload, groupSize)| == 8 * |payload| + PaddingLength(8 * |payload|, groupSize)
    ensures |PaddedBits(payload, groupSize)| == groupSize * k
  {
    var body := PaddedBits(payload, groupSize);
    k := |body| / groupSize;
    MultipleOf(|body|, groupSize);
  }

  /** The shape of fromBytes' groups: the length indicator, the padded
      payload bits cut into k groups of groupSize bits, and the padding
      indicator. */
  lemma FromBytesParts(payload: seq<byte>, groupSize: nat) returns (k: nat)
    requires groupSize >= 1
    ensures |PaddedBits(payload, groupSize)| == groupSize * k
    ensures |Split(PaddedBits(payload, groupSize), groupSize)| == k
    ensures forall j :: 0 <= j < k ==> |Split(PaddedBits(payload, groupSize), groupSize)[j]| == groupSize
    ensures FromBytes(payload, groupSize).groups
            == [Binary(k + 1, groupSize)] + Split(PaddedBits(payload, groupSize), groupSize)
               + [PaddingIndicator(PaddingLength(8 * |payload|, groupSize), groupSize)]
  {
    var p := PaddingLength(8 * |payload|, groupSize);
    var body := PaddedBits(payload, groupSize);
    var indicator := PaddingIndicator(p, groupSize);
    k := PaddedBitsGroups(payload, groupSize);
    SplitAppend(body, indicator, groupSize, k);
    SplitWidth(body, groupSize, k);
    assert Split(indicator, groupSize) == [indicator];
    var groups := Split(body + indicator, groupSize);
    assert |groups| == k + 1;
    assert FromBytes(payload, groupSize).groups == [Binary(|groups|, groupSize)] + groups;
  }

  /** The padding length is (g - a mod g) mod g, below g, and brings a to a
      multiple of g. */
  lemma PaddingLengthFormula(a: nat, g: nat)
    requires g >= 1
    ensures PaddingLength(a, g) == (g - a % g) % g < g
    ensures (a + PaddingLength(a, g)) % g == 0
  {
    var r := a % g;
    if r == 0 {
      DivModUnique(g, g, 1, 0);
    } else {
      DivModUnique(g - r, g, 0, g - r);
    }
  }

  /** Positions in a list laid out as fromBytes lays it out. */
  lemma FramedPositions(head: Group, body: seq<Group>, indicator: Group)
    ensures var gs := [head] + body + [indicator];
            && |gs| == |body| + 2
            && gs[0] == head
            && gs[|gs| - 1] == indicator
            && gs[1..|gs| - 1] == body
  {
  }

  /** fromBytes pads with p zero bits (p < g, PaddingLengthFormula); the
      padding indicator is g - p zeros then p ones, so it counts them in its
      ones; and the groups between the indicators join up to the payload's
      bits followed by the padding. */
  lemma FromBytesPadding(payload: seq<byte>, groupSize: nat)
    requires groupSize >= 1
    ensures var m := FromBytes(payload, groupSize);
            var p := PaddingLength(8 * |payload|, groupSize);
            && |m.groups| >= 2
            && m.groups[|m.groups| - 1] == Zeros(groupSize - p) + Ones(p)
            && PopCount(m.groups[|m.groups| - 1]) == p
            && Concat(m.groups[1..|m.groups| - 1]) == BytesToBits(payload) + Zeros(p)
  {
    var p := PaddingLength(8 * |payload|, groupSize);
    var bits := PaddedBits(payload, groupSize);
    var k := FromBytesParts(payload, groupSize);
    FramedPositions(Binary(k + 1, groupSize), Split(bits, groupSize), PaddingIndicator(p, groupSize));
    ConcatSplit(bits, groupSize);
    PopCountAppend(Zeros(groupSize - p), Ones(p));
    PopCountZeros(groupSize - p);
    PopCountOnes(p);
  }

  /** Widths in a list laid out as fromBytes lays it out. */
  lemma FramedWidths(k: nat, body: seq<Group>, indicator: Group, w: nat)
    requires w >= 1 && |indicator| == w
    requires forall j :: 0 <= j < |body| ==> |body[j]| == w
    ensures var gs := [Binary(k, w)] + body + [indicator];
            && (forall j :: 1 <= j < |gs| ==> |gs[j]| == w)
            && (k < Pow2(w) ==> |gs[0]| == w)
            && (k >= Pow2(w) ==> |gs[0]| > w)
  {
    if k < Pow2(w) {
      BinaryWidth(k, w);
    } else {
      BinaryOverflow(k, w);
    }
  }

  /** Every group has exactly groupSize bits as long as the group count fits
      in the length indicator; otherwise the length indicator is wider. */
  lemma FromBytesWidths(payload: seq<byte>, groupSize: nat)
    requires groupSize >= 1
    ensures var m := FromBytes(payload, groupSize);
            && (forall j :: 1 <= j < |m.groups| ==> |m.groups[j]| == groupSize)
            && (|m.groups| - 1 < Pow2(groupSize) ==> |m.groups[0]| == groupSize)
            && (|m.groups| - 1 >= Pow2(groupSize) ==> |m.groups[0]| > groupSize)
  {
    var k := FromBytesParts(payload, groupSize);
    var body := Split(PaddedBits(payload, groupSize), groupSize);
    var indicator := PaddingIndicator(PaddingLength(8 * |payload|, groupSize), groupSize);
    FramedWidths(k + 1, body, indicator, groupSize);
  }

  lemma CeilDivPadding(a: nat, g: nat)
    requires g >= 1
    ensures (a + PaddingLength(a, g)) / g == (a + g - 1) / g
  {
    var q, r := a / g, a % g;
    assert a == g * q + r;
    if r == 0 {
      DivModUnique(a, g, q, 0);
      DivModUnique(a + g - 1, g, q, g - 1);
    } else {
      DivModUnique(a + g - r, g, q + 1, 0);
      DivModUnique(a + g - 1, g, q + 1, r - 1);
    }
  }

  /** calculateEncodedSize of a framed payload of n bytes is ceil(8n / g) + 2. */
  lemma FromBytesSize(payload: seq<byte>, groupSize: nat)
    requires groupSize >= 1
    ensures CalculateEncodedSize(FromBytes(payload, groupSize)) == (8 * |payload| + groupSize - 1) / groupSize + 2
  {
    var p := PaddingLength(8 * |payload|, groupSize);
    var k := FromBytesParts(payload, groupSize);
    FramedPositions(Binary(k + 1, groupSize), Split(PaddedBits(payload, groupSize), groupSize), PaddingIndicator(p, groupSize));
    DivModUnique(8 * |payload| + p, groupSize, k, 0);
    CeilDivPadding(8 * |payload|, groupSize);
  }

  /** With groups of 24 bits an empty payload needs 2 colours and a 3-byte
      payload 3. */
  lemma EncodedSizeExamples(three: seq<byte>)
    requires |three| == 3
    ensures CalculateEncodedSize(FromBytes([], 24)) == 2
    ensures CalculateEncodedSize(FromBytes(three, 24)) == 3
  {
    FromBytesSize([], 24);
    FromBytesSize(three, 24);
  }

  /** Decoding a framed payload gives the payload back, for every group size
      (the length indicator is read at whatever width it has). */
  lemma GetMessageFromBytes(payload: seq<byte>, groupSize: nat)
    requires groupSize >= 1
    ensures GetMessage(FromBytes(payload, groupSize)) == Success(payload)
  {
    var m := FromBytes(payload, groupSize);
    var p := PaddingLength(8 * |payload|, groupSize);
    var k := FromBytesParts(payload, groupSize);
    FromBytesPadding(payload, groupSize);
    var l := Value(m.groups[0]);
    assert l == k + 1 && |m.groups| == k + 2;
    assert Between(m.groups, l) == m.groups[1..|m.groups| - 1];
    var bits := BytesToBits(payload) + Zeros(p);
    assert DropLast(bits, p) == BytesToBits(payload);
    ToBytesBytesToBits(payload);
  }

  /** getMessage reads the padding indicator at index L, so groups after it
      (unused slots of the document) do not change the result. */
  lemma GetMessageIgnoresTrailing(groups: seq<Group>, extra: seq<Group>)
    requires |groups| > 0 && Value(groups[0]) < |groups|
    ensures GetMessage(PlainMessage(groups + extra)) == GetMessage(PlainMessage(groups))
  {
    var all := groups + extra;
    var l := Value(groups[0]);
    assert all[0] == groups[0] && all[l] == groups[l];
    assert Between(all, l) == Between(groups, l);
  }

  /** A declared length of 5 with only 3 groups is a truncated message. */
  lemma TruncatedExample(a: Group, b: Group)
    ensures GetMessage(PlainMessage([Binary(5, 4), a, b])) == Failure(TruncatedMessage)
  {
  }

  /** Two whole groups split back into the two groups. */
  lemma SplitTwo(a: Group, b: Group)
    requires |a| == 8 && |b| == 8
    ensures Split(a + b, 8) == [a, b]
  {
    assert (a + b)[..8] == a;
    assert (a + b)[8..] == b;
  }

  /** "AB" with groups of 8 bits frames as [3, 'A', 'B', padding indicator 0]
      and decodes back to "AB". */
  lemma ExampleAB()
    ensures FromBytes([65, 66], 8).groups == [Binary(3, 8), Binary(65, 8), Binary(66, 8), Zeros(8)]
    ensures GetMessage(PlainMessage([Binary(3, 8), Binary(65, 8), Binary(66, 8), Zeros(8)])) == Success([65, 66])
  {
    var k := FromBytesParts([65, 66], 8);
    var bits := BytesToBits([65, 66]);
    assert PaddingLength(16, 8) == 0 by {
      DivModUnique(16, 8, 2, 0);
    }
    var tail: seq<byte> := [66];
    assert bits == Binary(65, 8) + Binary(66, 8) by {
      assert [65 as byte, 66][1..] == tail;
      assert tail[1..] == [];
    }
    BinaryWidth(65, 8);
    BinaryWidth(66, 8);
    assert Zeros(0) == [];
    var body := bits + Zeros(0);
    assert body == Binary(65, 8) + Binary(66, 8);
    SplitTwo(Binary(65, 8), Binary(66, 8));
    assert PaddingIndicator(0, 8) == Zeros(8);
    GetMessageFromBytes([65, 66], 8);
  }

  /** No multiple-of-8 check: a trailing chunk of fewer than 8 bits becomes a
      byte of its own (here the 4 bits 1010 become the byte 10). */
  lemma PartialChunkBecomesByte()
    ensures GetMessage(PlainMessage([Binary(2, 4), [true, false, true, false], Zeros(4)])) == Success([10])
  {
    var chunk := [true, false, true, false];
    var gs := [Binary(2, 4), chunk, Zeros(4)];
    assert Value(gs[0]) == 2;
    PopCountZeros(4);
    assert Between(gs, 2) == [chunk];
    assert Concat([chunk]) == chunk + Concat([]);
    assert DropLast(chunk, 0) == chunk;
    assert Value([true, false, true, false]) == 10 by {
      assert [true, false, true, false][..3] == [true, false, true];
      assert [true, false, true][..2] == [true, false];
      assert [true, false][..1] == [true];
    }
  }

  /** Decoding the colours of groups of groupSize bits gives the same groups,
      in order and of the same length. */
  lemma DecodeEncode(groups: seq<Group>, s: Set)
    requires s.Valid() && s.groupSize >= 1
    requires forall k :: 0 <= k < |groups| ==> |groups[k]| == s.groupSize
    ensures GroupsOf(ElemsOf(groups, s), s) == groups
  {
    var elems := ElemsOf(groups, s);
    forall k | 0 <= k < |groups|
      ensures GroupsOf(elems, s)[k] == groups[k]
    {
      var v := Value(groups[k]);
      GetIndexOfElemAtInRange(s, v);
      BinaryOfValue(groups[k]);
    }
  }

  lemma GroupsOfAppend(a: seq<SetElem>, b: seq<SetElem>, s: Set)
    requires s.Valid()
    ensures GroupsOf(a + b, s) == GroupsOf(a, s) + GroupsOf(b, s)
  {
  }

  /** A received list whose length indicator reads 0 decodes to no bytes. */
  lemma ZeroLengthIndicator(groups: seq<Group>)
    requires |groups| >= 1 && Value(groups[0]) == 0
    ensures GetMessage(PlainMessage(groups)) == Success([])
  {
    assert Between(groups, 0) == [];
  }

  /** The first colour of an encoded message decodes to the first group's
      value modulo 2^groupSize. */
  lemma FirstGroupReceived(groups: seq<Group>, s: Set)
    requires s.Valid() && |groups| >= 1
    ensures |GroupsOf(ElemsOf(groups, s), s)| == |groups|
    ensures Value(GroupsOf(ElemsOf(groups, s), s)[0]) == Value(groups[0]) % s.scramblingModulo
  {
    GetIndexOfElemAt(s, Value(groups[0]));
  }

  /** Finding: when the group count reaches 2^g, fromBytes writes a length
      indicator of g + 1 bits; encode maps it to the colour of index 0, so
      the receiver reads L = 0 and gets an empty payload back. */
  lemma LengthOverflowLosesPayload(payload: seq<byte>, s: Set)
    requires s.Valid() && s.groupSize >= 1
    requires CalculateEncodedSize(FromBytes(payload, s.groupSize)) - 1 == Pow2(s.groupSize)
    ensures payload != []
    ensures |FromBytes(payload, s.groupSize).groups[0]| == s.groupSize + 1
    ensures GetMessage(PlainMessage(GroupsOf(ElemsOf(FromBytes(payload, s.groupSize).groups, s), s))) == Success([])
  {
    var g := s.groupSize;
    var groups := FromBytes(payload, g).groups;
    var p := PaddingLength(8 * |payload|, g);
    var k := FromBytesParts(payload, g);
    FramedPositions(Binary(k + 1, g), Split(PaddedBits(payload, g), g), PaddingIndicator(p, g));
    assert k + 1 == Pow2(g) >= 2;
    BinaryOneOver(Pow2(g), g);
    FirstGroupReceived(groups, s);
    DivModUnique(Pow2(g), Pow2(g), 1, 0);
    ZeroLengthIndicator(GroupsOf(ElemsOf(groups, s), s));
  }

  /** The overflow is reached with groups of 8 bits by a 255-byte payload. */
  lemma LengthOverflowWitness(payload: seq<byte>)
    requires |payload| == 255
    ensures CalculateEncodedSize(FromBytes(payload, 8)) - 1 == Pow2(8)
  {
    FromBytesSize(payload, 8);
    Pow2Eight();
  }

  /** What the corrected framing promises: every group has groupSize bits, and
      whatever colours the receiver finds after the message, it decodes the
      payload back. */
  lemma FrameBytesRoundTrip(payload: seq<byte>, s: Set, extra: seq<SetElem>)
    requires s.Valid() && s.groupSize >= 1
    requires FrameBytes(payload, s.groupSize).Success?
    ensures var m := FrameBytes(payload, s.groupSize).value;
            && (forall k :: 0 <= k < |m.groups| ==> |m.groups[k]| == s.groupSize)
            && GetMessage(PlainMessage(GroupsOf(ElemsOf(m.groups, s) + extra, s))) == Success(payload)
  {
    var g := s.groupSize;
    var m := FromBytes(payload, g);
    FromBytesWidths(payload, g);
    DecodeEncode(m.groups, s);
    GroupsOfAppend(ElemsOf(m.groups, s), extra, s);
    GetMessageIgnoresTrailing(m.groups, GroupsOf(extra, s));
    GetMessageFromBytes(payload, g);
  }
}
