/** The scrambled set of colour actions (modules/Set.py, modules/SetElem.py):
    a keyed ROT-N over [0, 2^groupSize) followed by a split of the rotated
    index into an R, G, B triple, R holding the most significant bits. */
module Scrambling {
  import opened Bits

  /** One colour action: change the colour of a character to (red, green, blue). */
  datatype SetElem = SetElem(red: int, green: int, blue: int)

  predicate IsByteTriple(e: SetElem) {
    0 <= e.red < 256 && 0 <= e.green < 256 && 0 <= e.blue < 256
  }

  /** R * 256^2 + G * 256 + B */
  function ColourValue(e: SetElem): int {
    e.red * 65536 + e.green * 256 + e.blue
  }

  // ------------------------------------------------------- key derivation

  /** The digits int(s, 32) accepts in a lower-case string: 0-9, a-v. */
  predicate IsBase32Digit(c: char) {
    '0' <= c <= '9' || 'a' <= c <= 'v'
  }

  predicate IsBase32String(s: string) {
    forall i :: 0 <= i < |s| ==> IsBase32Digit(s[i])
  }

  /** Lower-case hex digits are the base-32 digits up to 'f'. */
  predicate IsHexString(s: string) {
    IsBase32String(s) && forall i :: 0 <= i < |s| ==> s[i] <= 'f'
  }

  /** What hashlib.sha256(...).hexdigest() returns: 64 lower-case hex digits. */
  predicate IsHexDigest(d: string) {
    |d| == 64 && IsHexString(d)
  }

  function Base32Digit(c: char): (v: nat)
    requires IsBase32Digit(c)
    ensures v < 32
    ensures c <= 'f' ==> v < 16
  {
    if c <= '9' then c as int - '0' as int else c as int - 'a' as int + 10
  }

  /** int(s, 32) for a string of lower-case base-32 digits. */
  function Base32Value(s: string): (v: nat)
    requires IsBase32String(s)
    ensures v < Pow32(|s|)
  {
    if s == [] then 0 else 32 * Base32Value(s[..|s| - 1]) + Base32Digit(s[|s| - 1])
  }

  function Pow32(n: nat): nat {
    if n == 0 then 1 else 32 * Pow32(n - 1)
  }

  /** A Set as built by Set.__init__: the three fields it assigns once. */
  datatype Set = Set(groupSize: nat, scramblingDisplacement: nat, scramblingModulo: nat) {

    /** The modulo is the number of elements of the set, 2^groupSize. */
    predicate Valid() {
      scramblingModulo == Pow2(groupSize)
    }

    /** __applyScrambling__: ROT-N by the displacement. */
    function ApplyScrambling(index: nat): (r: nat)
      requires Valid()
      ensures r < scramblingModulo
    {
      (index + scramblingDisplacement) % scramblingModulo
    }

    /** __unapplyScrambling__: the rotation back. The displacement is not
        reduced first, so the addend may be negative; Python's % on a
        positive modulo is never negative, like Dafny's. */
    function UnapplyScrambling(scrambledIndex: int): (r: nat)
      requires Valid()
      ensures r < scramblingModulo
    {
      ((scramblingModulo - scramblingDisplacement) + scrambledIndex) % scramblingModulo
    }

    /** getIndexOf: the colour read as a big-endian number, unscrambled. */
    function GetIndexOf(e: SetElem): (r: nat)
      requires Valid()
      ensures r < scramblingModulo
    {
      UnapplyScrambling(ColourValue(e))
    }

    /** The element getElemAt returns. */
    function ElemAt(index: nat): (e: SetElem)
      requires Valid()
      ensures ColourValue(e) == ApplyScrambling(index)
      ensures 0 <= e.red && 0 <= e.green < 256 && 0 <= e.blue < 256
      ensures groupSize <= 24 ==> IsByteTriple(e)
    {
      var s := ApplyScrambling(index);
      Pow2AtMost24(groupSize);
      SetElem(s / 65536, (s / 256) % 256, s % 256)
    }

    /** getElemAt: the rotated index is written into a three-slot colour
        buffer, blue first, dividing by 256 between the components. */
    method GetElemAt(index: nat) returns (e: SetElem)
      requires Valid()
      ensures e == ElemAt(index)
    {
      var scrambledIndex := ApplyScrambling(index);
      ghost var s := scrambledIndex;
      var color := new int[3];
      color[2] := scrambledIndex % 256;
      scrambledIndex := scrambledIndex / 256;
      color[1] := scrambledIndex % 256;
      color[0] := scrambledIndex / 256;
      DivDiv256(s);
      e := SetElem(color[0], color[1], color[2]);
    }
  }

  /** Set.__init__ given the hex digest of the SHA-256 hash of the password:
      the displacement is int(digest[14:18], 32), kept unreduced. */
  function NewSet(groupSize: nat, digest: string): (s: Set)
    requires IsHexDigest(digest)
    ensures s.Valid() && s.groupSize == groupSize
    ensures s.scramblingDisplacement <= 507375
  {
    var slice := digest[14..18];
    Base32Bound(slice);
    Set(groupSize, Base32Value(slice), Pow2(groupSize))
  }

  // ---------------------------------------------------------------- lemmas

  /** The digest slice holds four hex digits, each below 16, so the
      displacement is at most 15 * (32^3 + 32^2 + 32 + 1) = 507375: more than
      two bytes, and more than 2^groupSize for every groupSize below 19. */
  lemma {:induction false} Base32HexBound(s: string)
    requires IsHexString(s)
    ensures 31 * Base32Value(s) <= 15 * (Pow32(|s|) - 1)
    decreases |s|
  {
    if s != [] {
      var init := s[..|s| - 1];
      Base32HexBound(init);
      assert Base32Value(s) == 32 * Base32Value(init) + Base32Digit(s[|s| - 1]);
    }
  }

  lemma Base32Bound(slice: string)
    requires |slice| == 4 && IsHexString(slice)
    ensures Base32Value(slice) <= 507375
  {
    Base32HexBound(slice);
    assert Pow32(4) == 1048576;
  }

  /** The largest displacement the digest slice can give ("ffff") exceeds two
      bytes, although the source's own comment calls it two bytes. */
  lemma DisplacementExceedsTwoBytes()
    ensures IsBase32String("ffff") && Base32Value("ffff") == 507375 > 65535
  {
    assert "ffff"[..3] == "fff" && "fff"[..2] == "ff" && "ff"[..1] == "f" && "f"[..0] == "";
  }

  /** Unscrambling undoes scrambling on the whole index space, whether or not
      the displacement is below the modulo. */
  lemma UnapplyApply(s: Set, index: nat)
    requires s.Valid() && index < s.scramblingModulo
    ensures s.UnapplyScrambling(s.ApplyScrambling(index)) == index
  {
    var m: int, d: int := s.scramblingModulo, s.scramblingDisplacement;
    var q, a := (index + d) / m, (index + d) % m;
    assert index + d == m * q + a;
    assert m * (1 - q) == m - m * q;
    assert (m - d) + a == index + m * (1 - q);
    ModAddMultiple(index, 1 - q, m);
    DivModUnique(index, m, 0, index);
  }

  /** Scrambling undoes unscrambling on the whole index space. */
  lemma ApplyUnapply(s: Set, scrambled: nat)
    requires s.Valid() && scrambled < s.scramblingModulo
    ensures s.ApplyScrambling(s.UnapplyScrambling(scrambled)) == scrambled
  {
    var m: int, d: int := s.scramblingModulo, s.scramblingDisplacement;
    var q, u := ((m - d) + scrambled) / m, ((m - d) + scrambled) % m;
    assert (m - d) + scrambled == m * q + u;
    assert m * (1 - q) == m - m * q;
    assert u + d == scrambled + m * (1 - q);
    ModAddMultiple(scrambled, 1 - q, m);
    DivModUnique(scrambled, m, 0, scrambled);
  }

  /** Scrambling depends on the index only modulo 2^groupSize. */
  lemma ApplyMod(s: Set, index: nat)
    requires s.Valid()
    ensures s.ApplyScrambling(index) == s.ApplyScrambling(index % s.scramblingModulo)
  {
    var m: int, d: int := s.scramblingModulo, s.scramblingDisplacement;
    assert index == m * (index / m) + index % m;
    assert index + d == (index % m + d) + m * (index / m);
    ModAddMultiple(index % m + d, index / m, m);
  }

  /** Colour to index recovers the index modulo 2^groupSize, for every
      groupSize: the colour components add back up to the rotated index. */
  lemma GetIndexOfElemAt(s: Set, index: nat)
    requires s.Valid()
    ensures s.GetIndexOf(s.ElemAt(index)) == index % s.scramblingModulo
  {
    ApplyMod(s, index);
    UnapplyApply(s, index % s.scramblingModulo);
  }

  /** In particular it is the identity on [0, 2^groupSize). */
  lemma GetIndexOfElemAtInRange(s: Set, index: nat)
    requires s.Valid() && index < s.scramblingModulo
    ensures s.GetIndexOf(s.ElemAt(index)) == index
  {
    GetIndexOfElemAt(s, index);
    DivModUnique(index, s.scramblingModulo, 0, index);
  }

  /** With groupSize 24 every byte triple is the element of exactly one index:
      the map is a bijection on all 24-bit colours. */
  lemma ElemAtGetIndexOf(s: Set, c: SetElem)
    requires s.Valid() && s.groupSize == 24 && IsByteTriple(c)
    ensures s.ElemAt(s.GetIndexOf(c)) == c
  {
    var v := ColourValue(c);
    Pow2TwentyFour();
    assert 0 <= v < s.scramblingModulo;
    ApplyUnapply(s, v);
    var e := s.ElemAt(s.GetIndexOf(c));
    assert ColourValue(e) == v;
    ColourDigitsUnique(e, c);
  }

  /** Two colours with components in range and the same value are equal. */
  lemma ColourDigitsUnique(e: SetElem, c: SetElem)
    requires 0 <= e.green < 256 && 0 <= e.blue < 256 && IsByteTriple(c)
    requires ColourValue(e) == ColourValue(c)
    ensures e == c
  {
    var v := ColourValue(c);
    assert v == 256 * (256 * c.red + c.green) + c.blue;
    DivModUnique(v, 256, 256 * c.red + c.green, c.blue);
    assert v == 256 * (256 * e.red + e.green) + e.blue;
    DivModUnique(v, 256, 256 * e.red + e.green, e.blue);
    DivModUnique(256 * c.red + c.green, 256, c.red, c.green);
    DivModUnique(256 * e.red + e.green, 256, e.red, e.green);
  }
}
