/** Bit strings as the source handles them: Python strings over {'0','1'},
    here sequences of booleans, most significant bit first. */
module Bits {

  newtype byte = b: int | 0 <= b < 256

  /** 2^n */
  function Pow2(n: nat): (p: nat)
    ensures p >= 1
  {
    if n == 0 then 1 else 2 * Pow2(n - 1)
  }

  function BitValue(b: bool): nat {
    if b then 1 else 0
  }

  /** int(bits, 2): the unsigned big-endian value of a bit string. */
  function Value(bits: seq<bool>): (v: nat)
    ensures v < Pow2(|bits|)
  {
    if bits == [] then 0 else 2 * Value(bits[..|bits| - 1]) + BitValue(bits[|bits| - 1])
  }

  /** format(n, "0" + str(w) + "b"): the binary digits of n ("0" for zero),
      left-padded with zeros to at least w digits. Wider than w when n >= 2^w. */
  function Binary(n: nat, w: nat): (r: seq<bool>)
    ensures Value(r) == n
    ensures |r| >= w && |r| >= 1
    decreases n + w
  {
    if n < 2 && w <= 1 then [n == 1]
    else Binary(n / 2, if w == 0 then 0 else w - 1) + [n % 2 == 1]
  }

  function Zeros(n: nat): (r: seq<bool>)
    ensures |r| == n
  {
    seq(n, _ => false)
  }

  function Ones(n: nat): (r: seq<bool>)
    ensures |r| == n
  {
    seq(n, _ => true)
  }

  /** Number of '1' characters in a bit string. */
  function PopCount(bits: seq<bool>): (r: nat)
    ensures r <= |bits|
  {
    if bits == [] then 0 else BitValue(bits[0]) + PopCount(bits[1..])
  }

  /** "".join(groups) */
  function Concat(groups: seq<seq<bool>>): seq<bool> {
    if groups == [] then [] else groups[0] + Concat(groups[1..])
  }

  /** [bits[i:i+g] for i in range(0, len(bits), g)]: consecutive chunks of g
      bits, the last one shorter when len(bits) is not a multiple of g. */
  function Split(bits: seq<bool>, g: nat): (r: seq<seq<bool>>)
    requires g >= 1
    ensures |r| == 0 <==> |bits| == 0
    ensures forall k :: 0 <= k < |r| ==> 1 <= |r[k]| <= g
    decreases |bits|
  {
    if |bits| == 0 then []
    else if |bits| <= g then [bits]
    else [bits[..g]] + Split(bits[g..], g)
  }

  /** "".join([format(byte, "08b") for byte in payload]) */
  function BytesToBits(payload: seq<byte>): (r: seq<bool>)
    ensures |r| == 8 * |payload|
  {
    if payload == [] then []
    else
      BinaryWidth(payload[0] as nat, 8);
      Binary(payload[0] as nat, 8) + BytesToBits(payload[1..])
  }

  /** bytes([int(bits[i:i+8], 2) for i in range(0, len(bits), 8)]): a short
      final chunk becomes a byte of its own. */
  function ToBytes(bits: seq<bool>): (r: seq<byte>)
    ensures |r| == (|bits| + 7) / 8
    decreases |bits|
  {
    if |bits| == 0 then []
    else if |bits| <= 8 then
      ValueBelow(bits, 8);
      [Value(bits) as byte]
    else
      ValueBelow(bits[..8], 8);
      [Value(bits[..8]) as byte] + ToBytes(bits[8..])
  }

  /** bits[:-n] for n > 0, bits unchanged for n == 0 (Python clamps a slice
      bound that lies before the start to the start). */
  function DropLast(bits: seq<bool>, n: nat): (r: seq<bool>)
    ensures |r| == if n >= |bits| then 0 else |bits| - n
    ensures r == bits[..|r|]
  {
    if n == 0 then bits
    else if n >= |bits| then []
    else bits[..|bits| - n]
  }

  // ---------------------------------------------------------------- lemmas

  lemma {:induction false} Pow2Monotonic(a: nat, b: nat)
    requires a <= b
    ensures Pow2(a) <= Pow2(b)
    decreases b
  {
    if a < b {
      Pow2Monotonic(a, b - 1);
    }
  }

  lemma Pow2Eight()
    ensures Pow2(8) == 256
  {
    assert Pow2(2) == 4;
    assert Pow2(4) == 16;
    assert Pow2(6) == 64;
  }

  lemma {:induction false} Pow2Add(a: nat, b: nat)
    ensures Pow2(a + b) == Pow2(a) * Pow2(b)
    decreases b
  {
    if b > 0 {
      Pow2Add(a, b - 1);
    }
  }

  lemma Pow2TwentyFour()
    ensures Pow2(24) == 16777216
  {
    Pow2Eight();
    Pow2Add(8, 8);
    Pow2Add(16, 8);
  }

  lemma Pow2AtMost24(g: nat)
    ensures g <= 24 ==> Pow2(g) <= 16777216
  {
    if g <= 24 {
      Pow2Monotonic(g, 24);
      Pow2TwentyFour();
    }
  }

  lemma DivDiv256(x: nat)
    ensures x / 256 / 256 == x / 65536
  {
    var q, r := x / 256, x % 256;
    var q2, r2 := q / 256, q % 256;
    assert x == 65536 * q2 + (256 * r2 + r);
    DivModUnique(x, 65536, q2, 256 * r2 + r);
  }

  lemma MulSmall(m: int, k: int)
    requires m > 0 && -m < m * k < m
    ensures k == 0
  {
  }

  /** Euclidean division is unique. */
  lemma DivModUnique(x: int, m: int, q: int, r: int)
    requires m > 0 && x == m * q + r && 0 <= r < m
    ensures x / m == q && x % m == r
  {
    var q', r' := x / m, x % m;
    assert x == m * q' + r' && 0 <= r' < m;
    assert m * (q - q') == r' - r;
    MulSmall(m, q - q');
  }

  lemma ModAddMultiple(x: int, k: int, m: int)
    requires m > 0
    ensures (x + m * k) % m == x % m
  {
    var q, r := x / m, x % m;
    assert x + m * k == m * (q + k) + r;
    DivModUnique(x + m * k, m, q + k, r);
  }

  /** A multiple of g is g times its quotient. */
  lemma MultipleOf(x: nat, g: nat)
    requires g >= 1 && x % g == 0
    ensures x == g * (x / g)
  {
  }

  lemma ValueBelow(bits: seq<bool>, w: nat)
    requires |bits| <= w
    ensures Value(bits) < Pow2(w)
  {
    Pow2Monotonic(|bits|, w);
  }

  /** format(n, "0wb") has exactly w digits when 1 <= w and n < 2^w. */
  lemma {:induction false} BinaryWidth(n: nat, w: nat)
    requires 1 <= w && n < Pow2(w)
    ensures |Binary(n, w)| == w
    decreases w
  {
    if w == 8 {
      Pow2Eight();
    }
    if n < 2 && w <= 1 {
    } else {
      assert n / 2 < Pow2(w - 1);
      BinaryWidth(n / 2, w - 1);
    }
  }

  /** ... and more than w digits when n >= 2^w. */
  lemma {:induction false} BinaryOverflow(n: nat, w: nat)
    requires n >= Pow2(w)
    ensures |Binary(n, w)| > w
    decreases w
  {
    if w > 0 {
      assert n / 2 >= Pow2(w - 1);
      BinaryOverflow(n / 2, w - 1);
    }
  }

  /** ... exactly w + 1 digits when 2^w <= n < 2^(w+1). */
  lemma {:induction false} BinaryOneOver(n: nat, w: nat)
    requires Pow2(w) <= n < Pow2(w + 1)
    ensures |Binary(n, w)| == w + 1
    decreases w
  {
    if w > 0 {
      assert Pow2(w - 1) <= n / 2 < Pow2(w);
      BinaryOneOver(n / 2, w - 1);
    }
  }

  /** Formatting the value of a non-empty bit string at its own width gives
      the bit string back: format(int(s, 2), "0" + str(len(s)) + "b") == s. */
  lemma {:induction false} BinaryOfValue(bits: seq<bool>)
    requires |bits| >= 1
    ensures Binary(Value(bits), |bits|) == bits
    decreases |bits|
  {
    var init, last := bits[..|bits| - 1], bits[|bits| - 1];
    var v := Value(bits);
    assert v == 2 * Value(init) + BitValue(last);
    if |bits| == 1 {
      assert init == [];
      assert [v == 1] == bits;
    } else {
      assert v / 2 == Value(init) && (v % 2 == 1) == last;
      BinaryOfValue(init);
      assert bits == init + [last];
    }
  }

  lemma {:induction false} ValueOfZeros(n: nat)
    ensures Value(Zeros(n)) == 0
  {
    if n > 0 {
      assert Zeros(n)[..n - 1] == Zeros(n - 1);
      ValueOfZeros(n - 1);
    }
  }

  lemma {:induction false} PopCountAppend(a: seq<bool>, b: seq<bool>)
    ensures PopCount(a + b) == PopCount(a) + PopCount(b)
    decreases |a|
  {
    if a == [] {
      assert a + b == b;
    } else {
      assert (a + b)[0] == a[0];
      assert (a + b)[1..] == a[1..] + b;
      PopCountAppend(a[1..], b);
    }
  }

  lemma {:induction false} PopCountZeros(n: nat)
    ensures PopCount(Zeros(n)) == 0
  {
    if n > 0 {
      assert Zeros(n)[1..] == Zeros(n - 1);
      PopCountZeros(n - 1);
    }
  }

  lemma {:induction false} PopCountOnes(n: nat)
    ensures PopCount(Ones(n)) == n
  {
    if n > 0 {
      assert Ones(n)[1..] == Ones(n - 1);
      PopCountOnes(n - 1);
    }
  }

  lemma {:induction false} ConcatAppend(a: seq<seq<bool>>, b: seq<seq<bool>>)
    ensures Concat(a + b) == Concat(a) + Concat(b)
    decreases |a|
  {
    if a == [] {
      assert a + b == b;
    } else {
      assert (a + b)[0] == a[0];
      assert (a + b)[1..] == a[1..] + b;
      ConcatAppend(a[1..], b);
    }
  }

  /** Splitting then joining gives the bit string back. */
  lemma {:induction false} ConcatSplit(bits: seq<bool>, g: nat)
    requires g >= 1
    ensures Concat(Split(bits, g)) == bits
    decreases |bits|
  {
    if |bits| > g {
      ConcatSplit(bits[g..], g);
      assert bits == bits[..g] + bits[g..];
    }
  }

  /** When len(bits) is a multiple of g, every chunk has exactly g bits. */
  lemma {:induction false} SplitWidth(bits: seq<bool>, g: nat, n: nat)
    requires g >= 1 && |bits| == g * n
    ensures |Split(bits, g)| == n
    ensures forall k :: 0 <= k < |Split(bits, g)| ==> |Split(bits, g)[k]| == g
    decreases n
  {
    if n > 1 {
      assert |bits[g..]| == g * (n - 1);
      SplitWidth(bits[g..], g, n - 1);
    }
  }

  /** A prefix whose length is a multiple of g is split on its own. */
  lemma {:induction false} SplitAppend(a: seq<bool>, b: seq<bool>, g: nat, n: nat)
    requires g >= 1 && |a| == g * n
    ensures Split(a + b, g) == Split(a, g) + Split(b, g)
    decreases n
  {
    if n == 0 {
      assert a + b == b;
    } else {
      assert (a + b)[..g] == a[..g];
      assert (a + b)[g..] == a[g..] + b;
      assert |a[g..]| == g * (n - 1);
      SplitAppend(a[g..], b, g, n - 1);
      if n == 1 {
        assert a[g..] == [];
        assert a[..g] == a;
        if |b| == 0 {
          assert a + b == a;
        }
      }
    }
  }

  lemma {:induction false} BytesToBitsAppend(a: seq<byte>, b: seq<byte>)
    ensures BytesToBits(a + b) == BytesToBits(a) + BytesToBits(b)
    decreases |a|
  {
    if a == [] {
      assert a + b == b;
    } else {
      assert (a + b)[0] == a[0];
      assert (a + b)[1..] == a[1..] + b;
      BytesToBitsAppend(a[1..], b);
    }
  }

  /** Regrouping the bits of a byte string into bytes gives the byte string
      back. */
  lemma {:induction false} ToBytesBytesToBits(payload: seq<byte>)
    ensures ToBytes(BytesToBits(payload)) == payload
    decreases |payload|
  {
    if payload != [] {
      var head := Binary(payload[0] as nat, 8);
      var tail := BytesToBits(payload[1..]);
      BinaryWidth(payload[0] as nat, 8);
      var bits := head + tail;
      assert bits[..8] == head;
      assert bits[8..] == tail;
      ToBytesBytesToBits(payload[1..]);
      if |bits| <= 8 {
        assert tail == [] && payload[1..] == [];
        assert bits == head;
      }
      assert payload == [payload[0]] + payload[1..];
    }
  }
}
