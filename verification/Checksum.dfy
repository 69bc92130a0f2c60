/** The Adler-style rolling checksum of the delta codec, under 32-bit wrap-around. */
module Checksum {
  import opened Bytes

  const M16 := 0x1_0000
  const M32 := 0x1_0000_0000

  /** Wrap-around of uint32 arithmetic. */
  function U32(x: int): (r: nat)
    ensures r < M32
  {
    x % M32
  }

  /** The plain byte sum of a window. */
  function Sum(w: seq<Byte>): nat {
    if w == [] then 0 else Sum(w[..|w| - 1]) + w[|w| - 1] as nat
  }

  /** The sum of all prefix sums: the byte at position i counts |w| - i times. */
  function PrefixSums(w: seq<Byte>): nat {
    if w == [] then 0 else PrefixSums(w[..|w| - 1]) + Sum(w)
  }

  /** The checksum as exact arithmetic: both halves modulo 2^16. */
  function Weak(w: seq<Byte>): (r: nat)
    ensures r < M32
  {
    PrefixSums(w) % M16 * M16 + Sum(w) % M16
  }

  /** What one more byte does to the two accumulators. */
  lemma SumsGrow(b: seq<Byte>, i: nat)
    requires i < |b|
    ensures U32(Sum(b[..i + 1])) == U32(U32(Sum(b[..i])) + b[i] as int)
    ensures U32(PrefixSums(b[..i + 1])) == U32(U32(PrefixSums(b[..i])) + U32(Sum(b[..i + 1])))
  {
    assert b[..i + 1][..i] == b[..i];
    WrapAdd(Sum(b[..i]), b[i] as int);
    WrapAdd(PrefixSums(b[..i]), U32(Sum(b[..i + 1])));
    WrapAdd(Sum(b[..i + 1]), PrefixSums(b[..i]));
  }

  /** The loop the codec runs: two wrapping uint32 accumulators, packed at the end.
      The halves packed by the final `or` do not overlap, so it is an addition. */
  method WeakChecksum(b: seq<Byte>) returns (sum: nat)
    ensures sum == Weak(b)
  {
    var a, bb := 0, 0;
    for i := 0 to |b|
      invariant a == U32(Sum(b[..i]))
      invariant bb == U32(PrefixSums(b[..i]))
    {
      SumsGrow(b, i);
      a := U32(a + b[i] as int);
      bb := U32(bb + a);
    }
    assert b[..|b|] == b;
    sum := U32(bb * M16) + a % M16;
    Halve(Sum(b));
    PackHigh(PrefixSums(b));
  }

  /** One slide of the window, exactly as the codec computes it in uint32. */
  function Roll(sum: nat, out: Byte, inn: Byte, n: nat): nat {
    var a := RollLow(sum % M16, out, inn);
    var b := RollHigh(sum / M16, out, n, a);
    U32(b * M16) + a
  }

  function RollLow(low: nat, out: Byte, inn: Byte): nat {
    U32(U32(low - out as int) + inn as int) % M16
  }

  function RollHigh(high: nat, out: Byte, n: nat, low: nat): nat {
    U32(U32(high - U32(U32(n) * out as int)) + low) % M16
  }

  lemma WrapAdd(x: int, y: int)
    ensures U32(U32(x) + y) == U32(x + y)
  {
    Shift(x + y, U32(x) + y, x / M32, M32);
  }

  /** Adding a multiple of m does not change a remainder modulo m. */
  lemma Shift(x: int, y: int, k: int, m: int)
    requires 0 < m
    requires x == y + k * m
    ensures x % m == y % m
  {
    var d := x / m - y / m - k;
    assert x == x / m * m + x % m && y == y / m * m + y % m;
    assert d * m == y % m - x % m by {
      assert d * m == x / m * m - y / m * m - k * m;
    }
    assert d >= 1 ==> d * m >= m;
    assert d <= -1 ==> d * m <= -m;
  }

  lemma Halve(x: int)
    ensures U32(x) % M16 == x % M16
  {
    assert x == U32(x) + x / M32 * M16 * M16;
    Shift(x, U32(x), x / M32 * M16, M16);
  }

  lemma PackHigh(x: int)
    ensures U32(U32(x) * M16) == x % M16 * M16
  {
    Halve(x);
    var q := U32(x) / M16;
    assert U32(x) == q * M16 + x % M16;
    Shift(U32(x) * M16, x % M16 * M16, q, M32);
  }

  lemma {:induction false} SumCons(c: Byte, w: seq<Byte>)
    ensures Sum([c] + w) == c as int + Sum(w)
    ensures PrefixSums([c] + w) == (|w| + 1) * c as int + PrefixSums(w)
  {
    var s := [c] + w;
    if w == [] {
      assert s[..0] == [];
    } else {
      var init := w[..|w| - 1];
      assert s[..|s| - 1] == [c] + init;
      SumCons(c, init);
      assert |w| * c as int + c as int == (|w| + 1) * c as int;
    }
  }

  lemma ModAdd(a: int, b: int)
    ensures (a + b) % M16 == (a + b % M16) % M16
  {
  }

  lemma Halves(w: seq<Byte>)
    ensures Weak(w) % 0x1_0000 == Sum(w) % M16
    ensures Weak(w) / 0x1_0000 == PrefixSums(w) % M16
  {
    Unpack(PrefixSums(w) % M16, Sum(w) % M16);
  }

  lemma LowOfCons(c: Byte, w: seq<Byte>)
    ensures Weak([c] + w) % 0x1_0000 == (c as int + Weak(w) % 0x1_0000) % 0x1_0000
  {
    Halves(w);
    Halves([c] + w);
    SumCons(c, w);
    ModAdd(c as int, Sum(w));
  }

  lemma HighOfCons(c: Byte, w: seq<Byte>)
    ensures Weak([c] + w) / 0x1_0000 == ((|w| + 1) * c as int + Weak(w) / 0x1_0000) % 0x1_0000
  {
    Halves(w);
    Halves([c] + w);
    SumCons(c, w);
    ModAdd((|w| + 1) * c as int, PrefixSums(w));
  }

  /** What the checksum is: the low half adds up the bytes, the high half the bytes times their
      distance from the end, both modulo 2^16. */
  lemma WeakMeans(c: Byte, w: seq<Byte>)
    ensures Weak([]) == 0
    ensures Weak([c] + w) % 0x1_0000 == (c as int + Weak(w) % 0x1_0000) % 0x1_0000
    ensures Weak([c] + w) / 0x1_0000 == ((|w| + 1) * c as int + Weak(w) / 0x1_0000) % 0x1_0000
  {
    LowOfCons(c, w);
    HighOfCons(c, w);
  }

  lemma SumSnoc(w: seq<Byte>, c: Byte)
    ensures Sum(w + [c]) == Sum(w) + c as int
    ensures PrefixSums(w + [c]) == PrefixSums(w) + Sum(w + [c])
  {
    assert (w + [c])[..|w|] == w;
  }

  /** What the exact sums of a slid window are. */
  lemma SlideSums(w: seq<Byte>, inn: Byte)
    requires w != []
    ensures Sum(w[1..] + [inn]) == Sum(w) - w[0] as int + inn as int
    ensures PrefixSums(w[1..] + [inn]) == PrefixSums(w) - |w| * w[0] as int + Sum(w[1..] + [inn])
  {
    assert w == [w[0]] + w[1..];
    SumCons(w[0], w[1..]);
    SumSnoc(w[1..], inn);
  }

  lemma LowHalf(s: int, out: Byte, inn: Byte)
    ensures RollLow(s % M16, out, inn) == (s - out as int + inn as int) % M16
  {
    var low := s % M16;
    WrapAdd(low - out as int, inn as int);
    Halve(low - out as int + inn as int);
    Shift(s - out as int + inn as int, low - out as int + inn as int, s / M16, M16);
  }

  lemma HighHalf(p: int, out: Byte, n: nat, s: int)
    ensures RollHigh(p % M16, out, n, s % M16) == (p - n * out as int + s) % M16
  {
    var high, low := p % M16, s % M16;
    var prod := U32(U32(n) * out as int);
    ProductWraps(n, out as int);
    WrapAdd(high - prod, low);
    Halve(high - prod + low);
    var k := (prod - n * out as int) / M16;
    assert prod - n * out as int == k * M16;
    Shift(p - n * out as int + s, high - prod + low, p / M16 + s / M16 + k, M16);
  }

  lemma ProductWraps(n: nat, c: int)
    ensures (U32(U32(n) * c) - n * c) % M16 == 0
  {
    var q := n / M32;
    var p := U32(n) * c / M32;
    var k := -(p + q * c) * M16;
    assert n * c == (U32(n) + q * M32) * c == U32(n) * c + q * c * M32;
    assert U32(n) * c == U32(U32(n) * c) + p * M32;
    Shift(U32(U32(n) * c) - n * c, 0, k, M16);
  }

  lemma Unpack(high: nat, low: nat)
    requires high < M16 && low < M16
    ensures (high * M16 + low) % M16 == low
    ensures (high * M16 + low) / M16 == high
    ensures U32(high * M16) == high * M16
  {
  }

  /** The rolled checksum is the checksum of the slid window, for every window length:
      every wrap in the uint32 arithmetic is a multiple of 2^16. */
  lemma RollSlides(w: seq<Byte>, inn: Byte)
    requires w != []
    ensures Roll(Weak(w), w[0], inn, |w|) == Weak(w[1..] + [inn])
  {
    var next := w[1..] + [inn];
    SlideSums(w, inn);
    Unpack(PrefixSums(w) % M16, Sum(w) % M16);
    LowHalf(Sum(w), w[0], inn);
    HighHalf(PrefixSums(w), w[0], |w|, Sum(next));
    Unpack(PrefixSums(next) % M16, Sum(next) % M16);
  }
}
