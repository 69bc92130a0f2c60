/** Bytes, failure-carrying results and little-endian integers shared by the delta codec. */
module Bytes {

  newtype Byte = x: int | 0 <= x < 256

  datatype Option<+T> = None | Some(value: T)

  datatype Result<+T> = Ok(value: T) | Err

  function Min(a: int, b: int): int {
    if a <= b then a else b
  }

  /** 256 to the power n: the number of values n bytes can hold. */
  function Capacity(n: nat): nat {
    if n == 0 then 1 else 256 * Capacity(n - 1)
  }

  /** The low n bytes of x, least significant first: what binary.Write stores for a uintN(x). */
  function Le(x: int, n: nat): (s: seq<Byte>)
    ensures |s| == n
    decreases n, x
  {
    if n == 0 then [] else [(x % 256) as Byte] + Le(x / 256, n - 1)
  }

  /** The unsigned value of little-endian bytes, as binary.Read sees them. */
  function FromLe(s: seq<Byte>): nat {
    if s == [] then 0 else s[0] as nat + 256 * FromLe(s[1..])
  }

  lemma {:induction false} LeRoundTrip(x: nat, n: nat)
    requires x < Capacity(n)
    ensures FromLe(Le(x, n)) == x
  {
    if n == 0 {
    } else {
      LeRoundTrip(x / 256, n - 1);
      assert Le(x, n)[1..] == Le(x / 256, n - 1);
    }
  }

  lemma {:induction false} FromLeRoundTrip(s: seq<Byte>)
    ensures FromLe(s) < Capacity(|s|)
    ensures Le(FromLe(s), |s|) == s
  {
    if s == [] {
    } else {
      FromLeRoundTrip(s[1..]);
      assert FromLe(s) % 256 == s[0] as int;
      assert FromLe(s) / 256 == FromLe(s[1..]);
      assert s == [s[0]] + s[1..];
    }
  }

  lemma Capacities()
    ensures Capacity(4) == 0x1_0000_0000
    ensures Capacity(8) == 0x1_0000_0000_0000_0000
  {
    assert Capacity(1) == 256;
    assert Capacity(2) == 0x1_0000;
    assert Capacity(3) == 0x100_0000;
    assert Capacity(5) == 256 * Capacity(4);
    assert Capacity(6) == 256 * Capacity(5);
    assert Capacity(7) == 256 * Capacity(6);
  }

  // ---------------------------------------------------------------- Sequence facts

  lemma AppendAssociates<T>(a: seq<T>, b: seq<T>, c: seq<T>)
    ensures a + (b + c) == (a + b) + c
  {
  }

  lemma TailOfAppend<T>(a: seq<T>, b: seq<T>)
    requires a != []
    ensures (a + b)[0] == a[0] && (a + b)[1..] == a[1..] + b
  {
  }

  lemma SliceSplits<T>(s: seq<T>, i: nat, j: nat)
    requires i <= j <= |s|
    ensures s[i..j] + s[j..] == s[i..]
  {
  }

  lemma GrowSlice<T>(a: seq<T>, s: seq<T>, i: nat, j: nat)
    requires i <= j < |s|
    ensures a + s[i..j] + [s[j]] == a + s[i..j + 1]
  {
  }
}
