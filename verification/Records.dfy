/** Lists of self-delimiting records, the part the two wire formats share. */
module Records {
  import opened Bytes

  /** How one record is written, how one is read off the front of a buffer, and which values
      the wire can hold. */
  datatype Codec<!T> = Codec(write: T -> seq<Byte>, read: seq<Byte> -> Result<(T, seq<Byte>)>, fits: T -> bool)

  /** Reading undoes writing, and accepts nothing that writing does not produce. */
  ghost predicate Exact<T(!new)>(c: Codec<T>) {
    && (forall x, rest {:trigger c.write(x) + rest} :: c.fits(x) ==> c.read(c.write(x) + rest) == Ok((x, rest)))
    && (forall s {:trigger c.read(s)} :: c.read(s).Ok? ==>
          c.fits(c.read(s).value.0) && s == c.write(c.read(s).value.0) + c.read(s).value.1)
  }

  function Concat<T>(write: T -> seq<Byte>, xs: seq<T>): seq<Byte> {
    if xs == [] then [] else write(xs[0]) + Concat(write, xs[1..])
  }

  predicate AllFit<T>(fits: T -> bool, xs: seq<T>) {
    forall j | 0 <= j < |xs| :: fits(xs[j])
  }

  lemma {:induction false} ConcatAppend<T>(write: T -> seq<Byte>, a: seq<T>, b: seq<T>)
    ensures Concat(write, a + b) == Concat(write, a) + Concat(write, b)
  {
    if a == [] {
      assert a + b == b;
    } else {
      ConcatAppend(write, a[1..], b);
      TailOfAppend(a, b);
      AppendAssociates(write(a[0]), Concat(write, a[1..]), Concat(write, b));
    }
  }

  lemma ConcatSnoc<T>(write: T -> seq<Byte>, xs: seq<T>, x: T)
    ensures Concat(write, xs + [x]) == Concat(write, xs) + write(x)
  {
    ConcatAppend(write, xs, [x]);
    assert [x][1..] == [];
    assert Concat(write, [x]) == write(x) + [];
  }

  lemma {:induction false} ConcatLength<T>(write: T -> seq<Byte>, xs: seq<T>, least: nat)
    requires forall j | 0 <= j < |xs| :: least <= |write(xs[j])|
    ensures |xs| * least <= |Concat(write, xs)|
  {
    if xs == [] {
    } else {
      ConcatLength(write, xs[1..], least);
    }
  }

  method WriteMany<T>(write: T -> seq<Byte>, header: seq<Byte>, xs: seq<T>) returns (buf: seq<Byte>)
    ensures buf == header + Concat(write, xs)
  {
    buf := header;
    for j := 0 to |xs|
      invariant buf == header + Concat(write, xs[..j])
    {
      ConcatSnoc(write, xs[..j], xs[j]);
      assert xs[..j + 1] == xs[..j] + [xs[j]];
      buf := buf + write(xs[j]);
    }
    assert xs[..|xs|] == xs;
  }

  /** xs are n records whose written form starts body. */
  ghost predicate Starts<T>(c: Codec<T>, body: seq<Byte>, n: nat, xs: seq<T>) {
    |xs| == n && AllFit(c.fits, xs) && Concat(c.write, xs) <= body
  }

  /** After i records: done is what was read, rest is what is left, and every way to read n
      records from body begins with done and goes on in rest. */
  ghost predicate Reading<T(!new)>(c: Codec<T>, body: seq<Byte>, n: nat, i: nat, done: seq<T>, rest: seq<Byte>) {
    && |done| == i <= n
    && AllFit(c.fits, done)
    && body == Concat(c.write, done) + rest
    && forall xs | Starts(c, body, n, xs) :: Continues(c, xs, i, done, rest)
  }

  ghost predicate Continues<T>(c: Codec<T>, xs: seq<T>, i: nat, done: seq<T>, rest: seq<Byte>) {
    i <= |xs| && xs[..i] == done && Concat(c.write, xs[i..]) <= rest
  }

  lemma NextRecord<T(!new)>(c: Codec<T>, xs: seq<T>, i: nat, rest: seq<Byte>)
    requires Exact(c)
    requires i < |xs| && c.fits(xs[i])
    requires Concat(c.write, xs[i..]) <= rest
    ensures c.read(rest).Ok? && c.read(rest).value.0 == xs[i]
    ensures Concat(c.write, xs[i + 1..]) <= c.read(rest).value.1
  {
    var first := c.write(xs[i]);
    assert xs[i..][1..] == xs[i + 1..];
    assert rest == first + rest[|first|..];
    assert c.read(first + rest[|first|..]) == Ok((xs[i], rest[|first|..]));
  }

  lemma ReadingFails<T(!new)>(c: Codec<T>, body: seq<Byte>, n: nat, i: nat, done: seq<T>, rest: seq<Byte>)
    requires Exact(c) && Reading(c, body, n, i, done, rest) && i < n
    requires c.read(rest).Err?
    ensures forall xs :: !Starts(c, body, n, xs)
  {
    forall xs ensures !Starts(c, body, n, xs) {
      if Starts(c, body, n, xs) {
        NextRecord(c, xs, i, rest);
      }
    }
  }

  lemma ReadingGoesOn<T(!new)>(c: Codec<T>, body: seq<Byte>, n: nat, i: nat, done: seq<T>, rest: seq<Byte>,
                               x: T, rest': seq<Byte>)
    requires Exact(c) && Reading(c, body, n, i, done, rest) && i < n
    requires c.read(rest) == Ok((x, rest'))
    ensures Reading(c, body, n, i + 1, done + [x], rest')
  {
    ConcatSnoc(c.write, done, x);
    forall xs | Starts(c, body, n, xs) ensures Continues(c, xs, i + 1, done + [x], rest') {
      NextRecord(c, xs, i, rest);
      assert xs[..i + 1] == xs[..i] + [xs[i]];
    }
  }

  /** Reads n records: fails exactly when no n records start body, and the result is unique. */
  method ReadMany<T(!new)>(c: Codec<T>, body: seq<Byte>, n: nat) returns (r: Result<seq<T>>)
    requires Exact(c)
    ensures r.Ok? ==> Starts(c, body, n, r.value)
    ensures forall xs | Starts(c, body, n, xs) :: r == Ok(xs)
  {
    var done: seq<T>, rest := [], body;
    for i := 0 to n
      invariant Reading(c, body, n, i, done, rest)
    {
      var next := c.read(rest);
      if next.Err? {
        ReadingFails(c, body, n, i, done, rest);
        return Err;
      }
      ReadingGoesOn(c, body, n, i, done, rest, next.value.0, next.value.1);
      done, rest := done + [next.value.0], next.value.1;
    }
    forall xs | Starts(c, body, n, xs) ensures xs == done {
      assert Continues(c, xs, n, done, rest);
      assert xs[..n] == xs;
    }
    return Ok(done);
  }
}
