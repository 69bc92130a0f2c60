/** What copies and signatures stand for, in terms of the bytes themselves. */
module DeltaMeaning {
  import opened Bytes
  import opened Checksum
  import opened DeltaCodec

  /** A copy yields the bytes of the basis from k * bs on: bs of them, or what is left. */
  lemma CopyMeans(basis: seq<Byte>, bs: nat, k: nat)
    requires 0 < bs && k * bs <= |basis|
    ensures InRange(basis, bs, Copy(k))
    ensures var out := Expand(basis, bs, [Copy(k)]);
            && |out| == (if k * bs + bs <= |basis| then bs else |basis| - k * bs)
            && forall j | 0 <= j < |out| :: out[j] == basis[k * bs + j]
  {
    ExpandCons(basis, bs, Copy(k), []);
    assert [Copy(k)] + [] == [Copy(k)];
  }

  function Copies(k: nat, n: nat): seq<Op>
    requires k <= n
    decreases n - k
  {
    if k == n then [] else [Copy(k)] + Copies(k + 1, n)
  }

  lemma BlockStarts(k: nat, n: nat, size: nat, bs: nat)
    requires k < n && n * bs < size + bs
    ensures k * bs < size && (k + 1) * bs == k * bs + bs
  {
    assert (n - 1) * bs == n * bs - bs;
    assert k * bs <= (n - 1) * bs;
  }

  lemma NextBlock(basis: seq<Byte>, bs: nat, k: nat)
    requires 0 < bs && k * bs < |basis|
    ensures OpBytes(basis, bs, Copy(k)) + basis[Min(k * bs + bs, |basis|)..] == basis[k * bs..]
  {
    SliceSplits(basis, k * bs, Min(k * bs + bs, |basis|));
  }

  lemma {:induction false} CopiesFrom(basis: seq<Byte>, bs: nat, k: nat)
    requires 0 < bs && k <= CeilDiv(|basis|, bs)
    ensures Expand(basis, bs, Copies(k, CeilDiv(|basis|, bs))) == basis[Min(k * bs, |basis|)..]
    decreases CeilDiv(|basis|, bs) - k
  {
    var n := CeilDiv(|basis|, bs);
    CeilDivBounds(|basis|, bs);
    if k == n {
    } else {
      BlockStarts(k, n, |basis|, bs);
      CopiesFrom(basis, bs, k + 1);
      ExpandCons(basis, bs, Copy(k), Copies(k + 1, n));
      NextBlock(basis, bs, k);
    }
  }

  /** Copying all blocks of a basis in order gives back the basis. */
  lemma AllCopiesAreTheBasis(basis: seq<Byte>, bs: nat)
    requires 0 < bs
    ensures Expand(basis, bs, Copies(0, CeilDiv(|basis|, bs))) == basis
  {
    CopiesFrom(basis, bs, 0);
  }

  // ---------------------------------------------------------------- A file against its own signature

  /** At the start of each block the window is that block, so some block matches. */
  lemma OwnBlockMatches(md5: Md5, basis: seq<Byte>, sig: Signature, k: nat)
    requires IsSignature(md5, basis, sig) && k < |sig.blocks|
    ensures k * sig.blockSize < |basis|
    ensures MatchAt(md5, sig.blocks, sig.blockSize, basis, k * sig.blockSize).Some?
  {
    var bs: nat := sig.blockSize;
    var b := sig.blocks[k];
    assert b == Checksums(md5, basis, bs, k);
    var w := Window(bs, basis, k * bs);
    assert w == Block(basis, bs, k);
    LowestFromIsLowest(md5, sig.blocks, w, 0, None);
    assert Matches(md5, sig.blocks[k], w);
  }

  predicate AllCopies(ops: seq<Op>) {
    forall j | 0 <= j < |ops| :: ops[j].Copy?
  }

  predicate HitAt(picks: Picks, bs: nat, k: nat) {
    k * bs < |picks| && picks[k * bs].Some?
  }

  /** An encoder with a match at the start of each of n blocks emits n copies. */
  lemma {:induction false} HitsAreCopies(picks: Picks, bs: nat, target: seq<Byte>, k: nat, n: nat)
    requires 0 < bs && k <= n && |picks| == |target| <= n * bs
    requires forall j | k <= j < n :: HitAt(picks, bs, j)
    ensures var ops := Emit(picks, bs, target, Min(k * bs, |target|));
            |ops| == n - k && AllCopies(ops)
    decreases n - k
  {
    if k == n {
    } else {
      assert HitAt(picks, bs, k);
      assert (k + 1) * bs == k * bs + bs;
      HitsAreCopies(picks, bs, target, k + 1, n);
      var rest := Emit(picks, bs, target, Min(k * bs + bs, |target|));
      assert Emit(picks, bs, target, k * bs) == [Copy(picks[k * bs].value)] + rest;
    }
  }

  lemma OwnHits(md5: Md5, basis: seq<Byte>, sig: Signature, picks: Picks)
    requires IsSignature(md5, basis, sig) && picks == GreedyPicks(md5, sig.blocks, sig.blockSize, basis)
    ensures forall k | 0 <= k < |sig.blocks| :: HitAt(picks, sig.blockSize, k)
    ensures |basis| <= |sig.blocks| * sig.blockSize
  {
    CeilDivBounds(|basis|, sig.blockSize);
    forall k | 0 <= k < |sig.blocks| ensures HitAt(picks, sig.blockSize, k) {
      OwnBlockMatches(md5, basis, sig, k);
    }
  }

  lemma HitsFromStart(picks: Picks, bs: nat, target: seq<Byte>, n: nat)
    requires 0 < bs && |picks| == |target| <= n * bs
    requires forall j | 0 <= j < n :: HitAt(picks, bs, j)
    ensures |Emit(picks, bs, target, 0)| == n && AllCopies(Emit(picks, bs, target, 0))
  {
    HitsAreCopies(picks, bs, target, 0, n);
    assert Min(0 * bs, |target|) == 0;
  }

  /** Encoding a file against its own signature emits one copy for each block and no literal. */
  lemma OwnSignatureNeedsNoLiteral(md5: Md5, basis: seq<Byte>, sig: Signature)
    requires IsSignature(md5, basis, sig)
    ensures var ops := GreedyOps(md5, sig.blocks, sig.blockSize, basis);
            |ops| == CeilDiv(|basis|, sig.blockSize) && AllCopies(ops)
  {
    var picks := GreedyPicks(md5, sig.blocks, sig.blockSize, basis);
    OwnHits(md5, basis, sig, picks);
    HitsFromStart(picks, sig.blockSize, basis, |sig.blocks|);
  }

  // ---------------------------------------------------------------- What the naive encoder looks for

  /** The bytes at i that a whole or a short last block would have to have. */
  function Ahead(bs: nat, target: seq<Byte>, i: nat): seq<Byte>
    requires i <= |target|
  {
    if i + bs <= |target| then target[i..i + bs] else target[i..]
  }

  /** Block k of the basis starts with s and ends with it. */
  predicate BlockIs(basis: seq<Byte>, bs: nat, k: nat, s: seq<Byte>) {
    && k * bs < |basis|
    && s == if k * bs + bs <= |basis| then basis[k * bs..k * bs + bs] else basis[k * bs..]
  }

  lemma BlockIsBlock(basis: seq<Byte>, bs: nat, k: nat, w: seq<Byte>)
    requires k * bs < |basis|
    ensures BlockIs(basis, bs, k, w) <==> Block(basis, bs, k) == w
  {
  }

  /** What is found is such a block and not before k. */
  lemma {:induction false} FoundIsBlock(basis: seq<Byte>, bs: nat, w: seq<Byte>, k: nat)
    requires 0 < bs
    ensures var r := LowestEqual(basis, bs, w, k);
            r.Some? ==> k <= r.value && BlockIs(basis, bs, r.value, w)
    decreases |basis| - k * bs
  {
    if k * bs >= |basis| {
    } else {
      BlockIsBlock(basis, bs, k, w);
      assert (k + 1) * bs == k * bs + bs;
      FoundIsBlock(basis, bs, w, k + 1);
    }
  }

  lemma EarlierBlock(basis: seq<Byte>, bs: nat, k: nat, j: nat, w: seq<Byte>)
    requires k <= j && BlockIs(basis, bs, j, w)
    ensures k * bs < |basis|
  {
    assert k * bs <= j * bs;
  }

  /** Where there is such a block from k on, one is found that is not after it. */
  lemma {:induction false} BlockIsFound(basis: seq<Byte>, bs: nat, w: seq<Byte>, k: nat, j: nat)
    requires 0 < bs && k <= j && BlockIs(basis, bs, j, w)
    ensures var r := LowestEqual(basis, bs, w, k);
            r.Some? && r.value <= j
    decreases j - k
  {
    EarlierBlock(basis, bs, k, j, w);
    BlockIsBlock(basis, bs, k, w);
    if Block(basis, bs, k) == w {
    } else {
      BlockIsFound(basis, bs, w, k + 1, j);
    }
  }

  /** At each position the naive encoder picks a block with exactly the bytes ahead, and a lowest
      one, and it picks none only if there is no such block. */
  lemma NaivePickMeans(basis: seq<Byte>, bs: nat, target: seq<Byte>, i: nat, j: nat)
    requires 0 < bs && i < |target|
    ensures var pick := NaivePicks(basis, bs, target)[i];
            && (pick == Some(j) ==> BlockIs(basis, bs, j, Ahead(bs, target, i)))
            && (BlockIs(basis, bs, j, Ahead(bs, target, i)) ==> pick.Some? && pick.value <= j)
  {
    assert Window(bs, target, i) == Ahead(bs, target, i);
    FoundIsBlock(basis, bs, Ahead(bs, target, i), 0);
    if BlockIs(basis, bs, j, Ahead(bs, target, i)) {
      BlockIsFound(basis, bs, Ahead(bs, target, i), 0, j);
    }
  }
}
