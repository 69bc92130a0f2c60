/** The rsync-style delta codec: block signatures, the rolling greedy encoder and the decoder.
    MD5 is a parameter, so nothing here depends on how it is computed. */
module DeltaCodec {
  import opened Bytes
  import opened Checksum

  const DEFAULT_BLOCK_SIZE := 4096
  const MAX_OUTPUT_SIZE := 0x400_0000
  const MAX_INT64 := 0x7FFF_FFFF_FFFF_FFFF

  type Strong = s: seq<Byte> | |s| == 16 witness seq(16, _ => 0)

  type Md5 = seq<Byte> -> Strong

  datatype BlockChecksum = BlockChecksum(index: int, weak: nat, strong: Strong)

  datatype Signature = Signature(blockSize: int, blocks: seq<BlockChecksum>)

  /** `Other` stands for an op whose kind byte is neither of the two known ones. */
  datatype Op = Literal(data: seq<Byte>) | Copy(blockIndex: int) | Other(kind: Byte)

  datatype Delta = Delta(blockSize: int, ops: seq<Op>, outputSize: int)

  // ---------------------------------------------------------------- Blocks of a basis

  /** How many blocks of bs bytes cover n bytes. */
  function CeilDiv(n: int, bs: nat): nat
    requires 0 < bs
    decreases if n <= 0 then 0 else n
  {
    if n <= 0 then 0 else 1 + CeilDiv(n - bs, bs)
  }

  lemma {:induction false} CeilDivBounds(n: nat, bs: nat)
    requires 0 < bs
    ensures n <= CeilDiv(n, bs) * bs < n + bs
    decreases n
  {
    if n == 0 {
    } else if n > bs {
      CeilDivBounds(n - bs, bs);
      assert CeilDiv(n, bs) * bs == CeilDiv(n - bs, bs) * bs + bs;
    } else {
      assert CeilDiv(n - bs, bs) == 0;
    }
  }

  /** Block k of data: bs bytes, or what is left for the last one. */
  function Block(data: seq<Byte>, bs: nat, k: nat): seq<Byte>
    requires k * bs <= |data|
  {
    data[k * bs..Min(k * bs + bs, |data|)]
  }

  function Checksums(md5: Md5, data: seq<Byte>, bs: nat, k: nat): BlockChecksum
    requires k * bs <= |data|
  {
    BlockChecksum(k, Weak(Block(data, bs, k)), md5(Block(data, bs, k)))
  }

  /** sig lists, in order, the checksums of every non-empty block of basis. */
  ghost predicate IsSignature(md5: Md5, basis: seq<Byte>, sig: Signature) {
    && 0 < sig.blockSize
    && |sig.blocks| == CeilDiv(|basis|, sig.blockSize)
    && AreBlocks(md5, basis, sig.blockSize, sig.blocks)
  }

  ghost predicate AreBlocks(md5: Md5, basis: seq<Byte>, bs: nat, blocks: seq<BlockChecksum>) {
    forall k {:trigger blocks[k]} | 0 <= k < |blocks| ::
      k * bs < |basis| && blocks[k] == Checksums(md5, basis, bs, k)
  }

  lemma CountIsCeilDiv(c: nat, n: nat, bs: nat)
    requires 0 < bs
    requires n <= c * bs < n + bs
    ensures c == CeilDiv(n, bs)
  {
    CeilDivBounds(n, bs);
    var d := c - CeilDiv(n, bs);
    assert d * bs == c * bs - CeilDiv(n, bs) * bs;
    assert d >= 1 ==> d * bs >= bs;
    assert d <= -1 ==> d * bs + bs <= 0;
  }

  /** Record k has the checksums of the bytes from k times the block size on, a whole block or what
      is left of the data. */
  ghost predicate ListsBlock(md5: Md5, data: seq<Byte>, sig: Signature, k: nat)
    requires k < |sig.blocks| && 0 < sig.blockSize
  {
    var start := k * sig.blockSize;
    && start < |data|
    && var bytes := if start + sig.blockSize <= |data| then data[start..start + sig.blockSize] else data[start..];
       sig.blocks[k] == BlockChecksum(k, Weak(bytes), md5(bytes))
  }

  lemma SignatureListsBlocks(md5: Md5, data: seq<Byte>, sig: Signature)
    requires IsSignature(md5, data, sig)
    ensures forall k | 0 <= k < |sig.blocks| :: ListsBlock(md5, data, sig, k)
  {
    var bs: nat := sig.blockSize;
    forall k | 0 <= k < |sig.blocks| ensures ListsBlock(md5, data, sig, k) {
      var b := sig.blocks[k];
      assert Block(data, bs, k) == if k * bs + bs <= |data| then data[k * bs..k * bs + bs] else data[k * bs..];
    }
  }

  /** The loop of Sign: whole blocks until a short read. */
  method SignBlocks(md5: Md5, data: seq<Byte>, bs: nat) returns (sig: Signature)
    requires 0 < bs
    ensures sig.blockSize == bs && IsSignature(md5, data, sig)
  {
    var blocks: seq<BlockChecksum> := [];
    var pos := 0;
    while true
      invariant pos == |blocks| * bs <= |data|
      invariant AreBlocks(md5, data, bs, blocks)
      decreases |data| - pos
    {
      var n := Min(bs, |data| - pos);
      if n > 0 {
        var block := data[pos..pos + n];
        var weak := WeakChecksum(block);
        assert block == Block(data, bs, |blocks|);
        assert (|blocks| + 1) * bs == pos + bs;
        blocks := blocks + [BlockChecksum(|blocks|, weak, md5(block))];
      }
      if n < bs {
        CountIsCeilDiv(|blocks|, |data|, bs);
        break;
      }
      pos := pos + n;
    }
    sig := Signature(bs, blocks);
  }

  /** Sign over an in-memory reader. */
  method Sign(md5: Md5, data: seq<Byte>, blockSize: int) returns (sig: Signature)
    ensures sig.blockSize == if blockSize <= 0 then 4096 else blockSize
    ensures IsSignature(md5, data, sig)
    ensures |data| <= |sig.blocks| * sig.blockSize < |data| + sig.blockSize
    ensures forall k | 0 <= k < |sig.blocks| :: ListsBlock(md5, data, sig, k)
  {
    sig := SignBlocks(md5, data, if blockSize <= 0 then DEFAULT_BLOCK_SIZE else blockSize);
    CeilDivBounds(|data|, sig.blockSize);
    SignatureListsBlocks(md5, data, sig);
  }

  // ---------------------------------------------------------------- The greedy specification

  predicate Matches(md5: Md5, b: BlockChecksum, w: seq<Byte>) {
    b.weak == Weak(w) && b.strong == md5(w)
  }

  /** The lowest-numbered block at or after k whose two checksums are those of w. */
  function LowestFrom(md5: Md5, blocks: seq<BlockChecksum>, w: seq<Byte>, k: nat): (r: Option<nat>)
    requires k <= |blocks|
    ensures r.Some? ==> r.value < |blocks|
    decreases |blocks| - k
  {
    if k == |blocks| then None
    else if Matches(md5, blocks[k], w) then Some(k)
    else LowestFrom(md5, blocks, w, k + 1)
  }

  function LowestMatch(md5: Md5, blocks: seq<BlockChecksum>, w: seq<Byte>): (r: Option<nat>)
    ensures r.Some? ==> r.value < |blocks|
  {
    LowestFrom(md5, blocks, w, 0)
  }

  /** r is the lowest of the blocks from k on that match w, or None when there is none. */
  ghost predicate IsLowest(md5: Md5, blocks: seq<BlockChecksum>, w: seq<Byte>, k: nat, r: Option<nat>) {
    && (r.Some? ==> k <= r.value < |blocks| && Matches(md5, blocks[r.value], w))
    && (forall j | k <= j < (if r.Some? then r.value else |blocks|) :: !Matches(md5, blocks[j], w))
  }

  lemma {:induction false} LowestFromIsLowest(md5: Md5, blocks: seq<BlockChecksum>, w: seq<Byte>, k: nat, r: Option<nat>)
    requires k <= |blocks|
    ensures IsLowest(md5, blocks, w, k, r) <==> r == LowestFrom(md5, blocks, w, k)
    decreases |blocks| - k
  {
    if k == |blocks| || Matches(md5, blocks[k], w) {
    } else {
      LowestFromIsLowest(md5, blocks, w, k + 1, r);
    }
  }

  /** The bytes the encoder looks at in position i: a whole block, or the short tail. */
  function Window(bs: nat, target: seq<Byte>, i: nat): seq<Byte>
    requires i <= |target|
  {
    target[i..Min(i + bs, |target|)]
  }

  function MatchAt(md5: Md5, blocks: seq<BlockChecksum>, bs: nat, target: seq<Byte>, i: nat): Option<nat>
    requires i <= |target|
  {
    LowestMatch(md5, blocks, Window(bs, target, i))
  }

  /** Puts literal bytes in front of an op list, growing a leading literal. */
  function Prepend(lit: seq<Byte>, ops: seq<Op>): seq<Op> {
    if lit == [] then ops
    else if ops != [] && ops[0].Literal? then [Literal(lit + ops[0].data)] + ops[1..]
    else [Literal(lit)] + ops
  }

  /** The block to copy at each position, if any. */
  type Picks = seq<Option<nat>>

  /** The ops of an encoder that, from position i on, copies the picked block where there is a
      pick and emits one literal byte where there is none. */
  function Emit(picks: Picks, bs: nat, target: seq<Byte>, i: nat): seq<Op>
    requires 0 < bs
    requires i <= |target| == |picks|
    decreases |target| - i
  {
    if i == |target| then []
    else if picks[i].Some? then [Copy(picks[i].value)] + Emit(picks, bs, target, Min(i + bs, |target|))
    else if i + bs > |target| then [Literal(target[i..])]
    else Prepend([target[i]], Emit(picks, bs, target, i + 1))
  }

  /** The lowest block that matches by checksums, at each position. Every checksum is computed afresh. */
  function GreedyPicks(md5: Md5, blocks: seq<BlockChecksum>, bs: nat, target: seq<Byte>): (picks: Picks)
    ensures |picks| == |target|
    ensures forall i | 0 <= i < |picks| :: picks[i] == MatchAt(md5, blocks, bs, target, i)
  {
    seq(|target|, i requires 0 <= i < |target| => MatchAt(md5, blocks, bs, target, i))
  }

  /** The simple encoder that the rolling one refines. */
  function GreedyOps(md5: Md5, blocks: seq<BlockChecksum>, bs: nat, target: seq<Byte>): seq<Op>
    requires 0 < bs
  {
    Emit(GreedyPicks(md5, blocks, bs, target), bs, target, 0)
  }

  lemma PrependTwice(a: seq<Byte>, b: seq<Byte>, ops: seq<Op>)
    ensures Prepend(a, Prepend(b, ops)) == Prepend(a + b, ops)
  {
    if a == [] {
      assert a + b == b;
    } else if b == [] {
      assert a + b == a;
    } else if ops != [] && ops[0].Literal? {
      assert a + (b + ops[0].data) == a + b + ops[0].data;
    }
  }

  /** A stretch of positions without a pick contributes exactly its bytes as literal. */
  lemma {:induction false} SkipUnmatched(picks: Picks, bs: nat, target: seq<Byte>, i: nat, j: nat)
    requires 0 < bs && |picks| == |target|
    requires i <= j <= |target| && (i < j ==> j - 1 + bs <= |target|)
    requires forall p | i <= p < j :: picks[p].None?
    ensures Emit(picks, bs, target, i) == Prepend(target[i..j], Emit(picks, bs, target, j))
    decreases j - i
  {
    if i == j {
    } else {
      SkipUnmatched(picks, bs, target, i + 1, j);
      PrependTwice([target[i]], target[i + 1..j], Emit(picks, bs, target, j));
      assert [target[i]] + target[i + 1..j] == target[i..j];
    }
  }

  // ---------------------------------------------------------------- The encoder

  /** The blocks among the first n whose weak sum is w, in increasing order. */
  function Candidates(blocks: seq<BlockChecksum>, w: nat, n: nat): (all: seq<nat>)
    requires n <= |blocks|
    ensures forall c | 0 <= c < |all| :: all[c] < n && blocks[all[c]].weak == w
    ensures forall c, d | 0 <= c < d < |all| :: all[c] < all[d]
  {
    if n == 0 then []
    else if blocks[n - 1].weak == w then Candidates(blocks, w, n - 1) + [n - 1]
    else Candidates(blocks, w, n - 1)
  }

  lemma {:induction false} CandidatesComplete(blocks: seq<BlockChecksum>, w: nat, n: nat, k: nat) returns (c: nat)
    requires k < n <= |blocks| && blocks[k].weak == w
    ensures c < |Candidates(blocks, w, n)| && Candidates(blocks, w, n)[c] == k
  {
    if k == n - 1 {
      c := |Candidates(blocks, w, n - 1)|;
    } else {
      c := CandidatesComplete(blocks, w, n - 1, k);
    }
  }

  function Lookup(weakMap: map<nat, seq<nat>>, w: nat): seq<nat> {
    if w in weakMap then weakMap[w] else []
  }

  /** weakMap sends each weak sum to the candidates among the first n blocks. */
  ghost predicate Indexes(weakMap: map<nat, seq<nat>>, blocks: seq<BlockChecksum>, n: nat)
    requires n <= |blocks|
  {
    forall w {:trigger Lookup(weakMap, w)} :: Lookup(weakMap, w) == Candidates(blocks, w, n)
  }

  lemma IndexesGrow(weakMap: map<nat, seq<nat>>, blocks: seq<BlockChecksum>, i: nat)
    requires i < |blocks| && Indexes(weakMap, blocks, i)
    ensures var w := blocks[i].weak;
            Indexes(weakMap[w := Lookup(weakMap, w) + [i]], blocks, i + 1)
  {
    var w := blocks[i].weak;
    var grown := weakMap[w := Lookup(weakMap, w) + [i]];
    forall v ensures Lookup(grown, v) == Candidates(blocks, v, i + 1) {
      assert Lookup(weakMap, v) == Candidates(blocks, v, i);
    }
  }

  method IndexBlocks(blocks: seq<BlockChecksum>) returns (weakMap: map<nat, seq<nat>>)
    ensures Indexes(weakMap, blocks, |blocks|)
  {
    weakMap := map[];
    for i := 0 to |blocks|
      invariant Indexes(weakMap, blocks, i)
    {
      IndexesGrow(weakMap, blocks, i);
      var w := blocks[i].weak;
      weakMap := weakMap[w := Lookup(weakMap, w) + [i]];
    }
  }

  /** The first candidate with the right strong hash is the lowest match. */
  lemma FirstCandidateIsLowest(md5: Md5, blocks: seq<BlockChecksum>, w: seq<Byte>, c: nat)
    requires c <= |Candidates(blocks, Weak(w), |blocks|)|
    requires forall e | 0 <= e < c :: blocks[Candidates(blocks, Weak(w), |blocks|)[e]].strong != md5(w)
    ensures var all := Candidates(blocks, Weak(w), |blocks|);
            && (c == |all| ==> LowestMatch(md5, blocks, w) == None)
            && (c < |all| && blocks[all[c]].strong == md5(w) ==> LowestMatch(md5, blocks, w) == Some(all[c]))
  {
    var all := Candidates(blocks, Weak(w), |blocks|);
    var r := if c == |all| then None else Some(all[c]);
    if c == |all| || blocks[all[c]].strong == md5(w) {
      forall j | 0 <= j < (if r.Some? then r.value else |blocks|) ensures !Matches(md5, blocks[j], w) {
        if Matches(md5, blocks[j], w) {
          var e := CandidatesComplete(blocks, Weak(w), |blocks|, j);
        }
      }
      LowestFromIsLowest(md5, blocks, w, 0, r);
    }
  }

  /** The candidate loop: the first block with the right weak sum whose strong hash agrees. */
  method FindBlock(md5: Md5, blocks: seq<BlockChecksum>, weakMap: map<nat, seq<nat>>, w: seq<Byte>, weak: nat)
    returns (r: Option<nat>)
    requires Indexes(weakMap, blocks, |blocks|)
    requires weak == Weak(w)
    ensures r == LowestMatch(md5, blocks, w)
  {
    var candidates := Lookup(weakMap, weak);
    var strong := md5(w);
    for c := 0 to |candidates|
      invariant forall e | 0 <= e < c :: blocks[candidates[e]].strong != strong
    {
      if blocks[candidates[c]].strong == strong {
        FirstCandidateIsLowest(md5, blocks, w, c);
        return Some(candidates[c]);
      }
    }
    FirstCandidateIsLowest(md5, blocks, w, |candidates|);
    return None;
  }

  lemma WindowSlides(bs: nat, target: seq<Byte>, i: nat)
    requires 0 < bs && i + bs < |target|
    ensures Roll(Weak(Window(bs, target, i)), target[i], target[i + bs], bs) == Weak(Window(bs, target, i + 1))
  {
    RollSlides(Window(bs, target, i), target[i + bs]);
    assert Window(bs, target, i)[1..] + [target[i + bs]] == Window(bs, target, i + 1);
  }

  /** The fast path: slides the window by rolling the checksum until a block matches
      or the window reaches the end of the target. */
  method RollingSearch(md5: Md5, blocks: seq<BlockChecksum>, weakMap: map<nat, seq<nat>>, bs: nat,
                       target: seq<Byte>, start: nat, lit0: seq<Byte>, ghost picks: Picks)
    returns (i: nat, lit: seq<Byte>, hit: Option<nat>)
    requires 0 < bs && start + bs <= |target|
    requires Indexes(weakMap, blocks, |blocks|)
    requires picks == GreedyPicks(md5, blocks, bs, target)
    ensures start <= i && i + bs <= |target|
    ensures lit == lit0 + target[start..i]
    ensures forall p | start <= p < i :: picks[p].None?
    ensures hit == picks[i]
    ensures hit.None? ==> i + bs == |target|
  {
    i, lit := start, lit0;
    var sum := WeakChecksum(target[i..i + bs]);
    while true
      invariant start <= i && i + bs <= |target|
      invariant lit == lit0 + target[start..i]
      invariant sum == Weak(Window(bs, target, i))
      invariant forall p | start <= p < i :: picks[p].None?
      decreases |target| - i
    {
      hit := FindBlock(md5, blocks, weakMap, Window(bs, target, i), sum);
      if hit.Some? || i + bs >= |target| {
        return;
      }
      WindowSlides(bs, target, i);
      GrowSlice(lit0, target, start, i);
      lit, sum := lit + [target[i]], Roll(sum, target[i], target[i + bs], bs);
      i := i + 1;
    }
  }

  function Flush(ops: seq<Op>, lit: seq<Byte>): seq<Op> {
    if lit == [] then ops else ops + [Literal(lit)]
  }

  /** What the encoder will have emitted at the end, given what it holds at position i. */
  ghost function Outlook(picks: Picks, bs: nat, target: seq<Byte>, ops: seq<Op>, lit: seq<Byte>, i: nat): seq<Op>
    requires 0 < bs && i <= |target| == |picks|
  {
    ops + Prepend(lit, Emit(picks, bs, target, i))
  }

  lemma CopyKeepsOutlook(picks: Picks, bs: nat, target: seq<Byte>, ops: seq<Op>, lit: seq<Byte>, i: nat, k: nat)
    requires 0 < bs && i < |target| == |picks|
    requires picks[i] == Some(k)
    ensures Outlook(picks, bs, target, Flush(ops, lit) + [Copy(k)], [], Min(i + bs, |target|))
         == Outlook(picks, bs, target, ops, lit, i)
  {
    var rest := Emit(picks, bs, target, Min(i + bs, |target|));
    AppendAssociates(Flush(ops, lit), [Copy(k)], rest);
    if lit != [] {
      AppendAssociates(ops, [Literal(lit)], [Copy(k)] + rest);
    }
  }

  lemma TailKeepsOutlook(picks: Picks, bs: nat, target: seq<Byte>, ops: seq<Op>, lit: seq<Byte>, i: nat)
    requires 0 < bs && i < |target| < i + bs && |picks| == |target|
    requires picks[i].None?
    ensures Outlook(picks, bs, target, ops, lit + target[i..], |target|) == Outlook(picks, bs, target, ops, lit, i)
  {
    PrependTwice(lit, target[i..], []);
  }

  lemma SkipKeepsOutlook(picks: Picks, bs: nat, target: seq<Byte>, ops: seq<Op>, lit: seq<Byte>, i: nat, j: nat)
    requires 0 < bs && |picks| == |target|
    requires i <= j <= |target| && (i < j ==> j - 1 + bs <= |target|)
    requires forall p | i <= p < j :: picks[p].None?
    ensures Outlook(picks, bs, target, ops, lit + target[i..j], j) == Outlook(picks, bs, target, ops, lit, i)
  {
    SkipUnmatched(picks, bs, target, i, j);
    PrependTwice(lit, target[i..j], Emit(picks, bs, target, j));
  }

  /** Emits the unmatched byte at i0 as literal, then searches on with the rolling checksum. */
  method LiteralRun(md5: Md5, blocks: seq<BlockChecksum>, weakMap: map<nat, seq<nat>>, bs: nat, target: seq<Byte>,
                    lit0: seq<Byte>, i0: nat, ghost picks: Picks)
    returns (lit: seq<Byte>, i: nat, hit: Option<nat>)
    requires 0 < bs && i0 + bs <= |target|
    requires Indexes(weakMap, blocks, |blocks|)
    requires picks == GreedyPicks(md5, blocks, bs, target) && picks[i0].None?
    ensures i0 < i <= |target| && i - 1 + bs <= |target|
    ensures lit == lit0 + target[i0..i]
    ensures forall p | i0 <= p < i :: picks[p].None?
    ensures hit.Some? ==> i + bs <= |target| && picks[i] == hit
  {
    i, lit, hit := i0 + 1, lit0 + [target[i0]], None;
    if i + bs <= |target| {
      i, lit, hit := RollingSearch(md5, blocks, weakMap, bs, target, i, lit, picks);
    }
    assert target[i0..i] == [target[i0]] + target[i0 + 1..i];
  }

  /** Flushes the literal, emits the copy and moves past the matched window. */
  method CopyStep(bs: nat, target: seq<Byte>, ops0: seq<Op>, lit0: seq<Byte>, i0: nat, k: nat, ghost picks: Picks)
    returns (ops: seq<Op>, lit: seq<Byte>, i: nat)
    requires 0 < bs && i0 < |target| == |picks|
    requires picks[i0] == Some(k)
    ensures i0 < i <= |target|
    ensures Outlook(picks, bs, target, ops, lit, i) == Outlook(picks, bs, target, ops0, lit0, i0)
  {
    CopyKeepsOutlook(picks, bs, target, ops0, lit0, i0, k);
    ops, lit, i := Flush(ops0, lit0) + [Copy(k)], [], Min(i0 + bs, |target|);
  }

  /** One round of the outer loop: a match, the short tail, or one literal byte followed
      by the rolling search. */
  method EncodeStep(md5: Md5, blocks: seq<BlockChecksum>, weakMap: map<nat, seq<nat>>, bs: nat, target: seq<Byte>,
                    ops0: seq<Op>, lit0: seq<Byte>, i0: nat, ghost picks: Picks)
    returns (ops: seq<Op>, lit: seq<Byte>, i: nat)
    requires 0 < bs && i0 < |target|
    requires Indexes(weakMap, blocks, |blocks|)
    requires picks == GreedyPicks(md5, blocks, bs, target)
    ensures i0 < i <= |target|
    ensures Outlook(picks, bs, target, ops, lit, i) == Outlook(picks, bs, target, ops0, lit0, i0)
  {
    ops, lit, i := ops0, lit0, i0;
    var window := target[i..Min(i + bs, |target|)];
    var weak := WeakChecksum(window);
    var hit := FindBlock(md5, blocks, weakMap, window, weak);
    assert hit == picks[i];
    if hit.Some? {
      ops, lit, i := CopyStep(bs, target, ops, lit, i, hit.value, picks);
    } else if i + bs > |target| {
      TailKeepsOutlook(picks, bs, target, ops, lit, i);
      lit, i := lit + target[i..], |target|;
    } else {
      lit, i, hit := LiteralRun(md5, blocks, weakMap, bs, target, lit, i, picks);
      SkipKeepsOutlook(picks, bs, target, ops0, lit0, i0, i);
      if hit.Some? {
        ops, lit, i := CopyStep(bs, target, ops, lit, i, hit.value, picks);
      }
    }
  }

  /** The encoder produces the greedy op list, for every target and every signature. */
  method Encode(md5: Md5, target: seq<Byte>, sig: Option<Signature>) returns (d: Delta)
    ensures sig.None? || sig.value.blockSize <= 0 ==> d == Delta(4096, [Literal(target)], |target|)
    ensures sig.Some? && sig.value.blockSize > 0 ==>
              d == Delta(sig.value.blockSize, GreedyOps(md5, sig.value.blocks, sig.value.blockSize, target), |target|)
  {
    if sig.None? || sig.value.blockSize <= 0 {
      return Delta(DEFAULT_BLOCK_SIZE, [Literal(target)], |target|);
    }
    var bs: nat, blocks := sig.value.blockSize, sig.value.blocks;
    ghost var picks := GreedyPicks(md5, blocks, bs, target);
    var weakMap := IndexBlocks(blocks);
    var ops: seq<Op>, lit: seq<Byte>, i := [], [], 0;
    while i < |target|
      invariant i <= |target|
      invariant Outlook(picks, bs, target, ops, lit, i) == Emit(picks, bs, target, 0)
    {
      ops, lit, i := EncodeStep(md5, blocks, weakMap, bs, target, ops, lit, i, picks);
    }
    d := Delta(bs, Flush(ops, lit), |target|);
  }

  // ---------------------------------------------------------------- What the greedy op list means

  /** No window of target has the strong hash of a basis block with other content. */
  ghost predicate CollisionFree(md5: Md5, basis: seq<Byte>, bs: nat, target: seq<Byte>) {
    forall i, k {:trigger Window(bs, target, i), Block(basis, bs, k)} |
      0 <= i <= |target| && 0 <= k && k * bs < |basis| ::
      md5(Window(bs, target, i)) == md5(Block(basis, bs, k)) ==> Window(bs, target, i) == Block(basis, bs, k)
  }

  /** The lowest-numbered block of basis, from k on, with exactly the content w. */
  function LowestEqual(basis: seq<Byte>, bs: nat, w: seq<Byte>, k: nat): Option<nat>
    requires 0 < bs
    decreases |basis| - k * bs
  {
    if k * bs >= |basis| then None
    else if Block(basis, bs, k) == w then Some(k)
    else
      assert (k + 1) * bs == k * bs + bs;
      LowestEqual(basis, bs, w, k + 1)
  }

  /** The lowest block with the same content, at each position: no checksums at all. */
  function NaivePicks(basis: seq<Byte>, bs: nat, target: seq<Byte>): (picks: Picks)
    requires 0 < bs
    ensures |picks| == |target|
    ensures forall i | 0 <= i < |picks| :: picks[i] == LowestEqual(basis, bs, Window(bs, target, i), 0)
  {
    seq(|target|, i requires 0 <= i < |target| => LowestEqual(basis, bs, Window(bs, target, i), 0))
  }

  /** The naive encoder, which only compares contents. */
  function NaiveOps(basis: seq<Byte>, bs: nat, target: seq<Byte>): seq<Op>
    requires 0 < bs
  {
    Emit(NaivePicks(basis, bs, target), bs, target, 0)
  }

  lemma MatchIsContent(md5: Md5, basis: seq<Byte>, sig: Signature, target: seq<Byte>, i: nat, k: nat)
    requires IsSignature(md5, basis, sig)
    requires CollisionFree(md5, basis, sig.blockSize, target)
    requires i <= |target| && k < |sig.blocks|
    ensures k * sig.blockSize < |basis|
    ensures Matches(md5, sig.blocks[k], Window(sig.blockSize, target, i))
       <==> Block(basis, sig.blockSize, k) == Window(sig.blockSize, target, i)
  {
    var b := sig.blocks[k];
    assert b == Checksums(md5, basis, sig.blockSize, k);
  }

  lemma {:induction false} MatchesByContent(md5: Md5, basis: seq<Byte>, sig: Signature, target: seq<Byte>, i: nat, k: nat)
    requires IsSignature(md5, basis, sig)
    requires CollisionFree(md5, basis, sig.blockSize, target)
    requires i <= |target| && k <= |sig.blocks|
    ensures LowestFrom(md5, sig.blocks, Window(sig.blockSize, target, i), k)
         == LowestEqual(basis, sig.blockSize, Window(sig.blockSize, target, i), k)
    decreases |sig.blocks| - k
  {
    if k < |sig.blocks| {
      MatchIsContent(md5, basis, sig, target, i, k);
      MatchesByContent(md5, basis, sig, target, i, k + 1);
    } else {
      CeilDivBounds(|basis|, sig.blockSize);
    }
  }

  /** The rolling encoder refines the naive one: its ops are those of a matcher that at each
      position picks the lowest-numbered basis block with the same content. */
  lemma GreedyIsNaive(md5: Md5, basis: seq<Byte>, sig: Signature, target: seq<Byte>)
    requires IsSignature(md5, basis, sig)
    requires CollisionFree(md5, basis, sig.blockSize, target)
    ensures GreedyOps(md5, sig.blocks, sig.blockSize, target) == NaiveOps(basis, sig.blockSize, target)
  {
    var greedy := GreedyPicks(md5, sig.blocks, sig.blockSize, target);
    var naive := NaivePicks(basis, sig.blockSize, target);
    forall i | 0 <= i < |target| ensures greedy[i] == naive[i] {
      MatchesByContent(md5, basis, sig, target, i, 0);
    }
    assert greedy == naive;
  }

  // ---------------------------------------------------------------- The decoder

  /** The op can be carried out against basis. */
  predicate InRange(basis: seq<Byte>, bs: nat, op: Op) {
    op.Literal? || (op.Copy? && 0 <= op.blockIndex && op.blockIndex * bs <= |basis|)
  }

  predicate AllInRange(basis: seq<Byte>, bs: nat, ops: seq<Op>) {
    forall j | 0 <= j < |ops| :: InRange(basis, bs, ops[j])
  }

  /** The bytes one op stands for; none for an op that cannot be carried out. */
  function OpBytes(basis: seq<Byte>, bs: nat, op: Op): seq<Byte> {
    if op.Literal? then op.data
    else if InRange(basis, bs, op) then Block(basis, bs, op.blockIndex)
    else []
  }

  /** The bytes an op list stands for. */
  function Expand(basis: seq<Byte>, bs: nat, ops: seq<Op>): seq<Byte> {
    if ops == [] then [] else OpBytes(basis, bs, ops[0]) + Expand(basis, bs, ops[1..])
  }

  lemma ExpandCons(basis: seq<Byte>, bs: nat, op: Op, ops: seq<Op>)
    ensures Expand(basis, bs, [op] + ops) == OpBytes(basis, bs, op) + Expand(basis, bs, ops)
  {
    assert ([op] + ops)[1..] == ops;
  }

  lemma {:induction false} ExpandAppend(basis: seq<Byte>, bs: nat, a: seq<Op>, b: seq<Op>)
    ensures Expand(basis, bs, a + b) == Expand(basis, bs, a) + Expand(basis, bs, b)
  {
    if a == [] {
      assert a + b == b;
    } else {
      ExpandAppend(basis, bs, a[1..], b);
      TailOfAppend(a, b);
      AppendAssociates(OpBytes(basis, bs, a[0]), Expand(basis, bs, a[1..]), Expand(basis, bs, b));
    }
  }

  function EffectiveBlockSize(blockSize: int): nat {
    if blockSize <= 0 then DEFAULT_BLOCK_SIZE else blockSize
  }

  method ApplyOp(basis: seq<Byte>, bs: nat, op: Op) returns (r: Result<seq<Byte>>)
    requires op.Copy? ==> 0 <= op.blockIndex * bs <= MAX_INT64
    requires 0 < bs
    ensures r == if InRange(basis, bs, op) then Ok(OpBytes(basis, bs, op)) else Err
  {
    match op {
      case Literal(data) =>
        r := Ok(data);
      case Copy(k) =>
        var start := k * bs;
        r := if start > |basis| then Err else Ok(basis[start..Min(start + bs, |basis|)]);
      case Other(_) =>
        r := Err;
    }
  }

  lemma ExpandSnoc(basis: seq<Byte>, bs: nat, ops: seq<Op>, j: nat)
    requires j < |ops|
    ensures Expand(basis, bs, ops[..j + 1]) == Expand(basis, bs, ops[..j]) + OpBytes(basis, bs, ops[j])
  {
    assert ops[..j + 1] == ops[..j] + [ops[j]];
    assert [ops[j]] == [ops[j]] + [];
    ExpandCons(basis, bs, ops[j], []);
    ExpandAppend(basis, bs, ops[..j], [ops[j]]);
  }

  lemma OverrunIsFinal(basis: seq<Byte>, bs: nat, ops: seq<Op>, j: nat, limit: int)
    requires j <= |ops| && |Expand(basis, bs, ops[..j])| > limit
    ensures |Expand(basis, bs, ops)| > limit
  {
    ExpandAppend(basis, bs, ops[..j], ops[j..]);
    assert ops == ops[..j] + ops[j..];
  }

  /** The op loop: stops at the first op that is out of range or overruns the limit. */
  method ApplyOps(basis: seq<Byte>, bs: nat, ops: seq<Op>, limit: nat) returns (r: Result<seq<Byte>>)
    requires 0 < bs
    requires forall j | 0 <= j < |ops| && ops[j].Copy? :: 0 <= ops[j].blockIndex * bs <= MAX_INT64
    ensures r.Ok? <==> AllInRange(basis, bs, ops) && |Expand(basis, bs, ops)| <= limit
    ensures r.Ok? ==> r.value == Expand(basis, bs, ops)
  {
    var out: seq<Byte> := [];
    for j := 0 to |ops|
      invariant forall k | 0 <= k < j :: InRange(basis, bs, ops[k])
      invariant out == Expand(basis, bs, ops[..j]) && |out| <= limit
    {
      var piece := ApplyOp(basis, bs, ops[j]);
      if piece.Err? {
        return Err;
      }
      ExpandSnoc(basis, bs, ops, j);
      out := out + piece.value;
      if |out| > limit {
        OverrunIsFinal(basis, bs, ops, j + 1, limit);
        return Err;
      }
    }
    assert ops[..|ops|] == ops;
    r := Ok(out);
  }

  /** The decoder succeeds exactly when every copy is in range and the declared size is the
      size of the expansion, and then returns the expansion. */
  method Apply(basis: seq<Byte>, d: Delta) returns (r: Result<seq<Byte>>)
    requires forall j | 0 <= j < |d.ops| && d.ops[j].Copy? ::
               0 <= d.ops[j].blockIndex * EffectiveBlockSize(d.blockSize) <= MAX_INT64
    ensures var bs := if d.blockSize <= 0 then 4096 else d.blockSize;
            && (r.Ok? <==>
                  && 0 <= d.outputSize <= 0x400_0000
                  && AllInRange(basis, bs, d.ops)
                  && |Expand(basis, bs, d.ops)| == d.outputSize)
            && (r.Ok? ==> r.value == Expand(basis, bs, d.ops))
  {
    if d.outputSize < 0 || d.outputSize > MAX_OUTPUT_SIZE {
      return Err;
    }
    r := ApplyOps(basis, EffectiveBlockSize(d.blockSize), d.ops, d.outputSize);
    if r.Ok? && |r.value| != d.outputSize {
      r := Err;
    }
  }

  lemma ExpandPrepend(basis: seq<Byte>, bs: nat, lit: seq<Byte>, ops: seq<Op>)
    ensures Expand(basis, bs, Prepend(lit, ops)) == lit + Expand(basis, bs, ops)
  {
    if lit == [] {
    } else if ops != [] && ops[0].Literal? {
      ExpandCons(basis, bs, Literal(lit + ops[0].data), ops[1..]);
      AppendAssociates(lit, ops[0].data, Expand(basis, bs, ops[1..]));
    } else {
      ExpandCons(basis, bs, Literal(lit), ops);
    }
  }

  lemma ExpandCopy(basis: seq<Byte>, bs: nat, k: nat, target: seq<Byte>, i: nat, ops: seq<Op>)
    requires i <= |target|
    requires k * bs <= |basis| && Block(basis, bs, k) == Window(bs, target, i)
    requires Expand(basis, bs, ops) == target[Min(i + bs, |target|)..]
    ensures Expand(basis, bs, [Copy(k)] + ops) == target[i..]
  {
    ExpandCons(basis, bs, Copy(k), ops);
    SliceSplits(target, i, Min(i + bs, |target|));
  }

  /** Every pick names a basis block with the content of the window at that position. */
  ghost predicate PicksContent(basis: seq<Byte>, bs: nat, target: seq<Byte>, picks: Picks) {
    && |picks| == |target|
    && forall i | 0 <= i < |picks| && picks[i].Some? ::
         picks[i].value * bs <= |basis| && Block(basis, bs, picks[i].value) == Window(bs, target, i)
  }

  lemma {:induction false} EmittedExpands(basis: seq<Byte>, bs: nat, target: seq<Byte>, picks: Picks, i: nat)
    requires 0 < bs && i <= |target|
    requires PicksContent(basis, bs, target, picks)
    ensures Expand(basis, bs, Emit(picks, bs, target, i)) == target[i..]
    decreases |target| - i
  {
    if i == |target| {
    } else {
      if picks[i].Some? {
        var next := Min(i + bs, |target|);
        EmittedExpands(basis, bs, target, picks, next);
        ExpandCopy(basis, bs, picks[i].value, target, i, Emit(picks, bs, target, next));
      } else if i + bs > |target| {
        ExpandPrepend(basis, bs, target[i..], []);
      } else {
        EmittedExpands(basis, bs, target, picks, i + 1);
        ExpandPrepend(basis, bs, [target[i]], Emit(picks, bs, target, i + 1));
        SliceSplits(target, i, i + 1);
      }
    }
  }

  lemma {:induction false} EmittedInRange(basis: seq<Byte>, bs: nat, target: seq<Byte>, picks: Picks, i: nat)
    requires 0 < bs && i <= |target|
    requires PicksContent(basis, bs, target, picks)
    ensures AllInRange(basis, bs, Emit(picks, bs, target, i))
    decreases |target| - i
  {
    if i == |target| {
    } else {
      if picks[i].Some? {
        EmittedInRange(basis, bs, target, picks, Min(i + bs, |target|));
      } else if i + bs <= |target| {
        EmittedInRange(basis, bs, target, picks, i + 1);
      }
    }
  }

  lemma {:induction false} LowestEqualIsEqual(basis: seq<Byte>, bs: nat, w: seq<Byte>, k: nat)
    requires 0 < bs
    ensures var r := LowestEqual(basis, bs, w, k);
            r.Some? ==> r.value * bs < |basis| && Block(basis, bs, r.value) == w
    decreases |basis| - k * bs
  {
    if k * bs >= |basis| || Block(basis, bs, k) == w {
    } else {
      assert (k + 1) * bs == k * bs + bs;
      LowestEqualIsEqual(basis, bs, w, k + 1);
    }
  }

  /** Decoding the naive encoder's ops gives back the target. */
  lemma NaiveDecodes(basis: seq<Byte>, bs: nat, target: seq<Byte>)
    requires 0 < bs
    ensures AllInRange(basis, bs, NaiveOps(basis, bs, target))
    ensures Expand(basis, bs, NaiveOps(basis, bs, target)) == target
  {
    var picks := NaivePicks(basis, bs, target);
    forall i | 0 <= i < |picks| && picks[i].Some?
      ensures picks[i].value * bs <= |basis| && Block(basis, bs, picks[i].value) == Window(bs, target, i)
    {
      LowestEqualIsEqual(basis, bs, Window(bs, target, i), 0);
    }
    EmittedInRange(basis, bs, target, picks, 0);
    EmittedExpands(basis, bs, target, picks, 0);
    assert target[0..] == target;
  }

  // ---------------------------------------------------------------- How long the op list can get

  /** No op is empty or unknown and no two literals are adjacent. */
  predicate Tight(ops: seq<Op>) {
    && (forall j | 0 <= j < |ops| :: !ops[j].Other? && (ops[j].Literal? ==> ops[j].data != []))
    && (forall j | 0 < j < |ops| :: ops[j - 1].Copy? || ops[j].Copy?)
  }

  /** Copies name one of the `limit` blocks and no literal is longer than n. */
  predicate Within(ops: seq<Op>, limit: nat, n: nat) {
    forall j | 0 <= j < |ops| ::
      && (ops[j].Copy? ==> 0 <= ops[j].blockIndex < limit)
      && (ops[j].Literal? ==> |ops[j].data| <= n)
  }

  predicate NoLeadingLiteral(ops: seq<Op>) {
    ops != [] && !ops[0].Literal?
  }

  /** One op less when the first is not a literal. */
  function MostOps(n: nat, bs: nat, ops: seq<Op>): nat
    requires 0 < bs
  {
    2 * CeilDiv(n, bs) + if NoLeadingLiteral(ops) then 0 else 1
  }

  lemma {:induction false} CeilDivMonotone(m: int, n: int, bs: nat)
    requires 0 < bs && (m <= n || m <= 0)
    ensures CeilDiv(m, bs) <= CeilDiv(n, bs)
    decreases if n <= 0 then 0 else n
  {
    if n <= 0 {
    } else {
      CeilDivMonotone(m - bs, n - bs, bs);
    }
  }

  lemma CopyIsShort(k: nat, ops: seq<Op>, n: nat, bs: nat)
    requires 0 < bs && 0 < n && |ops| <= MostOps(if n <= bs then 0 else n - bs, bs, ops)
    ensures |[Copy(k)] + ops| <= MostOps(n, bs, [Copy(k)] + ops)
  {
    assert CeilDiv(n, bs) == 1 + CeilDiv(if n <= bs then 0 else n - bs, bs);
  }

  lemma PrependIsShort(b: Byte, ops: seq<Op>, n: nat, bs: nat)
    requires 0 < bs && |ops| <= MostOps(n, bs, ops)
    ensures |Prepend([b], ops)| <= MostOps(n + 1, bs, Prepend([b], ops))
  {
    CeilDivMonotone(n, n + 1, bs);
  }

  lemma {:induction false} EmittedIsShort(picks: Picks, bs: nat, target: seq<Byte>, i: nat)
    requires 0 < bs && i <= |target| == |picks|
    ensures |Emit(picks, bs, target, i)| <= MostOps(|target| - i, bs, Emit(picks, bs, target, i))
    decreases |target| - i
  {
    if i == |target| {
    } else if picks[i].Some? {
      var next := Min(i + bs, |target|);
      EmittedIsShort(picks, bs, target, next);
      CopyIsShort(picks[i].value, Emit(picks, bs, target, next), |target| - i, bs);
    } else if i + bs <= |target| {
      EmittedIsShort(picks, bs, target, i + 1);
      PrependIsShort(target[i], Emit(picks, bs, target, i + 1), |target| - (i + 1), bs);
    }
  }

  lemma {:induction false} EmittedIsTight(picks: Picks, bs: nat, target: seq<Byte>, i: nat)
    requires 0 < bs && i <= |target| == |picks|
    ensures Tight(Emit(picks, bs, target, i))
    decreases |target| - i
  {
    if i == |target| {
    } else {
      if picks[i].Some? {
        EmittedIsTight(picks, bs, target, Min(i + bs, |target|));
      } else if i + bs <= |target| {
        EmittedIsTight(picks, bs, target, i + 1);
      }
    }
  }

  lemma {:induction false} EmittedIsWithin(picks: Picks, limit: nat, bs: nat, target: seq<Byte>, i: nat)
    requires 0 < bs && i <= |target| == |picks|
    requires forall p | 0 <= p < |picks| && picks[p].Some? :: picks[p].value < limit
    ensures Within(Emit(picks, bs, target, i), limit, |target| - i)
    decreases |target| - i
  {
    if i == |target| {
    } else {
      if picks[i].Some? {
        EmittedIsWithin(picks, limit, bs, target, Min(i + bs, |target|));
      } else if i + bs <= |target| {
        EmittedIsWithin(picks, limit, bs, target, i + 1);
      }
    }
  }

  /** For any signature at all, the encoder's ops are tight, name existing blocks only, and
      number at most 2 * ceil(n / bs) + 1. */
  lemma GreedyIsBounded(md5: Md5, blocks: seq<BlockChecksum>, bs: nat, target: seq<Byte>)
    requires 0 < bs
    ensures var ops := GreedyOps(md5, blocks, bs, target);
            && Tight(ops)
            && Within(ops, |blocks|, |target|)
            && |ops| <= 2 * CeilDiv(|target|, bs) + 1
  {
    var picks := GreedyPicks(md5, blocks, bs, target);
    EmittedIsShort(picks, bs, target, 0);
    EmittedIsTight(picks, bs, target, 0);
    EmittedIsWithin(picks, |blocks|, bs, target, 0);
  }
}
