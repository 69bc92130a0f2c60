/** One delta transfer between two peers, from the receiver's basis to the sender's file. */
module DeltaTransfer {
  import opened Bytes
  import opened DeltaCodec
  import opened DeltaWire
  import Replica

  const MIN_DELTA_BLOCK_SIZE := 256
  const MAX_DELTA_BLOCK_SIZE := 0x10_0000

  predicate ValidBlockSize(bs: int) {
    MIN_DELTA_BLOCK_SIZE <= bs <= MAX_DELTA_BLOCK_SIZE
  }

  /** With at least 256 bytes a block, 64 MiB are at most 2^18 blocks. */
  lemma BlockCount(n: nat, bs: nat)
    requires MIN_DELTA_BLOCK_SIZE <= bs && n <= MAX_OUTPUT_SIZE
    ensures CeilDiv(n, bs) <= 0x4_0000
  {
    CeilDivBounds(n, bs);
    var c := CeilDiv(n, bs);
    assert c > 0x4_0000 ==> (c - 1) * bs >= 0x4_0000 * bs;
    assert (c - 1) * bs == c * bs - bs;
  }

  /** Whatever the signature says, the encoder's output is within the reader's limits. */
  lemma EncodedDeltaFits(md5: Md5, sig: Signature, target: seq<Byte>)
    requires ValidBlockSize(sig.blockSize) && |sig.blocks| <= MAX_DECODE_OPS && |target| <= MAX_OUTPUT_SIZE
    ensures var ops := GreedyOps(md5, sig.blocks, sig.blockSize, target);
            |ops| <= 0x8_0001 && DeltaFits(Delta(sig.blockSize, ops, |target|))
  {
    GreedyIsBounded(md5, sig.blocks, sig.blockSize, target);
    BlockCount(|target|, sig.blockSize);
    Capacities();
    var ops := GreedyOps(md5, sig.blocks, sig.blockSize, target);
    forall j | 0 <= j < |ops| ensures OP_CODEC.fits(ops[j]) {
    }
  }

  lemma SignatureFitsWire(md5: Md5, basis: seq<Byte>, sig: Signature)
    requires ValidBlockSize(sig.blockSize) && |basis| <= MAX_OUTPUT_SIZE
    requires IsSignature(md5, basis, sig)
    ensures SignatureFits(sig)
  {
    BlockCount(|basis|, sig.blockSize);
    Capacities();
    forall j | 0 <= j < |sig.blocks| ensures BLOCK_CODEC.fits(sig.blocks[j]) {
    }
  }

  /** The request starts with the encoding of sig, whose block size the sender accepts. */
  ghost predicate Accepts(sig: Signature, sigRaw: seq<Byte>, blockSize: int) {
    && SignatureFits(sig) && SignatureEncoding(sig) <= sigRaw
    && ValidBlockSize(sig.blockSize) && (blockSize > 0 ==> sig.blockSize == blockSize)
  }

  function Whole(data: seq<Byte>): Delta {
    Delta(DEFAULT_BLOCK_SIZE, [Literal(data)], |data|)
  }

  /** The sender's side: parse the signature, check the block size, encode, marshal. It answers
      exactly the requests it accepts, without a signature with the whole file as one literal. */
  method ServeDelta(md5: Md5, data: seq<Byte>, blockSize: int, sigRaw: seq<Byte>) returns (r: Result<seq<Byte>>)
    ensures |sigRaw| == 0 ==>
              r == if blockSize > 0 && !ValidBlockSize(blockSize) then Err else Ok(DeltaEncoding(Whole(data)))
    ensures |sigRaw| > 0 && r.Ok? ==> exists sig :: Accepts(sig, sigRaw, blockSize)
    ensures forall sig | Accepts(sig, sigRaw, blockSize) ::
              r == Ok(DeltaEncoding(Delta(sig.blockSize, GreedyOps(md5, sig.blocks, sig.blockSize, data), |data|)))
  {
    var sig := None;
    if |sigRaw| > 0 {
      var parsed := UnmarshalSignature(sigRaw);
      if parsed.Err? {
        return Err;
      }
      if blockSize > 0 && parsed.value.blockSize > 0 && blockSize != parsed.value.blockSize {
        return Err;
      }
      if !ValidBlockSize(parsed.value.blockSize) {
        return Err;
      }
      sig := Some(parsed.value);
      assert Accepts(parsed.value, sigRaw, blockSize);
      GreedyIsBounded(md5, parsed.value.blocks, parsed.value.blockSize, data);
    } else if blockSize > 0 && !ValidBlockSize(blockSize) {
      return Err;
    }
    var del := Encode(md5, data, sig);
    r := MarshalDelta(del);
  }

  lemma BlockInsideBasis(md5: Md5, basis: seq<Byte>, sig: Signature, k: nat)
    requires IsSignature(md5, basis, sig) && k < |sig.blocks|
    ensures 0 <= k * sig.blockSize < |basis|
  {
    var b := sig.blocks[k];
  }

  lemma CopiesInsideBasis(md5: Md5, basis: seq<Byte>, sig: Signature, ops: seq<Op>, n: nat)
    requires IsSignature(md5, basis, sig) && |basis| <= MAX_OUTPUT_SIZE
    requires Within(ops, |sig.blocks|, n)
    ensures forall j | 0 <= j < |ops| && ops[j].Copy? :: 0 <= ops[j].blockIndex * sig.blockSize <= MAX_INT64
  {
    forall j | 0 <= j < |ops| && ops[j].Copy? ensures 0 <= ops[j].blockIndex * sig.blockSize <= MAX_INT64 {
      BlockInsideBasis(md5, basis, sig, ops[j].blockIndex);
    }
  }

  /** The receiver's side against an honest sender: sign, send, decode, apply. The result is
      exactly the sender's file, for every pair of files up to 64 MiB and every block size the
      sender accepts, unless MD5 collides between the two. */
  method PullDelta(md5: Md5, basis: seq<Byte>, target: seq<Byte>, blockSize: int) returns (r: Result<seq<Byte>>)
    requires ValidBlockSize(blockSize)
    requires |basis| <= MAX_OUTPUT_SIZE && |target| <= MAX_OUTPUT_SIZE
    requires CollisionFree(md5, basis, blockSize, target)
    ensures r == Ok(target)
  {
    var sig := Sign(md5, basis, blockSize);
    SignatureFitsWire(md5, basis, sig);
    var sigRaw := MarshalSignature(sig);
    assert Accepts(sig, sigRaw, blockSize);
    var reply := ServeDelta(md5, target, blockSize, sigRaw);
    ghost var sent := Delta(blockSize, GreedyOps(md5, sig.blocks, blockSize, target), |target|);
    EncodedDeltaFits(md5, sig, target);
    GreedyIsBounded(md5, sig.blocks, blockSize, target);
    var del := UnmarshalDelta(reply.value);
    assert del == Ok(sent);
    GreedyIsNaive(md5, basis, sig, target);
    NaiveDecodes(basis, blockSize, target);
    CopiesInsideBasis(md5, basis, sig, sent.ops, |target|);
    r := Apply(basis, del.value);
  }

  /** A delta transfer within the daemon's pull: with a sender whose file has the wanted hash, the
      reply passes the verification and is the file, whatever full pulls would have answered. */
  method PullAndVerifyDelta(md5: Md5, sha: Replica.Sha, basis: seq<Byte>, target: seq<Byte>, blockSize: int, want: string,
                            full: Replica.Reply, retry: Replica.Reply)
    returns (out: Result<seq<Byte>>)
    requires ValidBlockSize(blockSize)
    requires |basis| <= MAX_OUTPUT_SIZE && |target| <= MAX_OUTPUT_SIZE
    requires CollisionFree(md5, basis, blockSize, target)
    requires sha(target) == want
    ensures out == Ok(target)
  {
    var r := PullDelta(md5, basis, target, blockSize);
    var reply := if r.Ok? then Replica.Data(r.value) else Replica.Logical;
    out := Replica.PullAndVerify(sha, want, true, Replica.Replies.Replies(reply, full, retry));
  }
}
