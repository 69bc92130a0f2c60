/** The binary forms of deltas and signatures. */
module DeltaWire {
  import opened Bytes
  import opened Records
  import opened DeltaCodec

  const MAX_DECODE_OPS := 0x100_0000
  const DELTA_MAGIC: seq<Byte> := [84, 83, 68, 49]      // TSD1
  const SIGNATURE_MAGIC: seq<Byte> := [84, 83, 83, 49]  // TSS1
  const RECORD_SIZE := 24

  // ---------------------------------------------------------------- Deltas

  function WriteOp(op: Op): seq<Byte> {
    match op
    case Literal(data) => [0] + Le(|data|, 4) + data
    case Copy(k) => [1] + Le(k, 4)
    case Other(kind) => [kind]
  }

  function ReadOp(s: seq<Byte>): Result<(Op, seq<Byte>)> {
    if |s| < 5 || s[0] > 1 then Err
    else
      var n := FromLe(s[1..5]);
      if s[0] == 1 then Ok((Copy(n), s[5..]))
      else if n > |s| - 5 then Err
      else Ok((Literal(s[5..5 + n]), s[5 + n..]))
  }

  predicate OpFits(op: Op) {
    match op
    case Literal(data) => |data| < Capacity(4)
    case Copy(k) => 0 <= k < Capacity(4)
    case Other(_) => false
  }

  const OP_CODEC: Codec<Op> := Codec(WriteOp, ReadOp, OpFits)

  lemma ReadOpInverts(op: Op, rest: seq<Byte>)
    requires OpFits(op)
    ensures ReadOp(WriteOp(op) + rest) == Ok((op, rest))
  {
    var s := WriteOp(op) + rest;
    var n := if op.Copy? then op.blockIndex else |op.data|;
    assert s[1..5] == Le(n, 4);
    LeRoundTrip(n, 4);
    if op.Literal? {
      assert s[5..5 + n] == op.data && s[5 + n..] == rest;
    } else {
      assert s[5..] == rest;
    }
  }

  lemma ReadOpIsExact(s: seq<Byte>)
    requires ReadOp(s).Ok?
    ensures OpFits(ReadOp(s).value.0)
    ensures s == WriteOp(ReadOp(s).value.0) + ReadOp(s).value.1
  {
    FromLeRoundTrip(s[1..5]);
    var n := FromLe(s[1..5]);
    assert s == [s[0]] + s[1..5] + s[5..];
    if s[0] == 0 {
      assert s[5..] == s[5..5 + n] + s[5 + n..];
    }
  }

  lemma OpCodecIsExact()
    ensures Exact(OP_CODEC)
  {
    forall op, rest: seq<Byte> {:trigger OP_CODEC.write(op) + rest} | OP_CODEC.fits(op)
      ensures OP_CODEC.read(OP_CODEC.write(op) + rest) == Ok((op, rest))
    {
      ReadOpInverts(op, rest);
    }
    forall s {:trigger OP_CODEC.read(s)} | OP_CODEC.read(s).Ok?
      ensures OP_CODEC.fits(OP_CODEC.read(s).value.0)
      ensures s == OP_CODEC.write(OP_CODEC.read(s).value.0) + OP_CODEC.read(s).value.1
    {
      ReadOpIsExact(s);
    }
  }

  /** The header fields every delta starts with: magic, block size, output size, op count. */
  function DeltaHeader(blockSize: int, outputSize: int, nOps: int): (s: seq<Byte>)
    ensures |s| == 20
  {
    DELTA_MAGIC + Le(blockSize, 4) + Le(outputSize, 8) + Le(nOps, 4)
  }

  function DeltaEncoding(d: Delta): seq<Byte> {
    DeltaHeader(d.blockSize, d.outputSize, |d.ops|) + Concat(OP_CODEC.write, d.ops)
  }

  /** Every field fits its width on the wire and the reader's limits. */
  predicate DeltaFits(d: Delta) {
    && 0 <= d.blockSize < Capacity(4)
    && 0 <= d.outputSize <= MAX_OUTPUT_SIZE
    && |d.ops| <= MAX_DECODE_OPS
    && AllFit(OP_CODEC.fits, d.ops)
  }

  method MarshalDelta(d: Delta) returns (r: Result<seq<Byte>>)
    ensures r.Ok? <==> forall j | 0 <= j < |d.ops| :: !d.ops[j].Other?
    ensures r.Ok? ==> r.value == DeltaEncoding(d)
  {
    if j :| 0 <= j < |d.ops| && d.ops[j].Other? {
      return Err;
    }
    var buf := WriteMany(OP_CODEC.write, DeltaHeader(d.blockSize, d.outputSize, |d.ops|), d.ops);
    return Ok(buf);
  }

  lemma DeltaHeaderReads(blockSize: nat, outputSize: nat, nOps: nat, s: seq<Byte>)
    requires blockSize < Capacity(4) && outputSize < Capacity(8) && nOps < Capacity(4)
    requires DeltaHeader(blockSize, outputSize, nOps) <= s
    ensures s[..4] == DELTA_MAGIC
    ensures FromLe(s[4..8]) == blockSize && FromLe(s[8..16]) == outputSize && FromLe(s[16..20]) == nOps
  {
    LeRoundTrip(blockSize, 4);
    LeRoundTrip(outputSize, 8);
    LeRoundTrip(nOps, 4);
    assert s[4..8] == Le(blockSize, 4);
    assert s[8..16] == Le(outputSize, 8);
    assert s[16..20] == Le(nOps, 4);
  }

  lemma DeltaHeaderIsExact(s: seq<Byte>)
    requires |s| >= 20 && s[..4] == DELTA_MAGIC
    ensures FromLe(s[4..8]) < Capacity(4)
    ensures s[..20] == DeltaHeader(FromLe(s[4..8]), FromLe(s[8..16]), FromLe(s[16..20]))
  {
    FromLeRoundTrip(s[4..8]);
    FromLeRoundTrip(s[8..16]);
    FromLeRoundTrip(s[16..20]);
    assert s[..8] == s[..4] + s[4..8];
    assert s[..16] == s[..8] + s[8..16];
    assert s[..20] == s[..16] + s[16..20];
  }

  /** What an encoding that starts data forces the reader to see. */
  lemma DeltaEncodingReads(d: Delta, data: seq<Byte>)
    requires DeltaFits(d) && DeltaEncoding(d) <= data
    ensures |data| >= 20 && data[..4] == DELTA_MAGIC
    ensures FromLe(data[4..8]) == d.blockSize && FromLe(data[8..16]) == d.outputSize
    ensures FromLe(data[16..20]) == |d.ops| <= |data| - 20
    ensures Starts(OP_CODEC, data[20..], |d.ops|, d.ops)
  {
    Capacities();
    DeltaHeaderReads(d.blockSize, d.outputSize, |d.ops|, data);
    assert data[20..|DeltaEncoding(d)|] == Concat(OP_CODEC.write, d.ops);
    ConcatLength(OP_CODEC.write, d.ops, 1);
  }

  /** Decoding is total and exact: it succeeds on a byte string just when the string starts with
      the encoding of a delta within the limits, and then returns that delta. */
  method UnmarshalDelta(data: seq<Byte>) returns (r: Result<Delta>)
    ensures r.Ok? ==> DeltaFits(r.value) && DeltaEncoding(r.value) <= data
    ensures forall d | DeltaFits(d) && DeltaEncoding(d) <= data :: r == Ok(d)
  {
    forall d | DeltaFits(d) && DeltaEncoding(d) <= data
      ensures |data| >= 20 && data[..4] == DELTA_MAGIC
      ensures FromLe(data[4..8]) == d.blockSize && FromLe(data[8..16]) == d.outputSize
      ensures FromLe(data[16..20]) == |d.ops| <= |data| - 20
      ensures Starts(OP_CODEC, data[20..], |d.ops|, d.ops)
    {
      DeltaEncodingReads(d, data);
    }
    if |data| < 20 || data[..4] != DELTA_MAGIC {
      return Err;
    }
    var blockSize, outputSize, nOps := FromLe(data[4..8]), FromLe(data[8..16]), FromLe(data[16..20]);
    if nOps > MAX_DECODE_OPS || nOps > |data| - 20 || outputSize > MAX_OUTPUT_SIZE {
      return Err;
    }
    OpCodecIsExact();
    var ops := ReadMany(OP_CODEC, data[20..], nOps);
    if ops.Err? {
      return Err;
    }
    DeltaHeaderIsExact(data);
    assert data == data[..20] + data[20..];
    return Ok(Delta(blockSize, ops.value, outputSize));
  }

  // ---------------------------------------------------------------- Signatures

  function WriteBlock(b: BlockChecksum): seq<Byte> {
    Le(b.index, 4) + Le(b.weak, 4) + b.strong
  }

  function ReadBlock(s: seq<Byte>): Result<(BlockChecksum, seq<Byte>)> {
    if |s| < RECORD_SIZE then Err
    else Ok((BlockChecksum(FromLe(s[..4]), FromLe(s[4..8]), s[8..24]), s[24..]))
  }

  predicate BlockFits(b: BlockChecksum) {
    0 <= b.index < Capacity(4) && b.weak < Capacity(4)
  }

  const BLOCK_CODEC: Codec<BlockChecksum> := Codec(WriteBlock, ReadBlock, BlockFits)

  lemma ReadBlockInverts(b: BlockChecksum, rest: seq<Byte>)
    requires BlockFits(b)
    ensures ReadBlock(WriteBlock(b) + rest) == Ok((b, rest))
  {
    var s := WriteBlock(b) + rest;
    LeRoundTrip(b.index, 4);
    LeRoundTrip(b.weak, 4);
    assert s[..4] == Le(b.index, 4) && s[4..8] == Le(b.weak, 4);
    assert s[8..24] == b.strong && s[24..] == rest;
  }

  lemma ReadBlockIsExact(s: seq<Byte>)
    requires ReadBlock(s).Ok?
    ensures BlockFits(ReadBlock(s).value.0)
    ensures s == WriteBlock(ReadBlock(s).value.0) + ReadBlock(s).value.1
  {
    FromLeRoundTrip(s[..4]);
    FromLeRoundTrip(s[4..8]);
    assert s == s[..4] + s[4..8] + s[8..24] + s[24..];
  }

  lemma BlockCodecIsExact()
    ensures Exact(BLOCK_CODEC)
  {
    forall b, rest: seq<Byte> {:trigger BLOCK_CODEC.write(b) + rest} | BLOCK_CODEC.fits(b)
      ensures BLOCK_CODEC.read(BLOCK_CODEC.write(b) + rest) == Ok((b, rest))
    {
      ReadBlockInverts(b, rest);
    }
    forall s {:trigger BLOCK_CODEC.read(s)} | BLOCK_CODEC.read(s).Ok?
      ensures BLOCK_CODEC.fits(BLOCK_CODEC.read(s).value.0)
      ensures s == BLOCK_CODEC.write(BLOCK_CODEC.read(s).value.0) + BLOCK_CODEC.read(s).value.1
    {
      ReadBlockIsExact(s);
    }
  }

  function SignatureHeader(blockSize: int, nBlocks: int): (s: seq<Byte>)
    ensures |s| == 12
  {
    SIGNATURE_MAGIC + Le(blockSize, 4) + Le(nBlocks, 4)
  }

  function SignatureEncoding(sig: Signature): seq<Byte> {
    SignatureHeader(sig.blockSize, |sig.blocks|) + Concat(BLOCK_CODEC.write, sig.blocks)
  }

  predicate SignatureFits(sig: Signature) {
    && 0 <= sig.blockSize < Capacity(4)
    && |sig.blocks| <= MAX_DECODE_OPS
    && AllFit(BLOCK_CODEC.fits, sig.blocks)
  }

  method MarshalSignature(sig: Signature) returns (data: seq<Byte>)
    ensures data == SignatureEncoding(sig)
  {
    data := WriteMany(BLOCK_CODEC.write, SignatureHeader(sig.blockSize, |sig.blocks|), sig.blocks);
  }

  lemma SignatureHeaderReads(blockSize: nat, nBlocks: nat, s: seq<Byte>)
    requires blockSize < Capacity(4) && nBlocks < Capacity(4)
    requires SignatureHeader(blockSize, nBlocks) <= s
    ensures s[..4] == SIGNATURE_MAGIC
    ensures FromLe(s[4..8]) == blockSize && FromLe(s[8..12]) == nBlocks
  {
    LeRoundTrip(blockSize, 4);
    LeRoundTrip(nBlocks, 4);
    assert s[4..8] == Le(blockSize, 4);
    assert s[8..12] == Le(nBlocks, 4);
  }

  lemma SignatureHeaderIsExact(s: seq<Byte>)
    requires |s| >= 12 && s[..4] == SIGNATURE_MAGIC
    ensures FromLe(s[4..8]) < Capacity(4)
    ensures s[..12] == SignatureHeader(FromLe(s[4..8]), FromLe(s[8..12]))
  {
    FromLeRoundTrip(s[4..8]);
    FromLeRoundTrip(s[8..12]);
    assert s[..8] == s[..4] + s[4..8];
    assert s[..12] == s[..8] + s[8..12];
  }

  lemma SignatureEncodingReads(sig: Signature, data: seq<Byte>)
    requires SignatureFits(sig) && SignatureEncoding(sig) <= data
    ensures |data| >= 12 && data[..4] == SIGNATURE_MAGIC
    ensures FromLe(data[4..8]) == sig.blockSize && FromLe(data[8..12]) == |sig.blocks|
    ensures |sig.blocks| * RECORD_SIZE <= |data| - 12
    ensures Starts(BLOCK_CODEC, data[12..], |sig.blocks|, sig.blocks)
  {
    Capacities();
    SignatureHeaderReads(sig.blockSize, |sig.blocks|, data);
    assert data[12..|SignatureEncoding(sig)|] == Concat(BLOCK_CODEC.write, sig.blocks);
    ConcatLength(BLOCK_CODEC.write, sig.blocks, RECORD_SIZE);
  }

  /** Total and exact, like UnmarshalDelta. */
  method UnmarshalSignature(data: seq<Byte>) returns (r: Result<Signature>)
    ensures r.Ok? ==> SignatureFits(r.value) && SignatureEncoding(r.value) <= data
    ensures forall sig | SignatureFits(sig) && SignatureEncoding(sig) <= data :: r == Ok(sig)
  {
    forall sig | SignatureFits(sig) && SignatureEncoding(sig) <= data
      ensures |data| >= 12 && data[..4] == SIGNATURE_MAGIC
      ensures FromLe(data[4..8]) == sig.blockSize && FromLe(data[8..12]) == |sig.blocks|
      ensures |sig.blocks| * RECORD_SIZE <= |data| - 12
      ensures Starts(BLOCK_CODEC, data[12..], |sig.blocks|, sig.blocks)
    {
      SignatureEncodingReads(sig, data);
    }
    if |data| < 12 || data[..4] != SIGNATURE_MAGIC {
      return Err;
    }
    var blockSize, nBlocks := FromLe(data[4..8]), FromLe(data[8..12]);
    if nBlocks > MAX_DECODE_OPS || nBlocks * RECORD_SIZE > |data| - 12 {
      return Err;
    }
    BlockCodecIsExact();
    var blocks := ReadMany(BLOCK_CODEC, data[12..], nBlocks);
    if blocks.Err? {
      return Err;
    }
    SignatureHeaderIsExact(data);
    assert data == data[..12] + data[12..];
    return Ok(Signature(blockSize, blocks.value));
  }
}
