/** The two wire formats byte by byte. */
module DeltaFormat {
  import opened Bytes
  import opened Records
  import opened DeltaCodec
  import opened DeltaWire

  /** The four low bytes of x, least significant first. */
  function Four(x: int): seq<Byte> {
    [(x % 256) as Byte, (x / 256 % 256) as Byte, (x / 0x1_0000 % 256) as Byte, (x / 0x100_0000 % 256) as Byte]
  }

  lemma LeOne(x: int, n: nat)
    requires 0 < n
    ensures Le(x, n) == [(x % 256) as Byte] + Le(x / 256, n - 1)
  {
  }

  lemma Shifts(x: int)
    ensures x / 256 / 256 == x / 0x1_0000
    ensures x / 0x1_0000 / 256 == x / 0x100_0000
    ensures x / 0x100_0000 / 256 == x / 0x1_0000_0000
  {
  }

  lemma LeIsFour(x: int)
    ensures Le(x, 4) == Four(x)
  {
    LeOne(x, 4);
    LeOne(x / 256, 3);
    LeOne(x / 256 / 256, 2);
    LeOne(x / 256 / 256 / 256, 1);
    Shifts(x);
  }

  lemma LeIsEight(x: int)
    ensures Le(x, 8) == Four(x) + Four(x / 0x1_0000_0000)
  {
    LeOne(x, 8);
    LeOne(x / 256, 7);
    LeOne(x / 256 / 256, 6);
    LeOne(x / 256 / 256 / 256, 5);
    Shifts(x);
    LeIsFour(x / 0x1_0000_0000);
  }

  /** A delta starts with TSD1, the block size in 4 bytes, the output size in 8 and the number of ops
      in 4. */
  lemma DeltaLayout(d: Delta)
    ensures DeltaEncoding(d)
         == [84, 83, 68, 49] + Four(d.blockSize) + (Four(d.outputSize) + Four(d.outputSize / 0x1_0000_0000)) + Four(|d.ops|)
            + Concat(OP_CODEC.write, d.ops)
    ensures Concat(OP_CODEC.write, []) == []
  {
    LeIsFour(d.blockSize);
    LeIsEight(d.outputSize);
    LeIsFour(|d.ops|);
  }

  /** Each literal is a zero, its length in 4 bytes and its bytes; each copy is a one and its block in
      4 bytes. */
  lemma OpLayout(ops: seq<Op>, data: seq<Byte>, k: int)
    ensures Concat(OP_CODEC.write, ops + [Literal(data)]) == Concat(OP_CODEC.write, ops) + ([0] + Four(|data|) + data)
    ensures Concat(OP_CODEC.write, ops + [Copy(k)]) == Concat(OP_CODEC.write, ops) + ([1] + Four(k))
  {
    ConcatSnoc(OP_CODEC.write, ops, Literal(data));
    ConcatSnoc(OP_CODEC.write, ops, Copy(k));
    LeIsFour(|data|);
    LeIsFour(k);
  }

  /** A signature starts with TSS1, the block size in 4 bytes and the number of blocks in 4. */
  lemma SignatureLayout(sig: Signature)
    ensures SignatureEncoding(sig)
         == [84, 83, 83, 49] + Four(sig.blockSize) + Four(|sig.blocks|) + Concat(BLOCK_CODEC.write, sig.blocks)
    ensures Concat(BLOCK_CODEC.write, []) == []
  {
    LeIsFour(sig.blockSize);
    LeIsFour(|sig.blocks|);
  }

  /** Each block is its index in 4 bytes, its weak sum in 4 and its strong hash in 16. */
  lemma BlockLayout(blocks: seq<BlockChecksum>, b: BlockChecksum)
    ensures Concat(BLOCK_CODEC.write, blocks + [b])
         == Concat(BLOCK_CODEC.write, blocks) + (Four(b.index) + Four(b.weak) + b.strong)
  {
    ConcatSnoc(BLOCK_CODEC.write, blocks, b);
    LeIsFour(b.index);
    LeIsFour(b.weak);
  }

  /** The reader's limits: 16M ops or blocks, 64 MiB of output, 32 bits for the rest. */
  lemma LimitsMean(d: Delta, sig: Signature)
    ensures DeltaFits(d) <==>
              && 0 <= d.blockSize < 0x1_0000_0000 && 0 <= d.outputSize <= 0x400_0000 && |d.ops| <= 0x100_0000
              && forall j | 0 <= j < |d.ops| ::
                   || (d.ops[j].Literal? && |d.ops[j].data| < 0x1_0000_0000)
                   || (d.ops[j].Copy? && 0 <= d.ops[j].blockIndex < 0x1_0000_0000)
    ensures SignatureFits(sig) <==>
              && 0 <= sig.blockSize < 0x1_0000_0000 && |sig.blocks| <= 0x100_0000
              && forall j | 0 <= j < |sig.blocks| ::
                   0 <= sig.blocks[j].index < 0x1_0000_0000 && sig.blocks[j].weak < 0x1_0000_0000
  {
    Capacities();
    if DeltaFits(d) {
      forall j | 0 <= j < |d.ops| ensures OpFits(d.ops[j]) {
        assert OP_CODEC.fits(d.ops[j]);
      }
    }
    if SignatureFits(sig) {
      forall j | 0 <= j < |sig.blocks| ensures BlockFits(sig.blocks[j]) {
        assert BLOCK_CODEC.fits(sig.blocks[j]);
      }
    }
  }
}
