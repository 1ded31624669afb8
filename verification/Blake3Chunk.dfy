/** The chunk state: one chunk hashed block by block, the last block always kept back. */
module Blake3Chunk {
  import opened Blake3Tree
  import opened Bytes

  // ----- block chains -----

  /** Whole blocks: appending one block extends the chain by one compression. */
  lemma ChainBlock(m: Mode, counter: nat, done: seq<Byte>, block: seq<Byte>)
    requires |done| % BLOCK_LEN == 0 && |block| == BLOCK_LEN
    ensures Chain(m, counter, done + block)
         == m.c.compress(Chain(m, counter, done), block, BLOCK_LEN, counter, m.flags + StartFlag(|done| / BLOCK_LEN))
  {
    var all := done + block;
    assert all[..|all| - BLOCK_LEN] == done && all[|all| - BLOCK_LEN..] == block;
  }

  /** The state of a chunk, given the whole blocks done and the bytes kept back. */
  ghost function OutputOf(m: Mode, counter: nat, done: seq<Byte>, rest: seq<Byte>): Output
    requires |rest| <= BLOCK_LEN
  {
    Output(Chain(m, counter, done), Pad(rest), |rest|, counter,
           m.flags + StartFlag(|done| / BLOCK_LEN) + {ChunkEnd})
  }

  lemma OutputOfIsChunkOutput(m: Mode, counter: nat, done: seq<Byte>, rest: seq<Byte>)
    requires |done| % BLOCK_LEN == 0 && |rest| <= BLOCK_LEN && (rest == [] ==> done == [])
    ensures OutputOf(m, counter, done, rest) == ChunkOutput(m, counter, done + rest)
  {
    var bytes := done + rest;
    assert BLOCK_LEN * FullBlocks(|bytes|) == |done|;
    assert bytes[..|done|] == done && bytes[|done|..] == rest;
  }

  lemma PadShape(buf: seq<Byte>, bytes: seq<Byte>)
    requires |bytes| <= BLOCK_LEN
    ensures buf == Pad(bytes) <==>
              |buf| == BLOCK_LEN && buf[..|bytes|] == bytes && forall j :: |bytes| <= j < BLOCK_LEN ==> buf[j] == 0
    ensures |bytes| == BLOCK_LEN ==> Pad(bytes) == bytes
  {
    if |buf| == BLOCK_LEN && buf[..|bytes|] == bytes && forall j :: |bytes| <= j < BLOCK_LEN ==> buf[j] == 0 {
      assert buf == buf[..|bytes|] + buf[|bytes|..];
    }
    if buf == Pad(bytes) {
      assert buf[..|bytes|] == bytes;
    }
  }

  lemma Regroup(done: seq<Byte>, kept: seq<Byte>, block: seq<Byte>, tail: seq<Byte>, input: seq<Byte>)
    requires input == block + tail && kept == []
    ensures done + kept + input == (done + block) + kept + tail
  {
  }

  class ChunkState {
    var cv: Words
    var chunkCounter: nat
    const buf: array<Byte>
    var bufLen: nat
    var blocksCompressed: nat
    const m: Mode
    ghost var bytes: seq<Byte>  // everything the chunk has been given

    /** The fields stand for the whole blocks `done` and the bytes `kept` in the buffer. */
    ghost predicate Holds(done: seq<Byte>, kept: seq<Byte>)
      reads this, buf
    {
      && buf.Length == BLOCK_LEN && |kept| == bufLen <= BLOCK_LEN && |done| == BLOCK_LEN * blocksCompressed
      && buf[..] == Pad(kept) && cv == Chain(m, chunkCounter, done)
    }

    ghost predicate Valid()
      reads this, buf
    {
      && |bytes| == BLOCK_LEN * blocksCompressed + bufLen && (bufLen == 0 ==> bytes == [])
      && Holds(bytes[..BLOCK_LEN * blocksCompressed], bytes[BLOCK_LEN * blocksCompressed..])
    }

    /** chunk_state_init */
    constructor (mode: Mode, counter: nat)
      ensures Valid() && fresh(buf) && m == mode && chunkCounter == counter && bytes == []
    {
      m, cv, chunkCounter := mode, mode.key, counter;
      buf := new Byte[BLOCK_LEN](_ => 0);
      bufLen, blocksCompressed, bytes := 0, 0, [];
      new;
      PadShape(buf[..], []);
    }

    /** memset(buf, 0) */
    method ClearBuf()
      requires buf.Length == BLOCK_LEN
      modifies buf
      ensures buf[..] == Pad([])
    {
      for i := 0 to BLOCK_LEN
        invariant forall j :: 0 <= j < i ==> buf[j] == 0
      {
        buf[i] := 0;
      }
      PadShape(buf[..], []);
    }

    /** chunk_state_reset */
    method Reset(counter: nat)
      requires Valid()
      modifies this, buf
      ensures Valid() && chunkCounter == counter && bytes == []
    {
      ClearBuf();
      cv, chunkCounter, blocksCompressed, bufLen, bytes := m.key, counter, 0, 0, [];
      hide Pad;
      assert bytes[..0] == [] && bytes[0..] == [];
    }

    /** An empty chunk may still be moved along the message. */
    method Skip(chunks: nat)
      requires Valid() && bytes == []
      modifies this`chunkCounter
      ensures Valid() && chunkCounter == old(chunkCounter) + chunks
    {
      chunkCounter := chunkCounter + chunks;
    }

    /** chunk_state_len */
    function Len(): nat
      reads this
    {
      BLOCK_LEN * blocksCompressed + bufLen
    }

    /** chunk_state_fill_buf: copies what fits into the buffer. */
    method FillBuf(input: seq<Byte>, ghost kept: seq<Byte>) returns (take: nat)
      requires buf.Length == BLOCK_LEN && |kept| == bufLen <= BLOCK_LEN && buf[..] == Pad(kept)
      modifies this`bufLen, buf
      ensures take == (if BLOCK_LEN - |kept| > |input| then |input| else BLOCK_LEN - |kept|)
      ensures bufLen == |kept| + take && buf[..] == Pad(kept + input[..take])
    {
      take := BLOCK_LEN - bufLen;
      if take > |input| {
        take := |input|;
      }
      PadShape(buf[..], kept);
      hide Pad;
      for i := 0 to take
        invariant buf[..bufLen + i] == kept + input[..i]
        invariant forall j :: bufLen + i <= j < BLOCK_LEN ==> buf[j] == 0
        modifies buf
      {
        buf[bufLen + i] := input[i];
      }
      bufLen := bufLen + take;
      PadShape(buf[..], kept + input[..take]);
    }

    /** Compresses one whole block into the chaining value (blake3_compress_in_place with the start flag). */
    method CompressBlock(block: seq<Byte>, ghost done: seq<Byte>)
      requires |block| == BLOCK_LEN && |done| == BLOCK_LEN * blocksCompressed && cv == Chain(m, chunkCounter, done)
      modifies this`cv, this`blocksCompressed
      ensures blocksCompressed == old(blocksCompressed) + 1 && cv == Chain(m, chunkCounter, done + block)
    {
      hide Chain;
      ChainBlock(m, chunkCounter, done, block);
      cv := m.c.compress(cv, block, BLOCK_LEN, chunkCounter, m.flags + StartFlag(blocksCompressed));
      blocksCompressed := blocksCompressed + 1;
    }

    /** The first part of an update: fills the buffer, and empties it if more input follows. */
    method TopUp(input0: seq<Byte>, ghost done0: seq<Byte>, ghost kept0: seq<Byte>)
        returns (input: seq<Byte>, ghost done: seq<Byte>, ghost kept: seq<Byte>)
      requires Holds(done0, kept0)
      modifies this, buf
      ensures Holds(done, kept) && chunkCounter == old(chunkCounter) && bytes == old(bytes)
      ensures done + kept + input == done0 + kept0 + input0
      ensures input == [] || kept == []
      ensures kept == [] && input == [] ==> done == done0 && kept0 == []
    {
      hide Chain, Pad;
      input, done, kept := input0, done0, kept0;
      if bufLen > 0 {
        var take := FillBuf(input, kept);
        kept := kept + input[..take];
        input := input[take..];
        assert done0 + kept0 + input0 == done + kept + input;
        if |input| > 0 {
          PadShape(buf[..], kept);
          CompressBlock(buf[..], done);
          done, kept := done + kept, [];
          bufLen := 0;
          ClearBuf();
        }
      }
    }

    /** chunk_state_update: a full buffer is compressed only when more input follows. */
    method Update(input0: seq<Byte>)
      requires Valid()
      modifies this, buf
      ensures Valid() && bytes == old(bytes) + input0 && chunkCounter == old(chunkCounter)
    {
      hide Chain, Pad;
      ghost var all, n := bytes + input0, BLOCK_LEN * blocksCompressed;
      assert all == bytes[..n] + bytes[n..] + input0;
      var input; ghost var done, kept;
      input, done, kept := TopUp(input0, bytes[..n], bytes[n..]);
      while |input| > BLOCK_LEN
        invariant Holds(done, kept) && (input == [] || kept == [])
        invariant all == done + kept + input
        invariant chunkCounter == old(chunkCounter)
        invariant kept == [] && input == [] ==> all == []
      {
        ghost var block, tail := input[..BLOCK_LEN], input[BLOCK_LEN..];
        Regroup(done, kept, block, tail, input);
        CompressBlock(input[..BLOCK_LEN], done);
        done := done + block;
        input := input[BLOCK_LEN..];
      }
      KeepRest(input, all, done, kept);
    }

    /** The last step of an update: what is left goes into the buffer. */
    method KeepRest(input: seq<Byte>, ghost all: seq<Byte>, ghost done: seq<Byte>, ghost kept: seq<Byte>)
      requires Holds(done, kept) && (input == [] || kept == []) && |input| <= BLOCK_LEN
      requires all == done + kept + input && (kept == [] && input == [] ==> all == [])
      modifies this`bufLen, this`bytes, buf
      ensures Valid() && bytes == all
    {
      hide Chain, Pad;
      var take := FillBuf(input, kept);
      assert input[..take] == input;
      bytes := all;
      assert bytes[..|done|] == done && bytes[|done|..] == kept + input;
    }

    /** chunk_state_output */
    method GetOutput() returns (o: Output)
      requires Valid()
      ensures o == ChunkOutput(m, chunkCounter, bytes)
    {
      hide Chain, Pad, ChunkOutput;
      ghost var n := BLOCK_LEN * blocksCompressed;
      ghost var done, rest := bytes[..n], bytes[n..];
      assert bytes == done + rest && n / BLOCK_LEN == blocksCompressed;
      OutputOfIsChunkOutput(m, chunkCounter, done, rest);
      o := Output(cv, buf[..], bufLen, chunkCounter, m.flags + StartFlag(blocksCompressed) + {ChunkEnd});
    }
  }
}
