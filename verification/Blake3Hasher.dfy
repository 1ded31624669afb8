/** The incremental hasher: any sequence of updates, then output from any position. */
module Blake3Hasher {
  import opened Blake3Bits
  import opened Blake3Tree
  import opened Bytes
  import opened Blake3CvLists
  import opened Blake3Chunk
  import opened Blake3Subtree
  import opened Blake3Stack

  const TWO_TO_64 := 0x1_0000_0000_0000_0000

  lemma MaxChunks()
    ensures Pow2(54) * CHUNK_LEN == TWO_TO_64
  {
    hide Pow2;
    SmallPowers();
    Pow2Add(32, 16);
    Pow2Add(48, 4);
    Pow2Add(52, 2);
  }

  // ----- choosing a subtree -----

  /** n bytes are a full subtree of 2^k chunks. */
  ghost predicate Full(n: nat, k: nat) {
    n == CHUNK_LEN * Pow2(k)
  }

  lemma ChunkPow()
    ensures Pow2(10) == CHUNK_LEN
  {
    hide Pow2;
    SmallPowers();
    Pow2Add(8, 2);
  }

  lemma FullIsPow2(n: nat, k: nat)
    requires n == Pow2(k) && CHUNK_LEN <= n
    ensures 10 <= k && Full(n, k - 10)
  {
    ChunkPow();
    hide Pow2;
    Pow2Monotone(k, 10);
    Pow2Add(10, k - 10);
  }

  /** The mask test on bytes is divisibility of the chunk count. */
  lemma MaskTest(chunks: nat, k: nat)
    requires 10 <= k
    ensures BitAnd(Pow2(k) - 1, chunks * CHUNK_LEN) == 0 <==> Divisible(chunks, k - 10)
    ensures k == 10 ==> Divisible(chunks, k - 10)
  {
    hide Pow2, BitAnd;
    ChunkPow();
    MaskIsDivisible(chunks * CHUNK_LEN, k);
    DivisibleShift(chunks, 10, k - 10);
  }

  /** The length of the next subtree: the largest power of two that fits the input, shrunk until it
      divides the bytes so far. */
  method SubtreeLen(inputLen: nat, chunks: nat) returns (subtreeLen: nat, ghost k: nat)
    requires CHUNK_LEN < inputLen < TWO_TO_64
    ensures Full(subtreeLen, k) && subtreeLen <= inputLen && Divisible(chunks, k)
    ensures forall j: nat :: j > k && CHUNK_LEN * Pow2(j) <= inputLen ==> !Divisible(chunks, j)
  {
    hide Pow2, BitAnd, Divisible;
    ChunkPow();
    subtreeLen := RoundDownToPowerOf2(inputLen);
    ghost var l: nat :| subtreeLen == Pow2(l);
    Pow2Monotone(l, 10);
    Pow2Monotone(10, l);
    FullIsPow2(subtreeLen, l);
    NothingLarger(inputLen, l);
    while BitAnd(subtreeLen - 1, chunks * CHUNK_LEN) != 0
      invariant 10 <= l && subtreeLen == Pow2(l) <= inputLen
      invariant forall j: nat :: j > l - 10 && CHUNK_LEN * Pow2(j) <= inputLen ==> !Divisible(chunks, j)
      decreases subtreeLen
    {
      MaskTest(chunks, l);
      PowHalf(l);
      subtreeLen := subtreeLen / 2;
      l := l - 1;
    }
    MaskTest(chunks, l);
    k := l - 10;
    Pow2Add(10, k);
  }

  lemma PowHalf(l: nat)
    requires l > 0
    ensures Pow2(l) / 2 == Pow2(l - 1) < Pow2(l)
  {
  }

  lemma NothingLarger(inputLen: nat, l: nat)
    requires 10 <= l && inputLen < 2 * Pow2(l)
    ensures forall j: nat :: j > l - 10 ==> inputLen < CHUNK_LEN * Pow2(j)
  {
    ChunkPow();
    hide Pow2;
    forall j: nat | j > l - 10 ensures inputLen < CHUNK_LEN * Pow2(j) {
      Pow2Add(10, j);
      Pow2Monotone(l, j + 10);
    }
  }

  // ----- output -----

  lemma WholeBlock(c: Compression, o: Output, block: nat, i: nat)
    requires i < BLOCK_LEN
    ensures XofByte(c, o, BLOCK_LEN * block + i)
         == c.xof(o.inputCv, o.block, o.blockLen, block, o.flags + {Root})[i]
  {
  }

  /** Copies n bytes of an output block, from offset on, to position `at`. */
  method CopyBlock(c: Compression, o: Output, block: nat, offset: nat, out: array<Byte>, at: nat, n: nat)
    requires offset + n <= BLOCK_LEN && at + n <= out.Length
    modifies out
    ensures forall i :: 0 <= i < at ==> out[i] == old(out[i])
    ensures forall i :: at <= i < at + n ==> out[i] == XofByte(c, o, BLOCK_LEN * block + offset + (i - at))
  {
    hide XofByte;
    var wide := c.xof(o.inputCv, o.block, o.blockLen, block, o.flags + {Root});
    for i := 0 to n
      invariant forall j :: 0 <= j < at ==> out[j] == old(out[j])
      invariant forall j :: at <= j < at + i ==> out[j] == XofByte(c, o, BLOCK_LEN * block + offset + (j - at))
    {
      WholeBlock(c, o, block, offset + i);
      out[at + i] := wide[offset + i];
    }
  }

  /** blake3_xof_many */
  method XofMany(c: Compression, o: Output, block: nat, out: array<Byte>, at: nat, blocks: nat)
    requires at + BLOCK_LEN * blocks <= out.Length
    modifies out
    ensures forall i :: 0 <= i < at ==> out[i] == old(out[i])
    ensures forall i :: at <= i < at + BLOCK_LEN * blocks ==> out[i] == XofByte(c, o, BLOCK_LEN * block + (i - at))
  {
    hide XofByte;
    for b := 0 to blocks
      invariant forall i :: 0 <= i < at ==> out[i] == old(out[i])
      invariant forall i :: at <= i < at + BLOCK_LEN * b ==> out[i] == XofByte(c, o, BLOCK_LEN * block + (i - at))
    {
      CopyBlock(c, o, block + b, 0, out, at + BLOCK_LEN * b, BLOCK_LEN);
    }
  }

  /** output_root_bytes: a part of a block, whole blocks, a part of a block. */
  method OutputRootBytes(c: Compression, o: Output, seek: nat, out: array<Byte>)
    modifies out
    ensures out[..] == RootBytes(c, o, seek, out.Length)
  {
    hide XofByte;
    var block, offset := seek / BLOCK_LEN, seek % BLOCK_LEN;
    var at, left := 0, out.Length;
    if left == 0 {
      return;
    }
    if offset != 0 {
      var available := BLOCK_LEN - offset;
      var n := if left > available then available else left;
      CopyBlock(c, o, block, offset, out, 0, n);
      at, left, block := n, left - n, block + 1;
    }
    assert left > 0 ==> BLOCK_LEN * block == seek + at;
    XofMany(c, o, block, out, at, left / BLOCK_LEN);
    block := block + left / BLOCK_LEN;
    at := at + left / BLOCK_LEN * BLOCK_LEN;
    left := left - left / BLOCK_LEN * BLOCK_LEN;
    if left > 0 {
      CopyBlock(c, o, block, 0, out, at, left);
    }
  }

  // ----- the hasher -----

  class Hasher {
    const m: Mode
    const degree: nat
    const chunk: ChunkState
    const cvStack: array<Cv>
    var cvStackLen: nat
    ghost var sizes: seq<nat>      // chunks under each entry
    ghost var stacked: seq<Byte>   // the bytes under the stack

    /** Everything hashed so far. */
    ghost function Input(): seq<Byte>
      reads this, chunk
    {
      stacked + chunk.bytes
    }

    ghost predicate StackHolds()
      reads this, cvStack
    {
      && cvStack.Length == MAX_STACK && cvStackLen == |sizes| <= MAX_STACK && Lazy(sizes)
      && Entries(m, stacked, cvStack[..cvStackLen], sizes)
    }

    ghost predicate Shape()
      reads this, chunk, chunk.buf, cvStack
    {
      && StackHolds() && chunk.Valid() && chunk.m == m && chunk.chunkCounter == Sum(sizes) && Degree(degree)
      && |stacked| == CHUNK_LEN * Sum(sizes) && (cvStack as object) != (chunk.buf as object)
    }

    /** A partial chunk means every merge is done; without one the top two are still unmerged. */
    ghost predicate Valid()
      reads this, chunk, chunk.buf, cvStack
    {
      && Shape() && |chunk.bytes| <= CHUNK_LEN
      && (chunk.bytes != [] ==> Strict(sizes))
      && (chunk.bytes == [] && sizes != [] ==> 2 <= |sizes|)
    }

    /** hasher_init_base */
    constructor (mode: Mode, simdDegree: nat)
      requires Degree(simdDegree)
      ensures Valid() && m == mode && Input() == [] && fresh(chunk) && fresh(chunk.buf) && fresh(cvStack)
    {
      m, degree := mode, simdDegree;
      chunk := new ChunkState(mode, 0);
      cvStack := new Cv[MAX_STACK](_ => seq(OUT_LEN, _ => 0));
      cvStackLen, sizes, stacked := 0, [], [];
    }

    /** hasher_merge_cv_stack: never reaches below two entries, and leaves one entry per one-bit. */
    method MergeCvStack(totalLen: nat)
      requires StackHolds() && totalLen == Sum(sizes)
      modifies cvStack, this`cvStackLen, this`sizes
      ensures StackHolds() && Strict(sizes) && Sum(sizes) == totalLen && |sizes| == PopCount(totalLen)
      ensures old(Strict(sizes)) ==> sizes == old(sizes)
    {
      hide Lazy, Strict, Entries, Sum, PopCount;
      var postMergeStackLen := PopCnt(totalLen);
      LazyPopCount(sizes);
      while cvStackLen > postMergeStackLen
        invariant StackHolds() && Sum(sizes) == totalLen
        invariant Strict(sizes) <==> cvStackLen <= postMergeStackLen
        invariant old(Strict(sizes)) ==> sizes == old(sizes)
      {
        MergeStep();
        LazyPopCount(sizes);
      }
      StrictPopCount(sizes);
    }

    method MergeStep()
      requires StackHolds() && !Strict(sizes)
      modifies cvStack, this`cvStackLen, this`sizes
      ensures StackHolds() && Sum(sizes) == old(Sum(sizes)) && cvStackLen == old(cvStackLen) - 1
    {
      hide Lazy, Strict, Entries, Sum;
      MergeTopIsLazy(sizes);
      ghost var cvs := cvStack[..cvStackLen];
      MergeEntries(m, stacked, cvs, sizes);
      var o := ParentOutput(m, cvStack[cvStackLen - 2], cvStack[cvStackLen - 1]);
      cvStack[cvStackLen - 2] := CvOf(m.c, o);
      cvStackLen := cvStackLen - 1;
      sizes := MergeTop(sizes);
      assert cvStack[..cvStackLen] == cvs[..|cvs| - 2] + [ParentCv(m, cvs[|cvs| - 2], cvs[|cvs| - 1])];
    }

    /** hasher_push_cv: merges what was due, then puts the new value on top unmerged. */
    method PushCv(newCv: Cv, chunkCounter: nat, ghost more: seq<Byte>, ghost k: nat)
      requires StackHolds() && chunkCounter == Sum(sizes) < Pow2(54)
      requires Full(|more|, k) && Divisible(chunkCounter, k) && newCv == TreeCv(m, chunkCounter, more)
      modifies cvStack, this`cvStackLen, this`sizes, this`stacked
      ensures StackHolds() && stacked == old(stacked) + more
      ensures Sum(sizes) == chunkCounter + Pow2(k) && |sizes| == PopCount(chunkCounter) + 1
      ensures Divisible(chunkCounter, k + 1) ==> Strict(sizes)
    {
      hide Lazy, Strict, Entries, Sum, PopCount, Pow2, TreeCv, Divisible;
      MergeCvStack(chunkCounter);
      PopCountBound(chunkCounter, 54);
      PushIsLazy(sizes, k);
      ghost var cvs := cvStack[..cvStackLen];
      PushEntry(m, stacked, cvs, sizes, more, newCv, Pow2(k));
      cvStack[cvStackLen] := newCv;
      cvStackLen := cvStackLen + 1;
      stacked, sizes := stacked + more, sizes + [Pow2(k)];
      assert cvStack[..cvStackLen] == cvs + [newCv];
    }

    /** One turn of the update loop: pushes the subtree over the input, as one value if it is a single
        chunk and as its two children otherwise. */
    method PushSubtree(input: seq<Byte>, ghost k: nat)
      requires StackHolds() && Degree(degree) && chunk.chunkCounter == Sum(sizes)
      requires Full(|input|, k) && Divisible(Sum(sizes), k) && CHUNK_LEN * Sum(sizes) + |input| < TWO_TO_64
      modifies cvStack, this`cvStackLen, this`sizes, this`stacked
      ensures StackHolds() && stacked == old(stacked) + input && Sum(sizes) == old(Sum(sizes)) + Pow2(k)
      ensures |input| > CHUNK_LEN ==> 2 <= |sizes|
    {
      hide Lazy, Strict, Entries, Sum, PopCount, Pow2, TreeCv, Tree, Divisible, ChunkOutput, LeftLen;
      MaxChunks();
      PowOne(k);
      var counter := chunk.chunkCounter;
      if |input| <= CHUNK_LEN {
        OneChunk(m, counter, input);
        var cv := ChunkCv(m, counter, input);
        PushCv(cv, counter, input, k);
      } else {
        var left, right := CompressSubtreeToParentNode(m, degree, input, counter);
        var half := |input| / CHUNK_LEN / 2;
        HalfTree(|input|, k);
        ghost var l := CHUNK_LEN * half;
        HalfAligned(counter, k);
        PushCv(left, counter, input[..l], k - 1);
        PushCv(right, counter + half, input[l..], k - 1);
        assert stacked == old(stacked) + input by { assert input[..l] + input[l..] == input; }
        PopCountPositive(counter + half);
      }
    }

    /** The first part of an update: completes the chunk in progress. */
    method FinishChunk(input0: seq<Byte>) returns (input: seq<Byte>)
      requires Valid() && input0 != [] && |Input()| + |input0| < TWO_TO_64
      modifies this`cvStackLen, this`sizes, this`stacked, cvStack, chunk, chunk.buf
      ensures Shape() && Input() + input == old(Input()) + input0
      ensures input != [] ==> chunk.bytes == []
      ensures input == [] ==> Valid()
    {
      hide Lazy, Strict, Entries, Sum, PopCount, Pow2, Tree, ChunkOutput, ChunkState.Holds;
      input := input0;
      if chunk.Len() > 0 {
        var take := CHUNK_LEN - chunk.Len();
        if take > |input| {
          take := |input|;
        }
        chunk.Update(input[..take]);
        input := input[take..];
        assert Input() + input == old(Input()) + input0;
        if |input| > 0 {
          var o := chunk.GetOutput();
          PushWholeChunk(CvOf(m.c, o));
          chunk.Reset(chunk.chunkCounter + 1);
        }
      }
    }

    /** Pushes the completed chunk in progress. */
    method PushWholeChunk(cv: Cv)
      requires Shape() && |chunk.bytes| == CHUNK_LEN && |Input()| < TWO_TO_64
      requires cv == CvOf(m.c, ChunkOutput(m, chunk.chunkCounter, chunk.bytes))
      modifies cvStack, this`cvStackLen, this`sizes, this`stacked
      ensures StackHolds() && stacked == old(Input()) && Sum(sizes) == old(Sum(sizes)) + 1
    {
      hide Lazy, Strict, Entries, Sum, PopCount, Tree, ChunkOutput, ChunkState.Holds;
      MaxChunks();
      PowOne(0);
      OneChunk(m, chunk.chunkCounter, chunk.bytes);
      PushCv(cv, chunk.chunkCounter, chunk.bytes, 0);
    }

    /** blake3_hasher_update */
    method Update(input0: seq<Byte>)
      requires Valid() && |Input()| + |input0| < TWO_TO_64
      modifies this`cvStackLen, this`sizes, this`stacked, cvStack, chunk, chunk.buf
      ensures Valid() && Input() == old(Input()) + input0
    {
      hide Lazy, Strict, Entries, Sum, PopCount, Pow2, Tree, Divisible, ChunkState.Holds;
      if input0 == [] {
        assert old(Input()) + [] == old(Input());
        return;
      }
      var input := FinishChunk(input0);
      if input == [] {
        assert Input() + [] == Input();
        return;
      }
      ghost var all := Input() + input;
      while |input| > CHUNK_LEN
        invariant Shape() && chunk.bytes == [] && Input() + input == all
        invariant input == [] ==> 2 <= |sizes|
      {
        input := UpdateStep(input);
      }
      UpdateRest(input);
    }

    /** The last part of an update: what is left starts the next chunk, and then every merge is done. */
    method UpdateRest(input: seq<Byte>)
      requires Shape() && chunk.bytes == [] && |input| <= CHUNK_LEN && (input == [] ==> 2 <= |sizes|)
      modifies this`cvStackLen, this`sizes, cvStack, chunk, chunk.buf
      ensures Valid() && Input() == old(Input()) + input
    {
      hide Lazy, Strict, Entries, Sum, PopCount, Pow2, Tree, Divisible, ChunkState.Holds;
      if |input| > 0 {
        assert [] + input == input;
        chunk.Update(input);
        MergeCvStack(chunk.chunkCounter);
      } else {
        assert Input() + input == Input();
      }
    }

    /** One turn of the loop. */
    method UpdateStep(input0: seq<Byte>) returns (input: seq<Byte>)
      requires Shape() && chunk.bytes == [] && |input0| > CHUNK_LEN && |Input()| + |input0| < TWO_TO_64
      modifies this`cvStackLen, this`sizes, this`stacked, cvStack, chunk`chunkCounter
      ensures Shape() && chunk.bytes == [] && Input() + input == old(Input()) + input0 && |input| < |input0|
      ensures input == [] ==> 2 <= |sizes|
    {
      hide Lazy, Strict, Entries, Sum, PopCount, Pow2, Tree, Divisible, ChunkState.Holds;
      var subtreeLen; ghost var k;
      subtreeLen, k := SubtreeLen(|input0|, chunk.chunkCounter);
      PowOne(k);
      assert old(Input()) + input0 == (stacked + input0[..subtreeLen]) + input0[subtreeLen..];
      PushSubtree(input0[..subtreeLen], k);
      chunk.Skip(subtreeLen / CHUNK_LEN);
      input := input0[subtreeLen..];
      assert Input() == stacked;
    }

    /** blake3_hasher_finalize_seek: for any position and length, the bytes of the whole tree's root. */
    method FinalizeSeek(seek: nat, out: array<Byte>)
      requires Valid() && out != chunk.buf
      modifies out
      ensures out[..] == RootBytes(m.c, Tree(m, 0, Input()), seek, out.Length)
    {
      if out.Length == 0 {
        return;
      }
      var o := RootOutput();
      OutputRootBytes(m.c, o, seek, out);
    }

    method RootOutput() returns (o: Output)
      requires Valid()
      ensures o == Tree(m, 0, Input())
    {
      hide Lazy, Strict, Entries, Sum, PopCount, Pow2, Tree, Divisible, ChunkOutput, ChunkState.Holds, Rolling, ParentOutput, CvOf;
      if cvStackLen == 0 {
        o := chunk.GetOutput();
        RootIsChunk(m, stacked, chunk.bytes, sizes);
        return;
      }
      ghost var bytes := Input();
      var remaining: nat;
      if chunk.Len() > 0 {
        remaining := cvStackLen;
        o := chunk.GetOutput();
        RollFromChunk(m, stacked, chunk.bytes, cvStack[..cvStackLen], sizes, o);
      } else {
        remaining := cvStackLen - 2;
        o := ParentOutput(m, cvStack[remaining], cvStack[remaining + 1]);
        RollFromPair(m, stacked, cvStack[..cvStackLen], sizes);
        assert cvStack[..cvStackLen][..remaining] == cvStack[..remaining];
        assert stacked + [] == stacked;
      }
      while remaining > 0
        invariant remaining <= cvStackLen && Rolling(m, bytes, cvStack[..remaining], sizes, o)
      {
        ghost var cvs := cvStack[..remaining];
        RollStep(m, bytes, cvs, sizes, o);
        remaining := remaining - 1;
        o := ParentOutput(m, cvStack[remaining], CvOf(m.c, o));
        assert cvStack[..remaining] == cvs[..|cvs| - 1];
      }
      assert cvStack[..remaining] == [];
      Rolled(m, bytes, sizes, o);
    }

    /** blake3_hasher_reset */
    method Reset()
      requires Valid()
      modifies this`cvStackLen, this`sizes, this`stacked, chunk, chunk.buf
      ensures Valid() && Input() == []
    {
      chunk.Reset(0);
      cvStackLen, sizes, stacked := 0, [], [];
    }
  }

  lemma OneChunk(m: Mode, counter: nat, bytes: seq<Byte>)
    requires |bytes| <= CHUNK_LEN
    ensures TreeCv(m, counter, bytes) == CvOf(m.c, ChunkOutput(m, counter, bytes))
  {
    hide ChunkOutput, CvOf;
  }

  lemma PowOne(k: nat)
    ensures 1 <= Pow2(k) && (k == 0 <==> Pow2(k) == 1) && (k > 0 ==> Pow2(k) == 2 * Pow2(k - 1))
  {
  }

  lemma HalfTree(n: nat, k: nat)
    requires Full(n, k) && k > 0
    ensures Full(n / 2, k - 1) && LeftLen(n) == n / 2 == CHUNK_LEN * (n / CHUNK_LEN / 2)
    ensures n / CHUNK_LEN / 2 == Pow2(k - 1)
  {
    assert IsPow2(Pow2(k - 1));
    LeftLenIs(n, Pow2(k - 1));
  }

  lemma HalfAligned(counter: nat, k: nat)
    requires k > 0 && Divisible(counter, k)
    ensures Divisible(counter, k - 1) && Divisible(counter + Pow2(k - 1), k - 1)
  {
    DivisibleLower(counter, k - 1, k);
    Pow2Divisible(k - 1, k - 1);
    DivisibleAdd(counter, Pow2(k - 1), k - 1);
  }
  // ----- roll-up -----

  /** The remaining entries are below the output, which covers the rest of the bytes. */
  ghost predicate Rolling(m: Mode, bytes: seq<Byte>, cvs: seq<Cv>, sizes: seq<nat>, o: Output) {
    && Powers(sizes) && RolledUp(m, bytes, sizes, |cvs|, o) && Decreasing(sizes[..|cvs|])
    && Entries(m, bytes[..CHUNK_LEN * Sum(sizes[..|cvs|])], cvs, sizes[..|cvs|])
  }

  lemma RollStep(m: Mode, bytes: seq<Byte>, cvs: seq<Cv>, sizes: seq<nat>, o: Output)
    requires Rolling(m, bytes, cvs, sizes, o) && cvs != []
    ensures Rolling(m, bytes, cvs[..|cvs| - 1], sizes, ParentOutput(m, cvs[|cvs| - 1], CvOf(m.c, o)))
  {
    hide Entries, RolledUp, Sum;
    var r := |cvs|;
    RolledBounds(m, bytes, sizes, r, o);
    RollUp(m, bytes, cvs, sizes, r, o);
    assert sizes[..r][..r - 1] == sizes[..r - 1];
    DecreasingPrefix(sizes[..r], r - 1);
  }

  lemma DecreasingPrefix(sizes: seq<nat>, n: nat)
    requires Decreasing(sizes) && n <= |sizes|
    ensures Decreasing(sizes[..n])
  {
  }

  lemma RolledBounds(m: Mode, bytes: seq<Byte>, sizes: seq<nat>, r: nat, o: Output)
    requires RolledUp(m, bytes, sizes, r, o)
    ensures r <= |sizes| && CHUNK_LEN * Sum(sizes[..r]) < |bytes|
  {
  }

  lemma Rolled(m: Mode, bytes: seq<Byte>, sizes: seq<nat>, o: Output)
    requires Rolling(m, bytes, [], sizes, o)
    ensures o == Tree(m, 0, bytes)
  {
    hide Tree;
    assert sizes[..0] == [] && bytes[0..] == bytes;
  }

  lemma RootIsChunk(m: Mode, stacked: seq<Byte>, last: seq<Byte>, sizes: seq<nat>)
    requires |stacked| == CHUNK_LEN * Sum(sizes) && sizes == [] && |last| <= CHUNK_LEN
    ensures ChunkOutput(m, Sum(sizes), last) == Tree(m, 0, stacked + last)
  {
    hide ChunkOutput;
    assert stacked + last == last;
  }

  lemma RollFromChunk(m: Mode, stacked: seq<Byte>, last: seq<Byte>, cvs: seq<Cv>, sizes: seq<nat>, o: Output)
    requires Entries(m, stacked, cvs, sizes) && Strict(sizes) && 0 < |last| <= CHUNK_LEN
    requires |stacked| == CHUNK_LEN * Sum(sizes) && |cvs| == |sizes|
    requires o == ChunkOutput(m, Sum(sizes), last)
    ensures Rolling(m, stacked + last, cvs, sizes, o)
  {
    hide Entries, ChunkOutput, Sum;
    var bytes, n := stacked + last, CHUNK_LEN * Sum(sizes);
    assert sizes[..|sizes|] == sizes;
    assert bytes[..n] == stacked && bytes[n..] == last;
  }

  lemma RollFromPair(m: Mode, bytes: seq<Byte>, cvs: seq<Cv>, sizes: seq<nat>)
    requires Entries(m, bytes, cvs, sizes) && Lazy(sizes) && 2 <= |sizes| == |cvs|
    ensures Rolling(m, bytes, cvs[..|cvs| - 2], sizes, ParentOutput(m, cvs[|cvs| - 2], cvs[|cvs| - 1]))
  {
    hide Entries, Tree, Sum, ParentOutput;
    TopTwo(m, bytes, cvs, sizes);
    var n := |sizes| - 2;
    Pow2Double(sizes[n]);
    if n > 0 {
      assert sizes[..n + 1][n - 1] > sizes[..n + 1][n];
      Pow2Gap(sizes[n], sizes[n - 1]);
    }
    assert sizes[..n + 1][..n] == sizes[..n];
    DecreasingPrefix(sizes[..n + 1], n);
  }

  // ----- the law: cutting does not matter -----

  /** A message handed over in any pieces hashes to the tree over the whole message. */
  method HashPieces(m: Mode, degree: nat, pieces: seq<seq<Byte>>, seek: nat, n: nat) returns (digest: seq<Byte>)
    requires Degree(degree) && |Concat(pieces)| < TWO_TO_64
    ensures digest == RootBytes(m.c, Tree(m, 0, Concat(pieces)), seek, n)
  {
    hide Tree, RootBytes, Hasher.Shape;
    var h := new Hasher(m, degree);
    assert pieces[..0] == [];
    for i := 0 to |pieces|
      invariant h.Valid() && h.m == m && h.Input() == Concat(pieces[..i])
      invariant fresh(h) && fresh(h.chunk) && fresh(h.chunk.buf) && fresh(h.cvStack)
    {
      ConcatGrows(pieces, i);
      h.Update(pieces[i]);
    }
    assert pieces[..|pieces|] == pieces;
    var out := new Byte[n];
    h.FinalizeSeek(seek, out);
    digest := out[..];
  }
}
