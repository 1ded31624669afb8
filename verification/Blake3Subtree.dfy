/** Compressing a whole subtree with SIMD width: many chunks or parents at a time, condensed to the
    chaining values of the two children. */
module Blake3Subtree {
  import opened Blake3Bits
  import opened Blake3Tree
  import opened Bytes
  import opened Blake3CvLists
  import opened Blake3Chunk

  const MAX_SIMD_DEGREE := 16

  // ----- hashing many inputs -----

  /** Chaining value after whole blocks, the first of them flagged. */
  ghost function Fed(m: Mode, start: set<Flag>, counter: nat, bytes: seq<Byte>): Words {
    if |bytes| < BLOCK_LEN then m.key
    else m.c.compress(Fed(m, start, counter, bytes[..|bytes| - BLOCK_LEN]), bytes[|bytes| - BLOCK_LEN..], BLOCK_LEN,
                      counter, m.flags + (if |bytes| < 2 * BLOCK_LEN then start else {}))
  }

  /** What hash_one computes: the last block carries the end flag. */
  ghost function HashOneCv(m: Mode, start: set<Flag>, end: set<Flag>, counter: nat, bytes: seq<Byte>): Cv {
    if |bytes| < BLOCK_LEN then m.c.store(m.key)
    else
      var n := |bytes| - BLOCK_LEN;
      m.c.store(m.c.compress(Fed(m, start, counter, bytes[..n]), bytes[n..], BLOCK_LEN, counter,
                             m.flags + (if n == 0 then start else {}) + end))
  }

  lemma {:induction false} FedIsChain(m: Mode, counter: nat, bytes: seq<Byte>)
    requires |bytes| % BLOCK_LEN == 0
    ensures Fed(m, {ChunkStart}, counter, bytes) == Chain(m, counter, bytes)
    decreases |bytes|
  {
    if BLOCK_LEN <= |bytes| {
      FedIsChain(m, counter, bytes[..|bytes| - BLOCK_LEN]);
    }
  }

  /** Sixteen blocks with the chunk flags make a chunk. */
  lemma HashOneChunk(m: Mode, counter: nat, bytes: seq<Byte>)
    requires |bytes| == CHUNK_LEN
    ensures HashOneCv(m, {ChunkStart}, {ChunkEnd}, counter, bytes) == TreeCv(m, counter, bytes)
  {
    hide Fed, Chain;
    FedIsChain(m, counter, bytes[..CHUNK_LEN - BLOCK_LEN]);
    assert Pad(bytes[CHUNK_LEN - BLOCK_LEN..]) == bytes[CHUNK_LEN - BLOCK_LEN..];
  }

  /** One block with the parent flag makes a parent. */
  lemma HashOneParent(m: Mode, left: Cv, right: Cv)
    ensures HashOneCv(m.(flags := m.flags + {Parent}), {}, {}, 0, ParentBlock(left, right)) == ParentCv(m, left, right)
  {
    var block := ParentBlock(left, right);
    assert block[0..] == block && block[..0] == [];
    assert m.flags + {Parent} + {} + {} == m.flags + {Parent};
  }

  /** The words after k bytes: still a chain, or the finished value. */
  ghost predicate Feeding(m: Mode, start: set<Flag>, end: set<Flag>, counter: nat, bytes: seq<Byte>, k: nat,
                          words: Words)
  {
    && k <= |bytes| && k % BLOCK_LEN == |bytes| % BLOCK_LEN == 0
    && if k == |bytes| then m.c.store(words) == HashOneCv(m, start, end, counter, bytes)
       else words == Fed(m, start, counter, bytes[..k])
  }

  lemma FeedBlock(m: Mode, start: set<Flag>, end: set<Flag>, counter: nat, bytes: seq<Byte>, k: nat, words: Words)
    requires Feeding(m, start, end, counter, bytes, k, words) && k < |bytes|
    ensures k + BLOCK_LEN <= |bytes|
    ensures var flags := m.flags + (if k == 0 then start else {}) + (if k + BLOCK_LEN == |bytes| then end else {});
            Feeding(m, start, end, counter, bytes, k + BLOCK_LEN,
                    m.c.compress(words, bytes[k..k + BLOCK_LEN], BLOCK_LEN, counter, flags))
  {
    hide Fed;
    FlagsOf(m.flags + (if k == 0 then start else {}));
    if k + BLOCK_LEN == |bytes| {
      LastBlock(m, start, end, counter, bytes, k);
    } else {
      FedBlock(m, start, counter, bytes, k);
    }
    hide HashOneCv;
  }

  lemma LastBlock(m: Mode, start: set<Flag>, end: set<Flag>, counter: nat, bytes: seq<Byte>, k: nat)
    requires k + BLOCK_LEN == |bytes|
    ensures HashOneCv(m, start, end, counter, bytes)
         == m.c.store(m.c.compress(Fed(m, start, counter, bytes[..k]), bytes[k..k + BLOCK_LEN], BLOCK_LEN, counter,
                                   m.flags + (if k == 0 then start else {}) + end))
  {
    hide Fed;
    assert bytes[k..k + BLOCK_LEN] == bytes[k..];
  }

  lemma FedBlock(m: Mode, start: set<Flag>, counter: nat, bytes: seq<Byte>, k: nat)
    requires k + BLOCK_LEN <= |bytes| && k % BLOCK_LEN == 0
    ensures Fed(m, start, counter, bytes[..k + BLOCK_LEN])
         == m.c.compress(Fed(m, start, counter, bytes[..k]), bytes[k..k + BLOCK_LEN], BLOCK_LEN, counter,
                         m.flags + if k == 0 then start else {})
  {
    FedAppend(m, start, counter, bytes[..k], bytes[k..k + BLOCK_LEN]);
    hide Fed;
    assert bytes[..k + BLOCK_LEN] == bytes[..k] + bytes[k..k + BLOCK_LEN];
  }

  lemma FedAppend(m: Mode, start: set<Flag>, counter: nat, done: seq<Byte>, block: seq<Byte>)
    requires |done| % BLOCK_LEN == 0 && |block| == BLOCK_LEN
    ensures Fed(m, start, counter, done + block)
         == m.c.compress(Fed(m, start, counter, done), block, BLOCK_LEN, counter,
                         m.flags + if |done| == 0 then start else {})
  {
    var all := done + block;
    assert all[..|all| - BLOCK_LEN] == done && all[|all| - BLOCK_LEN..] == block;
  }

  /** hash_one_portable */
  method HashOne(m: Mode, input0: seq<Byte>, counter: nat, start: set<Flag>, end: set<Flag>) returns (cv: Cv)
    requires |input0| % BLOCK_LEN == 0
    ensures cv == HashOneCv(m, start, end, counter, input0)
  {
    assert input0[..0] == [];
    var words, input, blocks, blockFlags := m.key, input0, |input0| / BLOCK_LEN, m.flags + start;
    ghost var k := 0;
    assert Feeding(m, start, end, counter, input0, k, words);
    hide Feeding, HashOneCv;
    while blocks > 0
      invariant k + |input| == |input0| && |input| == BLOCK_LEN * blocks && input == input0[k..]
      invariant Feeding(m, start, end, counter, input0, k, words)
      invariant blockFlags == m.flags + if k == 0 then start else {}
    {
      if blocks == 1 {
        blockFlags := blockFlags + end;
      }
      FeedBlock(m, start, end, counter, input0, k, words);
      FlagsOf(m.flags + if k == 0 then start else {});
      assert input[..BLOCK_LEN] == input0[k..k + BLOCK_LEN];
      words := m.c.compress(words, input[..BLOCK_LEN], BLOCK_LEN, counter, blockFlags);
      input, blocks, blockFlags := input[BLOCK_LEN..], blocks - 1, m.flags;
      k := k + BLOCK_LEN;
      FlagsOf(m.flags);
    }
    Finished(m, start, end, counter, input0, words);
    cv := m.c.store(words);
  }

  lemma FlagsOf(flags: set<Flag>)
    ensures flags + {} == flags
  {
  }

  lemma Finished(m: Mode, start: set<Flag>, end: set<Flag>, counter: nat, bytes: seq<Byte>, words: Words)
    requires Feeding(m, start, end, counter, bytes, |bytes|, words)
    ensures m.c.store(words) == HashOneCv(m, start, end, counter, bytes)
  {
  }

  /** blake3_hash_many_portable */
  method HashMany(m: Mode, inputs: seq<seq<Byte>>, counter: nat, increment: bool, start: set<Flag>, end: set<Flag>,
                  out: array<Cv>, pos: nat)
    requires forall i :: 0 <= i < |inputs| ==> |inputs[i]| % BLOCK_LEN == 0
    requires pos + |inputs| <= out.Length
    modifies out
    ensures forall i :: 0 <= i < |inputs| ==>
              out[pos + i] == HashOneCv(m, start, end, if increment then counter + i else counter, inputs[i])
    ensures forall j :: 0 <= j < out.Length && (j < pos || pos + |inputs| <= j) ==> out[j] == old(out[j])
  {
    hide HashOneCv;
    var c := counter;
    for i := 0 to |inputs|
      invariant c == if increment then counter + i else counter
      invariant forall j :: 0 <= j < i ==>
                  out[pos + j] == HashOneCv(m, start, end, if increment then counter + j else counter, inputs[j])
      invariant forall j :: 0 <= j < out.Length && (j < pos || pos + i <= j) ==> out[j] == old(out[j])
    {
      out[pos + i] := HashOne(m, inputs[i], c, start, end);
      if increment {
        c := c + 1;
      }
    }
  }

  // ----- chunks and parents in parallel -----

  /** The bytes of chunk i, which may be the last and partial one. */
  function Chunk(bytes: seq<Byte>, i: nat): seq<Byte>
    requires CHUNK_LEN * i <= |bytes|
  {
    if CHUNK_LEN * (i + 1) <= |bytes| then bytes[CHUNK_LEN * i..CHUNK_LEN * (i + 1)] else bytes[CHUNK_LEN * i..]
  }

  lemma ChunkOfRest(bytes: seq<Byte>, i: nat)
    requires 0 < i && CHUNK_LEN * i <= |bytes|
    ensures Chunk(bytes, i) == Chunk(bytes[CHUNK_LEN..], i - 1)
  {
  }

  lemma ChunkCvsFront(m: Mode, counter: nat, bytes: seq<Byte>)
    ensures ChunkCvs(m, counter, bytes)
         == [TreeCv(m, counter, Chunk(bytes, 0))] + if |bytes| <= CHUNK_LEN then [] else ChunkCvs(m, counter + 1, bytes[CHUNK_LEN..])
  {
    hide TreeCv;
    assert |bytes| <= CHUNK_LEN ==> Chunk(bytes, 0) == bytes;
  }

  lemma MoreChunks(n: nat, i: nat)
    requires 0 < i < Chunks(n)
    ensures CHUNK_LEN < n && i - 1 < Chunks(n - CHUNK_LEN) && CHUNK_LEN * i <= n
  {
  }

  lemma {:induction false} ChunkCvsAt(m: Mode, counter: nat, bytes: seq<Byte>, i: nat)
    requires i < Chunks(|bytes|)
    ensures |ChunkCvs(m, counter, bytes)| == Chunks(|bytes|) && CHUNK_LEN * i <= |bytes|
    ensures ChunkCvs(m, counter, bytes)[i] == TreeCv(m, counter + i, Chunk(bytes, i))
    decreases |bytes|
  {
    hide TreeCv, ChunkCvs, Chunk, Chunks;
    ChunkCvsLength(m, counter, bytes);
    ChunkCvsFront(m, counter, bytes);
    if i > 0 {
      MoreChunks(|bytes|, i);
      ChunkCvsAt(m, counter + 1, bytes[CHUNK_LEN..], i - 1);
      ChunkOfRest(bytes, i);
    }
  }

  lemma {:induction false} PairUpAt(m: Mode, cvs: seq<Cv>, i: nat)
    requires i < (|cvs| + 1) / 2
    ensures PairUp(m, cvs)[i] == if 2 * i + 1 < |cvs| then ParentCv(m, cvs[2 * i], cvs[2 * i + 1]) else cvs[2 * i]
    decreases |cvs|
  {
    hide ParentCv;
    if 2 <= |cvs| && i > 0 {
      PairUpAt(m, cvs[2..], i - 1);
    }
  }

  /** The whole chunks at the front of the input. */
  method WholeChunks(input: seq<Byte>) returns (chunks: seq<seq<Byte>>)
    ensures |chunks| == |input| / CHUNK_LEN
    ensures forall i :: 0 <= i < |chunks| ==> chunks[i] == input[CHUNK_LEN * i..CHUNK_LEN * (i + 1)]
  {
    chunks := [];
    var position := 0;
    while |input| - position >= CHUNK_LEN
      invariant position == CHUNK_LEN * |chunks| <= |input|
      invariant forall i :: 0 <= i < |chunks| ==> chunks[i] == input[CHUNK_LEN * i..CHUNK_LEN * (i + 1)]
    {
      chunks := chunks + [input[position..position + CHUNK_LEN]];
      position := position + CHUNK_LEN;
    }
  }

  /** Slot j of the output holds the chaining value of chunk i. */
  ghost predicate IsChunkCv(m: Mode, counter: nat, input: seq<Byte>, i: nat, cv: Cv) {
    i < Chunks(|input|) && |ChunkCvs(m, counter, input)| == Chunks(|input|) && cv == ChunkCvs(m, counter, input)[i]
  }

  lemma WholeChunkCv(m: Mode, counter: nat, input: seq<Byte>, i: nat)
    requires CHUNK_LEN * (i + 1) <= |input|
    ensures IsChunkCv(m, counter, input, i,
                      HashOneCv(m, {ChunkStart}, {ChunkEnd}, counter + i, input[CHUNK_LEN * i..CHUNK_LEN * (i + 1)]))
  {
    hide HashOneCv, TreeCv, ChunkCvs;
    ChunkCvsAt(m, counter, input, i);
    HashOneChunk(m, counter + i, input[CHUNK_LEN * i..CHUNK_LEN * (i + 1)]);
  }

  lemma LastChunkCv(m: Mode, counter: nat, input: seq<Byte>, i: nat)
    requires CHUNK_LEN * i < |input| < CHUNK_LEN * (i + 1)
    ensures IsChunkCv(m, counter, input, i, CvOf(m.c, ChunkOutput(m, counter + i, input[CHUNK_LEN * i..])))
  {
    hide HashOneCv, ChunkCvs, ChunkOutput, CvOf;
    ChunkCvsAt(m, counter, input, i);
  }

  /** The chaining value of a partial chunk, through a chunk state of its own. */
  method ChunkCv(m: Mode, counter: nat, bytes: seq<Byte>) returns (cv: Cv)
    ensures cv == CvOf(m.c, ChunkOutput(m, counter, bytes))
  {
    hide ChunkOutput;
    var state := new ChunkState(m, counter);
    state.Update(bytes);
    assert [] + bytes == bytes;
    var o := state.GetOutput();
    cv := CvOf(m.c, o);
  }

  /** compress_chunks_parallel */
  method CompressChunksParallel(m: Mode, input: seq<Byte>, counter: nat, out: array<Cv>, pos: nat) returns (n: nat)
    requires input != [] && pos + Chunks(|input|) <= out.Length
    modifies out
    ensures n == Chunks(|input|) && out[pos..pos + n] == ChunkCvs(m, counter, input)
    ensures forall j :: 0 <= j < out.Length && (j < pos || pos + n <= j) ==> out[j] == old(out[j])
  {
    hide ChunkCvs, HashOneCv, TreeCv, ChunkOutput;
    var chunks := WholeChunks(input);
    n := |chunks|;
    HashMany(m, chunks, counter, true, {ChunkStart}, {ChunkEnd}, out, pos);
    ghost var cvs := out[pos..pos + n];
    forall i | 0 <= i < n ensures IsChunkCv(m, counter, input, i, cvs[i]) {
      WholeChunkCv(m, counter, input, i);
      assert cvs[i] == out[pos + i] && chunks[i] == input[CHUNK_LEN * i..CHUNK_LEN * (i + 1)];
    }
    hide IsChunkCv;
    if |input| > CHUNK_LEN * n {
      var cv := ChunkCv(m, counter + n, input[CHUNK_LEN * n..]);
      LastChunkCv(m, counter, input, n);
      out[pos + n] := cv;
      n := n + 1;
      cvs := cvs + [cv];
    }
    assert out[pos..pos + n] == cvs;
    AllChunkCvs(m, counter, input, cvs);
  }

  lemma AllChunkCvs(m: Mode, counter: nat, input: seq<Byte>, cvs: seq<Cv>)
    requires input != [] && |cvs| == Chunks(|input|)
    requires forall i :: 0 <= i < |cvs| ==> IsChunkCv(m, counter, input, i, cvs[i])
    ensures cvs == ChunkCvs(m, counter, input)
  {
    hide ChunkCvs;
    assert IsChunkCv(m, counter, input, 0, cvs[0]);
  }

  /** compress_parents_parallel */
  method CompressParentsParallel(m: Mode, cvs: array<Cv>, num: nat, out: array<Cv>, pos: nat) returns (n: nat)
    requires 2 <= num <= cvs.Length && pos + (num + 1) / 2 <= out.Length && cvs != out
    modifies out
    ensures n == (num + 1) / 2 && out[pos..pos + n] == PairUp(m, cvs[..num])
    ensures forall j :: 0 <= j < out.Length && (j < pos || pos + n <= j) ==> out[j] == old(out[j])
  {
    hide PairUp, HashOneCv, ParentCv;
    var parents: seq<seq<Byte>> := [];
    while num - 2 * |parents| >= 2
      invariant 2 * |parents| <= num
      invariant forall i :: 0 <= i < |parents| ==> parents[i] == ParentBlock(cvs[2 * i], cvs[2 * i + 1])
    {
      parents := parents + [ParentBlock(cvs[2 * |parents|], cvs[2 * |parents| + 1])];
    }
    n := |parents|;
    HashMany(m.(flags := m.flags + {Parent}), parents, 0, false, {}, {}, out, pos);
    if num > 2 * n {
      out[pos + n] := cvs[2 * n];
      n := n + 1;
    }
    forall i | 0 <= i < n ensures out[pos + i] == PairUp(m, cvs[..num])[i] {
      PairUpAt(m, cvs[..num], i);
      if 2 * i + 1 < num {
        HashOneParent(m, cvs[2 * i], cvs[2 * i + 1]);
      }
    }
  }

  // ----- subtrees -----

  function Width(degree: nat, chunks: nat): nat {
    var d := if degree < 2 then 2 else degree;
    if chunks < d then chunks else d
  }

  /** The list stands for the input, is no wider than the SIMD degree (but at least two), and is
      exactly that wide for a full power-of-two tree. */
  ghost predicate IsWide(m: Mode, degree: nat, cvs: seq<Cv>, counter: nat, input: seq<Byte>) {
    && Represents(m, cvs, counter, input)
    && 0 < |cvs| <= Width(degree, Chunks(|input|))
    && (|input| % CHUNK_LEN == 0 && IsPow2(|input| / CHUNK_LEN) ==> |cvs| == Width(degree, Chunks(|input|)))
  }

  ghost predicate Degree(d: nat) {
    d == 1 || d == 4 || d == 8 || d == 16
  }

  lemma DegreeIsPow2(d: nat)
    requires Degree(d)
    ensures IsPow2(d) && IsPow2(2)
  {
    SmallPowers();
    assert Pow2(3) == 8;
  }

  /** Above the degree, the left half is a full tree of at least that many chunks, and the right one
      has no more. */
  lemma HalvesAboveDegree(degree: nat, n: nat)
    requires Degree(degree) && degree * CHUNK_LEN < n
    ensures var l := LeftLen(n);
            && l % CHUNK_LEN == 0 && IsPow2(l / CHUNK_LEN) && Chunks(l) == l / CHUNK_LEN
            && degree <= Chunks(l) && 0 < Chunks(n - l) <= Chunks(l)
  {
    DegreeIsPow2(degree);
    ChunksOfHalves(n);
    var l := LeftLen(n);
    hide LeftLen, IsPow2;
    if Chunks(l) < degree {
      Pow2Gap(Chunks(l), degree);
    }
  }

  /** A full tree splits into two full trees. */
  lemma FullHalves(n: nat)
    requires CHUNK_LEN < n && n % CHUNK_LEN == 0 && IsPow2(n / CHUNK_LEN)
    ensures LeftLen(n) == n / 2 && (n / 2) % CHUNK_LEN == 0 && IsPow2(n / 2 / CHUNK_LEN)
  {
    Pow2Half(n / CHUNK_LEN);
    hide IsPow2;
    LeftLenIs(n, n / CHUNK_LEN / 2);
  }

  lemma LeftWidth(m: Mode, degree: nat, left: seq<Cv>, counter: nat, input: seq<Byte>)
    requires Degree(degree) && degree * CHUNK_LEN < |input|
    requires IsWide(m, degree, left, counter, input[..LeftLen(|input|)])
    ensures |left| == if LeftLen(|input|) > CHUNK_LEN && degree == 1 then 2 else degree
  {
    hide Represents, LeftLen, IsPow2;
    HalvesAboveDegree(degree, |input|);
  }

  /** Condensing the two halves keeps the list wide. */
  lemma WideFromHalves(m: Mode, degree: nat, left: seq<Cv>, right: seq<Cv>, counter: nat, input: seq<Byte>)
    requires Degree(degree) && degree * CHUNK_LEN < |input|
    requires var l := LeftLen(|input|);
             && IsWide(m, degree, left, counter, input[..l])
             && IsWide(m, degree, right, counter + l / CHUNK_LEN, input[l..])
    ensures 0 < |right| <= |left| <= MAX_SIMD_DEGREE
    ensures if |left| == 1 then |right| == 1 && IsWide(m, degree, left + right, counter, input)
            else IsWide(m, degree, PairUp(m, left + right), counter, input)
  {
    hide Represents, LeftLen, IsPow2, PairUp;
    var l := LeftLen(|input|);
    HalvesAboveDegree(degree, |input|);
    DegreeIsPow2(degree);
    Joined(m, left, right, counter, input);
    if |left| != 1 {
      PairUpRepresents(m, left + right, counter, input);
    }
    if |input| % CHUNK_LEN == 0 && IsPow2(|input| / CHUNK_LEN) {
      FullHalves(|input|);
    }
  }

  lemma ChunksAreWide(m: Mode, degree: nat, counter: nat, input: seq<Byte>)
    requires Degree(degree) && input != [] && |input| <= degree * CHUNK_LEN
    ensures IsWide(m, degree, ChunkCvs(m, counter, input), counter, input)
  {
    hide Represents, ChunkCvs;
    ChunkCvsRepresent(m, counter, input);
    ChunkCvsLength(m, counter, input);
  }

  /** left_subtree_len */
  method LeftSubtreeLen(n: nat) returns (l: nat)
    requires CHUNK_LEN < n < 0x1_0000_0000_0000_0000
    ensures l == LeftLen(n)
  {
    var p := RoundDownToPowerOf2((n - 1) / CHUNK_LEN);
    l := p * CHUNK_LEN;
    LeftLenIs(n, p);
  }

  /** The last step of the wide function: one layer of parents, unless that would make the root. */
  method Condense(m: Mode, degree: nat, cvs: array<Cv>, leftN: nat, rightN: nat, ghost counter: nat,
                  ghost input: seq<Byte>, out: array<Cv>, pos: nat) returns (n: nat)
    requires Degree(degree) && degree * CHUNK_LEN < |input| && cvs != out
    requires leftN + rightN <= cvs.Length && pos + MAX_SIMD_DEGREE <= out.Length
    requires IsWide(m, degree, cvs[..leftN], counter, input[..LeftLen(|input|)])
    requires IsWide(m, degree, cvs[leftN..leftN + rightN], counter + LeftLen(|input|) / CHUNK_LEN,
                    input[LeftLen(|input|)..])
    modifies out
    ensures n <= MAX_SIMD_DEGREE && IsWide(m, degree, out[pos..pos + n], counter, input)
    ensures forall j :: 0 <= j < out.Length && (j < pos || pos + n <= j) ==> out[j] == old(out[j])
  {
    hide LeftLen, PairUp, IsWide;
    ghost var left, right := cvs[..leftN], cvs[leftN..leftN + rightN];
    assert cvs[..leftN + rightN] == left + right;
    WideFromHalves(m, degree, left, right, counter, input);
    if leftN == 1 {
      out[pos], out[pos + 1] := cvs[0], cvs[1];
      assert out[pos..pos + 2] == left + right;
      n := 2;
    } else {
      n := CompressParentsParallel(m, cvs, leftN + rightN, out, pos);
    }
  }

  /** blake3_compress_subtree_wide, writing its chaining values into `out` from `pos` on. */
  method CompressSubtreeWide(m: Mode, degree: nat, input: seq<Byte>, counter: nat, out: array<Cv>, pos: nat)
      returns (n: nat)
    requires Degree(degree) && 0 < |input| < 0x1_0000_0000_0000_0000 && pos + MAX_SIMD_DEGREE <= out.Length
    modifies out
    ensures n <= MAX_SIMD_DEGREE && IsWide(m, degree, out[pos..pos + n], counter, input)
    ensures forall j :: 0 <= j < out.Length && (j < pos || pos + MAX_SIMD_DEGREE <= j) ==> out[j] == old(out[j])
    decreases |input|
  {
    hide Represents, LeftLen, IsPow2, PairUp, ChunkCvs, IsWide;
    if |input| <= degree * CHUNK_LEN {
      ChunksAreWide(m, degree, counter, input);
      ChunkCvsLength(m, counter, input);
      n := CompressChunksParallel(m, input, counter, out, pos);
      return;
    }
    HalvesAboveDegree(degree, |input|);
    var leftLen := LeftSubtreeLen(|input|);
    var cvArray := new Cv[2 * MAX_SIMD_DEGREE](_ => seq(OUT_LEN, _ => 0));
    // Where the right-hand values start; with degree 1, two chunks or more still give two values.
    var d := if leftLen > CHUNK_LEN && degree == 1 then 2 else degree;
    var leftN := CompressSubtreeWide(m, degree, input[..leftLen], counter, cvArray, 0);
    ghost var left := cvArray[0..leftN];
    LeftWidth(m, degree, left, counter, input);
    assert d == leftN;
    var rightN := CompressSubtreeWide(m, degree, input[leftLen..], counter + leftLen / CHUNK_LEN, cvArray, d);
    assert cvArray[0..leftN] == left && cvArray[0..leftN] == cvArray[..leftN];
    n := Condense(m, degree, cvArray, leftN, rightN, counter, input, out, pos);
  }

  // ----- down to two -----

  /** Two values that stand for more than a chunk are the children of the root. */
  lemma TwoAreChildren(m: Mode, cvs: seq<Cv>, counter: nat, input: seq<Byte>)
    requires Represents(m, cvs, counter, input) && CHUNK_LEN < |input| && |cvs| == 2
    ensures cvs[0] == TreeCv(m, counter, input[..LeftLen(|input|)])
    ensures cvs[1] == TreeCv(m, counter + LeftLen(|input|) / CHUNK_LEN, input[LeftLen(|input|)..])
  {
    hide TreeCv, LeftLen;
    assert cvs[..1] == [cvs[0]] && cvs[1..] == [cvs[1]];
  }

  lemma NarrowerRepresents(m: Mode, cvs: seq<Cv>, counter: nat, input: seq<Byte>)
    requires Represents(m, cvs, counter, input) && CHUNK_LEN < |input|
    ensures 2 <= |cvs|
    ensures 2 < |cvs| ==> Represents(m, PairUp(m, cvs), counter, input) && 2 <= |PairUp(m, cvs)| < |cvs|
  {
    if 2 < |cvs| {
      PairUpRepresents(m, cvs, counter, input);
    }
  }

  lemma WideRepresents(m: Mode, degree: nat, cvs: seq<Cv>, counter: nat, input: seq<Byte>)
    requires IsWide(m, degree, cvs, counter, input)
    ensures Represents(m, cvs, counter, input)
  {
  }

  /** compress_subtree_to_parent_node: the two children of the tree over the input. */
  method CompressSubtreeToParentNode(m: Mode, degree: nat, input: seq<Byte>, counter: nat)
      returns (left: Cv, right: Cv)
    requires Degree(degree) && CHUNK_LEN < |input| < 0x1_0000_0000_0000_0000
    ensures left == TreeCv(m, counter, input[..LeftLen(|input|)])
    ensures right == TreeCv(m, counter + LeftLen(|input|) / CHUNK_LEN, input[LeftLen(|input|)..])
  {
    hide Represents, LeftLen, PairUp, IsWide, TreeCv;
    var cvArray := new Cv[MAX_SIMD_DEGREE](_ => seq(OUT_LEN, _ => 0));
    var num := CompressSubtreeWide(m, degree, input, counter, cvArray, 0);
    WideRepresents(m, degree, cvArray[0..0 + num], counter, input);
    assert cvArray[0..0 + num] == cvArray[..num];
    NarrowerRepresents(m, cvArray[..num], counter, input);
    var outArray := new Cv[MAX_SIMD_DEGREE / 2](_ => seq(OUT_LEN, _ => 0));
    while num > 2
      invariant 2 <= num <= MAX_SIMD_DEGREE
      invariant Represents(m, cvArray[..num], counter, input)
    {
      ghost var cvs := cvArray[..num];
      NarrowerRepresents(m, cvs, counter, input);
      num := CompressParentsParallel(m, cvArray, num, outArray, 0);
      ghost var next := outArray[0..0 + num];
      for i := 0 to num
        invariant forall j :: 0 <= j < num ==> outArray[j] == next[j]
        invariant forall j :: 0 <= j < i ==> cvArray[j] == next[j]
        modifies cvArray
      {
        cvArray[i] := outArray[i];
      }
      assert cvArray[..num] == next;
    }
    TwoAreChildren(m, cvArray[..num], counter, input);
    left, right := cvArray[0], cvArray[1];
  }
}
