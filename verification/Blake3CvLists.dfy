/** Lists of chaining values that stand for a subtree: pairing them up, layer by layer, gives the
    chaining values of the tree's two children. */
module Blake3CvLists {
  import opened Blake3Bits
  import opened Blake3Tree
  import opened Bytes

  function ParentCv(m: Mode, left: Cv, right: Cv): Cv {
    CvOf(m.c, ParentOutput(m, left, right))
  }

  /** One layer of parents; an odd value left over is passed on. */
  ghost function PairUp(m: Mode, cvs: seq<Cv>): (r: seq<Cv>)
    ensures |r| == (|cvs| + 1) / 2
  {
    if |cvs| < 2 then cvs else [ParentCv(m, cvs[0], cvs[1])] + PairUp(m, cvs[2..])
  }

  /** Where a list of at least two splits: the largest power of two below its length. */
  ghost function SplitPoint(n: nat): (p: nat)
    requires 2 <= n
    ensures IsPow2(p) && p < n <= 2 * p
  {
    LargestPow2(n - 1)
  }

  lemma SplitPointIs(n: nat, p: nat)
    requires IsPow2(p) && p < n <= 2 * p
    ensures 2 <= n && SplitPoint(n) == p
  {
    var k: nat :| p == Pow2(k);
    var q := SplitPoint(n);
    if p < q {
      Pow2Gap(p, q);
    } else if q < p {
      Pow2Gap(q, p);
    }
  }

  /** The chaining value of the left-complete tree over the list. */
  ghost function Fold(m: Mode, cvs: seq<Cv>): Cv
    requires cvs != []
    decreases |cvs|
  {
    if |cvs| == 1 then cvs[0]
    else
      var p := SplitPoint(|cvs|);
      ParentCv(m, Fold(m, cvs[..p]), Fold(m, cvs[p..]))
  }

  ghost function LeftHalf(m: Mode, cvs: seq<Cv>): Cv
    requires 2 <= |cvs|
  {
    Fold(m, cvs[..SplitPoint(|cvs|)])
  }

  ghost function RightHalf(m: Mode, cvs: seq<Cv>): Cv
    requires 2 <= |cvs|
  {
    Fold(m, cvs[SplitPoint(|cvs|)..])
  }

  lemma {:induction false} PairUpConcat(m: Mode, x: seq<Cv>, y: seq<Cv>)
    requires |x| % 2 == 0
    ensures PairUp(m, x + y) == PairUp(m, x) + PairUp(m, y)
  {
    if x == [] {
      assert x + y == y;
    } else {
      hide ParentCv;
      PairUpConcat(m, x[2..], y);
      var z := x + y;
      assert z[0] == x[0] && z[1] == x[1] && z[2..] == x[2..] + y;
      assert PairUp(m, z) == [ParentCv(m, x[0], x[1])] + PairUp(m, x[2..] + y);
    }
  }

  /** Pairing up halves the split point. */
  lemma PairUpSplits(m: Mode, cvs: seq<Cv>)
    requires 2 < |cvs|
    ensures var p := SplitPoint(|cvs|);
            && 2 <= p && p % 2 == 0 && IsPow2(p / 2)
            && SplitPoint(|PairUp(m, cvs)|) == p / 2
            && PairUp(m, cvs)[..p / 2] == PairUp(m, cvs[..p])
            && PairUp(m, cvs)[p / 2..] == PairUp(m, cvs[p..])
  {
    var p := SplitPoint(|cvs|);
    Pow2Half(p);
    assert cvs == cvs[..p] + cvs[p..];
    PairUpConcat(m, cvs[..p], cvs[p..]);
    SplitPointIs(|PairUp(m, cvs)|, p / 2);
  }

  lemma {:induction false} PairUpFold(m: Mode, cvs: seq<Cv>)
    requires cvs != []
    ensures PairUp(m, cvs) != [] && Fold(m, PairUp(m, cvs)) == Fold(m, cvs)
    decreases |cvs|
  {
    if |cvs| == 2 {
      SplitPointIs(2, 1) by { Pow2One(); }
      assert cvs[2..] == [] && cvs[..1] == [cvs[0]] && cvs[1..] == [cvs[1]];
    } else if 2 < |cvs| {
      var p := SplitPoint(|cvs|);
      PairUpSplits(m, cvs);
      PairUpFold(m, cvs[..p]);
      PairUpFold(m, cvs[p..]);
    }
  }

  /** A layer of parents keeps the two children, as long as it does not make the root. */
  lemma PairUpHalves(m: Mode, cvs: seq<Cv>)
    requires 2 < |cvs|
    ensures 2 <= |PairUp(m, cvs)|
    ensures LeftHalf(m, PairUp(m, cvs)) == LeftHalf(m, cvs) && RightHalf(m, PairUp(m, cvs)) == RightHalf(m, cvs)
  {
    var p := SplitPoint(|cvs|);
    PairUpSplits(m, cvs);
    PairUpFold(m, cvs[..p]);
    PairUpFold(m, cvs[p..]);
  }

  // ----- lists that stand for a subtree -----

  /** The list is one chunk's chaining value, or can be condensed to the tree's two children. */
  ghost predicate Represents(m: Mode, cvs: seq<Cv>, counter: nat, bytes: seq<Byte>) {
    if |bytes| <= CHUNK_LEN then cvs == [TreeCv(m, counter, bytes)]
    else
      var l := LeftLen(|bytes|);
      && 2 <= |cvs|
      && LeftHalf(m, cvs) == TreeCv(m, counter, bytes[..l])
      && RightHalf(m, cvs) == TreeCv(m, counter + l / CHUNK_LEN, bytes[l..])
  }

  lemma RepresentsFolds(m: Mode, cvs: seq<Cv>, counter: nat, bytes: seq<Byte>)
    requires Represents(m, cvs, counter, bytes)
    ensures cvs != [] && Fold(m, cvs) == TreeCv(m, counter, bytes)
  {
  }

  /** A power of two on the left, no more on the right: the list splits between them. */
  lemma HalvesOfSum(m: Mode, left: seq<Cv>, right: seq<Cv>)
    requires IsPow2(|left|) && 0 < |right| <= |left|
    ensures LeftHalf(m, left + right) == Fold(m, left) && RightHalf(m, left + right) == Fold(m, right)
  {
    hide Fold, SplitPoint;
    SplitPointIs(|left + right|, |left|);
    assert (left + right)[..|left|] == left && (left + right)[|left|..] == right;
  }

  lemma RepresentsHalves(m: Mode, cvs: seq<Cv>, counter: nat, bytes: seq<Byte>)
    requires CHUNK_LEN < |bytes| && 2 <= |cvs|
    requires LeftHalf(m, cvs) == TreeCv(m, counter, bytes[..LeftLen(|bytes|)])
    requires RightHalf(m, cvs) == TreeCv(m, counter + LeftLen(|bytes|) / CHUNK_LEN, bytes[LeftLen(|bytes|)..])
    ensures Represents(m, cvs, counter, bytes)
  {
    hide LeftHalf, RightHalf, TreeCv, LeftLen;
  }

  /** The lists stand for the two subtrees of the bytes. */
  ghost predicate RepresentChildren(m: Mode, left: seq<Cv>, right: seq<Cv>, counter: nat, bytes: seq<Byte>)
    requires CHUNK_LEN < |bytes|
  {
    var l := LeftLen(|bytes|);
    && Represents(m, left, counter, bytes[..l])
    && Represents(m, right, counter + l / CHUNK_LEN, bytes[l..])
  }

  /** Putting the lists of both subtrees side by side. */
  lemma Joined(m: Mode, left: seq<Cv>, right: seq<Cv>, counter: nat, bytes: seq<Byte>)
    requires CHUNK_LEN < |bytes| && RepresentChildren(m, left, right, counter, bytes)
    requires IsPow2(|left|) && |right| <= |left|
    ensures Represents(m, left + right, counter, bytes)
  {
    hide Represents, TreeCv, Fold, LeftHalf, RightHalf, LeftLen, IsPow2;
    var l := LeftLen(|bytes|);
    RepresentsFolds(m, left, counter, bytes[..l]);
    RepresentsFolds(m, right, counter + l / CHUNK_LEN, bytes[l..]);
    HalvesOfSum(m, left, right);
    RepresentsHalves(m, left + right, counter, bytes);
  }

  lemma PairUpRepresents(m: Mode, cvs: seq<Cv>, counter: nat, bytes: seq<Byte>)
    requires Represents(m, cvs, counter, bytes) && 2 < |cvs|
    ensures Represents(m, PairUp(m, cvs), counter, bytes)
  {
    hide Tree, Fold, PairUp, LeftHalf, RightHalf;
    PairUpHalves(m, cvs);
  }

  // ----- chunk chaining values -----

  ghost function ChunkCvs(m: Mode, counter: nat, bytes: seq<Byte>): seq<Cv>
    decreases |bytes|
  {
    if |bytes| <= CHUNK_LEN then [TreeCv(m, counter, bytes)]
    else [TreeCv(m, counter, bytes[..CHUNK_LEN])] + ChunkCvs(m, counter + 1, bytes[CHUNK_LEN..])
  }

  /** Chunks needed for n bytes; the empty message has one. */
  function Chunks(n: nat): nat {
    if n == 0 then 1 else (n + CHUNK_LEN - 1) / CHUNK_LEN
  }

  lemma {:induction false} ChunkCvsLength(m: Mode, counter: nat, bytes: seq<Byte>)
    ensures |ChunkCvs(m, counter, bytes)| == Chunks(|bytes|)
    decreases |bytes|
  {
    if CHUNK_LEN < |bytes| {
      ChunkCvsLength(m, counter + 1, bytes[CHUNK_LEN..]);
    }
  }

  lemma {:induction false} ChunkCvsSplit(m: Mode, counter: nat, bytes: seq<Byte>, k: nat)
    requires 0 < k && CHUNK_LEN * k < |bytes|
    ensures ChunkCvs(m, counter, bytes)
         == ChunkCvs(m, counter, bytes[..CHUNK_LEN * k]) + ChunkCvs(m, counter + k, bytes[CHUNK_LEN * k..])
    decreases k
  {
    hide Tree;
    if k > 1 {
      var rest := bytes[CHUNK_LEN..];
      ChunkCvsSplit(m, counter + 1, rest, k - 1);
      assert rest[..CHUNK_LEN * (k - 1)] == bytes[..CHUNK_LEN * k][CHUNK_LEN..];
      assert rest[CHUNK_LEN * (k - 1)..] == bytes[CHUNK_LEN * k..];
      assert bytes[..CHUNK_LEN * k][..CHUNK_LEN] == bytes[..CHUNK_LEN];
    }
  }

  /** The chunks of a left subtree are a power of two, and at least as many as those on the right. */
  lemma ChunksOfHalves(n: nat)
    requires CHUNK_LEN < n
    ensures var l := LeftLen(n);
            && Chunks(l) == l / CHUNK_LEN && IsPow2(Chunks(l)) && 0 < Chunks(n - l) <= Chunks(l)
  {
    var l := LeftLen(n);
    assert l == CHUNK_LEN * (l / CHUNK_LEN);
  }

  lemma OneChunkRepresents(m: Mode, counter: nat, bytes: seq<Byte>)
    requires |bytes| <= CHUNK_LEN
    ensures Represents(m, ChunkCvs(m, counter, bytes), counter, bytes)
  {
    hide TreeCv;
  }

  /** The chaining values of all chunks, side by side, stand for the tree. */
  lemma {:induction false} ChunkCvsRepresent(m: Mode, counter: nat, bytes: seq<Byte>)
    ensures Represents(m, ChunkCvs(m, counter, bytes), counter, bytes)
    decreases |bytes|
  {
    hide TreeCv, Represents, ChunkCvs, LeftLen, IsPow2, Chunks;
    if |bytes| <= CHUNK_LEN {
      OneChunkRepresents(m, counter, bytes);
    } else {
      var l := LeftLen(|bytes|);
      var k := l / CHUNK_LEN;
      ChunksOfHalves(|bytes|);
      ChunkCvsRepresent(m, counter, bytes[..l]);
      ChunkCvsRepresent(m, counter + k, bytes[l..]);
      assert l == CHUNK_LEN * k;
      ChunkCvsSplit(m, counter, bytes, k);
      ChunkCvsLength(m, counter, bytes[..l]);
      ChunkCvsLength(m, counter + k, bytes[l..]);
      Joined(m, ChunkCvs(m, counter, bytes[..l]), ChunkCvs(m, counter + k, bytes[l..]), counter, bytes);
    }
  }
}
