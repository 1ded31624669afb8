/** The stack of chaining values: consecutive power-of-two subtrees, largest at the bottom, where only
    the top two may be due for a merge. */
module Blake3Stack {
  import opened Blake3Bits
  import opened Blake3Tree
  import opened Bytes
  import opened Blake3CvLists

  const MAX_STACK := 55

  // ----- sizes of the subtrees, in chunks -----

  function Sum(sizes: seq<nat>): nat {
    if sizes == [] then 0 else Sum(sizes[..|sizes| - 1]) + sizes[|sizes| - 1]
  }

  ghost predicate Powers(sizes: seq<nat>) {
    forall i :: 0 <= i < |sizes| ==> IsPow2(sizes[i])
  }

  ghost predicate Decreasing(sizes: seq<nat>) {
    forall i :: 0 <= i < |sizes| - 1 ==> sizes[i] > sizes[i + 1]
  }

  /** Every merge is done. */
  ghost predicate Strict(sizes: seq<nat>) {
    Powers(sizes) && Decreasing(sizes)
  }

  /** At most the top two are due for a merge. */
  ghost predicate Lazy(sizes: seq<nat>) {
    && Powers(sizes)
    && (|sizes| >= 2 ==> sizes[|sizes| - 2] >= sizes[|sizes| - 1])
    && (sizes != [] ==> Decreasing(sizes[..|sizes| - 1]))
  }

  lemma {:induction false} SumBelow(sizes: seq<nat>, k: nat)
    requires Strict(sizes) && (sizes != [] ==> sizes[0] < Pow2(k))
    ensures Sum(sizes) < Pow2(k)
    decreases |sizes|
  {
    if sizes != [] {
      SumFront(sizes);
      var j: nat :| sizes[0] == Pow2(j);
      Pow2Monotone(k, j);
      Pow2Monotone(j, k);
      SumBelow(sizes[1..], j);
    }
  }

  lemma {:induction false} SumFront(sizes: seq<nat>)
    requires sizes != []
    ensures Sum(sizes) == sizes[0] + Sum(sizes[1..])
  {
    if |sizes| > 1 {
      var front := sizes[..|sizes| - 1];
      SumFront(front);
      assert front[1..] == sizes[1..][..|sizes| - 2];
    }
  }

  /** A strict stack has one entry for every one-bit of the count. */
  lemma {:induction false} StrictPopCount(sizes: seq<nat>)
    requires Strict(sizes)
    ensures PopCount(Sum(sizes)) == |sizes|
  {
    if sizes != [] {
      SumFront(sizes);
      var k: nat :| sizes[0] == Pow2(k);
      SumBelow(sizes[1..], k);
      PopCountTop(k, Sum(sizes[1..]));
      StrictPopCount(sizes[1..]);
    }
  }

  ghost function MergeTop(sizes: seq<nat>): seq<nat>
    requires 2 <= |sizes|
  {
    sizes[..|sizes| - 2] + [sizes[|sizes| - 2] + sizes[|sizes| - 1]]
  }

  lemma LazyIsNearlyStrict(sizes: seq<nat>)
    requires Lazy(sizes)
    ensures |sizes| < 2 || sizes[|sizes| - 2] > sizes[|sizes| - 1] ==> Strict(sizes)
    ensures Strict(sizes) ==> |sizes| < 2 || sizes[|sizes| - 2] > sizes[|sizes| - 1]
    ensures sizes != [] ==> Strict(sizes[..|sizes| - 1])
  {
    if sizes != [] {
      var front := sizes[..|sizes| - 1];
      if |sizes| < 2 || sizes[|sizes| - 2] > sizes[|sizes| - 1] {
        forall i | 0 <= i < |sizes| - 1 ensures sizes[i] > sizes[i + 1] {
          if i < |sizes| - 2 {
            assert front[i] > front[i + 1];
          }
        }
      }
    }
  }

  /** If the top two are not strictly ordered they are equal, and merging them leaves a lazy stack. */
  lemma MergeTopIsLazy(sizes: seq<nat>)
    requires Lazy(sizes) && !Strict(sizes)
    ensures 2 <= |sizes| && sizes[|sizes| - 2] == sizes[|sizes| - 1]
    ensures Lazy(MergeTop(sizes)) && Sum(MergeTop(sizes)) == Sum(sizes)
  {
    LazyIsNearlyStrict(sizes);
    SumMergeTop(sizes);
    var n := |sizes|;
    var top := sizes[n - 1];
    assert sizes[n - 2] == top;
    hide Sum, Lazy;
    BelowTop(sizes[..n - 1]);
    assert sizes[..n - 1][..n - 2] == sizes[..n - 2];
    LazyPush(sizes[..n - 2], 2 * top);
  }

  /** Below the top of a strict stack there is room for twice as much. */
  lemma BelowTop(sizes: seq<nat>)
    requires Strict(sizes) && sizes != []
    ensures var n := |sizes| - 1;
            Strict(sizes[..n]) && IsPow2(2 * sizes[n]) && (n > 0 ==> 2 * sizes[n] <= sizes[..n][n - 1])
  {
    var n := |sizes| - 1;
    PrefixStrict(sizes, n);
    Pow2Double(sizes[n]);
    if n > 0 {
      Pow2Gap(sizes[n], sizes[n - 1]);
    }
  }

  lemma PrefixStrict(sizes: seq<nat>, n: nat)
    requires Strict(sizes) && n <= |sizes|
    ensures Strict(sizes[..n])
  {
  }

  lemma LazyPush(sizes: seq<nat>, size: nat)
    requires Strict(sizes) && IsPow2(size) && (sizes != [] ==> size <= sizes[|sizes| - 1])
    ensures Lazy(sizes + [size])
  {
    assert (sizes + [size])[..|sizes|] == sizes;
  }

  lemma SumMergeTop(sizes: seq<nat>)
    requires 2 <= |sizes|
    ensures Sum(MergeTop(sizes)) == Sum(sizes)
  {
    var n := |sizes|;
    var below, a, b := sizes[..n - 2], sizes[n - 2], sizes[n - 1];
    hide Sum;
    TwoOnTop(sizes);
    SumPush(below, a);
    SumPush(below + [a], b);
    SumPush(below, a + b);
  }

  lemma TwoOnTop(sizes: seq<nat>)
    requires 2 <= |sizes|
    ensures (sizes[..|sizes| - 2] + [sizes[|sizes| - 2]]) + [sizes[|sizes| - 1]] == sizes
  {
  }

  lemma SumPush(sizes: seq<nat>, size: nat)
    ensures Sum(sizes + [size]) == Sum(sizes) + size
  {
    assert (sizes + [size])[..|sizes|] == sizes;
  }

  /** A lazy stack has at most one entry too many, and then the top two are due. */
  lemma {:induction false} LazyPopCount(sizes: seq<nat>)
    requires Lazy(sizes)
    ensures Strict(sizes) <==> |sizes| <= PopCount(Sum(sizes))
    ensures !Strict(sizes) ==> 0 < PopCount(Sum(sizes)) < |sizes|
    ensures PopCount(Sum(sizes)) <= |sizes|
    decreases |sizes|
  {
    hide Lazy, Strict, Sum, PopCount;
    if Strict(sizes) {
      StrictPopCount(sizes);
    } else {
      MergeTopIsLazy(sizes);
      LazyPopCount(MergeTop(sizes));
      LazyPositive(MergeTop(sizes));
    }
  }

  lemma LazyPositive(sizes: seq<nat>)
    requires Lazy(sizes) && sizes != []
    ensures 0 < Sum(sizes) && 0 < PopCount(Sum(sizes))
  {
    PopCountPositive(Sum(sizes));
  }

  lemma {:induction false} PopCountPositive(n: nat)
    ensures 0 < n ==> 0 < PopCount(n)
  {
    if n > 1 {
      PopCountPositive(n / 2);
    }
  }

  lemma {:induction false} PopCountBound(n: nat, k: nat)
    requires n < Pow2(k)
    ensures PopCount(n) <= k
  {
    if k > 0 {
      PopCountBound(n / 2, k - 1);
    }
  }

  // ----- pushing an aligned subtree -----

  lemma {:induction false} SumDivisible(sizes: seq<nat>, k: nat)
    requires forall i :: 0 <= i < |sizes| ==> Divisible(sizes[i], k)
    ensures Divisible(Sum(sizes), k)
  {
    if sizes == [] {
      ZeroDivisible(k);
    } else {
      var n := |sizes| - 1;
      SumDivisible(sizes[..n], k);
      DivisibleAdd(Sum(sizes[..n]), sizes[n], k);
    }
  }

  /** In a strict stack every entry is at least the one on top. */
  lemma {:induction false} TopIsLeast(sizes: seq<nat>, i: nat)
    requires Decreasing(sizes) && i < |sizes| - 1
    ensures sizes[i] > sizes[|sizes| - 1]
    decreases |sizes| - i
  {
    if i < |sizes| - 2 {
      TopIsLeast(sizes, i + 1);
    }
  }

  /** A power of two that divides the count is no larger than the top of a strict stack. */
  lemma AlignedFits(sizes: seq<nat>, k: nat)
    requires Strict(sizes) && Divisible(Sum(sizes), k) && sizes != []
    ensures Pow2(k) <= sizes[|sizes| - 1]
  {
    var n := |sizes| - 1;
    var j: nat :| sizes[n] == Pow2(j);
    if j < k {
      DivisibleLower(Sum(sizes), j + 1, k);
      var front := sizes[..n];
      forall i | 0 <= i < |front| ensures Divisible(front[i], j + 1) {
        TopIsLeast(sizes, i);
        var l: nat :| sizes[i] == Pow2(l);
        Pow2Monotone(l, j);
        Pow2Divisible(l, j + 1);
      }
      SumDivisible(front, j + 1);
      DivisibleAdd(Sum(front), Pow2(j), j + 1);
      Pow2Divisible(j, j + 1);
      assert false;
    }
    Pow2Monotone(k, j);
  }

  /** Pushing an aligned power of two onto a strict stack leaves it lazy, and strict when the count
      was aligned to the next power. */
  lemma PushIsLazy(sizes: seq<nat>, k: nat)
    requires Strict(sizes) && Divisible(Sum(sizes), k)
    ensures Lazy(sizes + [Pow2(k)]) && Sum(sizes + [Pow2(k)]) == Sum(sizes) + Pow2(k)
    ensures Divisible(Sum(sizes), k + 1) ==> Strict(sizes + [Pow2(k)])
  {
    var pushed := sizes + [Pow2(k)];
    assert pushed[..|sizes|] == sizes;
    if sizes != [] {
      AlignedFits(sizes, k);
      if Divisible(Sum(sizes), k + 1) {
        AlignedFits(sizes, k + 1);
      }
    }
    LazyIsNearlyStrict(pushed);
  }

  // ----- what the entries stand for -----

  /** The chaining values of consecutive subtrees that make up the bytes. */
  ghost predicate Entries(m: Mode, bytes: seq<Byte>, cvs: seq<Cv>, sizes: seq<nat>)
    decreases |sizes|
  {
    && |cvs| == |sizes| && |bytes| == CHUNK_LEN * Sum(sizes)
    && (sizes != [] ==>
          var n := |sizes| - 1;
          var below := Sum(sizes[..n]);
          && cvs[n] == TreeCv(m, below, bytes[CHUNK_LEN * below..])
          && Entries(m, bytes[..CHUNK_LEN * below], cvs[..n], sizes[..n]))
  }

  lemma PushEntry(m: Mode, bytes: seq<Byte>, cvs: seq<Cv>, sizes: seq<nat>, more: seq<Byte>, cv: Cv, size: nat)
    requires Entries(m, bytes, cvs, sizes) && |more| == CHUNK_LEN * size && cv == TreeCv(m, Sum(sizes), more)
    ensures Entries(m, bytes + more, cvs + [cv], sizes + [size])
  {
    hide TreeCv;
    var all := bytes + more;
    assert (sizes + [size])[..|sizes|] == sizes && (cvs + [cv])[..|cvs|] == cvs;
    assert all[|bytes|..] == more && all[..|bytes|] == bytes;
  }

  lemma PopEntry(m: Mode, bytes: seq<Byte>, cvs: seq<Cv>, sizes: seq<nat>)
    requires Entries(m, bytes, cvs, sizes) && sizes != []
    ensures |cvs| == |sizes|
    ensures var n := |sizes| - 1;
            var below := Sum(sizes[..n]);
            && CHUNK_LEN * (below + sizes[n]) == |bytes|
            && cvs[n] == TreeCv(m, below, bytes[CHUNK_LEN * below..])
            && Entries(m, bytes[..CHUNK_LEN * below], cvs[..n], sizes[..n])
  {
    hide TreeCv;
  }

  /** Merging the top two, when they are of equal size, keeps the entries right. */
  lemma MergeEntries(m: Mode, bytes: seq<Byte>, cvs: seq<Cv>, sizes: seq<nat>)
    requires Entries(m, bytes, cvs, sizes) && Lazy(sizes) && !Strict(sizes)
    ensures 2 <= |sizes|
    ensures Entries(m, bytes, cvs[..|cvs| - 2] + [ParentCv(m, cvs[|cvs| - 2], cvs[|cvs| - 1])], MergeTop(sizes))
  {
    hide Entries, Tree, Lazy, Strict, ParentOutput;
    MergeTopIsLazy(sizes);
    TopTwo(m, bytes, cvs, sizes);
    var n := |sizes| - 2;
    var below := Sum(sizes[..n]);
    var tail := bytes[CHUNK_LEN * below..];
    PushEntry(m, bytes[..CHUNK_LEN * below], cvs[..n], sizes[..n], tail, TreeCv(m, below, tail), sizes[n] + sizes[n + 1]);
    assert bytes[..CHUNK_LEN * below] + tail == bytes;
  }

  /** The parent of the top two is the tree over their bytes. */
  lemma TopTwo(m: Mode, bytes: seq<Byte>, cvs: seq<Cv>, sizes: seq<nat>)
    requires Entries(m, bytes, cvs, sizes) && Lazy(sizes) && 2 <= |sizes|
    ensures |cvs| == |sizes|
    ensures var n := |sizes| - 2;
            var below := Sum(sizes[..n]);
            && CHUNK_LEN * below <= |bytes|
            && |bytes| - CHUNK_LEN * below == CHUNK_LEN * (sizes[n] + sizes[n + 1])
            && Entries(m, bytes[..CHUNK_LEN * below], cvs[..n], sizes[..n])
            && Tree(m, below, bytes[CHUNK_LEN * below..]) == ParentOutput(m, cvs[n], cvs[n + 1])
  {
    hide Entries, TreeCv, Tree, ParentOutput, Sum;
    PopEntry(m, bytes, cvs, sizes);
    var n := |sizes| - 2;
    var front, frontCvs := sizes[..n + 1], cvs[..n + 1];
    var middle := Sum(front);
    PopEntry(m, bytes[..CHUNK_LEN * middle], frontCvs, front);
    assert front[..n] == sizes[..n] && frontCvs[..n] == cvs[..n];
    var below := Sum(sizes[..n]);
    TailParts(bytes, below, middle);
    Pow2Double(sizes[n + 1]);
    TreeSplit(m, below, bytes[CHUNK_LEN * below..], sizes[n]);
  }

  /** The two parts of the bytes from `below` on, cut at `middle`. */
  lemma TailParts(bytes: seq<Byte>, below: nat, middle: nat)
    requires below <= middle && CHUNK_LEN * middle <= |bytes|
    ensures var stacked, tail := bytes[..CHUNK_LEN * middle], bytes[CHUNK_LEN * below..];
            && stacked[..CHUNK_LEN * below] == bytes[..CHUNK_LEN * below]
            && tail[..CHUNK_LEN * (middle - below)] == stacked[CHUNK_LEN * below..]
            && tail[CHUNK_LEN * (middle - below)..] == bytes[CHUNK_LEN * middle..]
  {
  }

  // ----- rolling up -----

  /** The output is the tree over everything from entry r on, and fits under the entry below. */
  ghost predicate RolledUp(m: Mode, bytes: seq<Byte>, sizes: seq<nat>, r: nat, o: Output) {
    && r <= |sizes| && CHUNK_LEN * Sum(sizes[..r]) < |bytes|
    && o == Tree(m, Sum(sizes[..r]), bytes[CHUNK_LEN * Sum(sizes[..r])..])
    && (r > 0 ==> |bytes| - CHUNK_LEN * Sum(sizes[..r]) <= CHUNK_LEN * sizes[r - 1])
  }

  lemma RollUp(m: Mode, bytes: seq<Byte>, cvs: seq<Cv>, sizes: seq<nat>, r: nat, o: Output)
    requires RolledUp(m, bytes, sizes, r, o) && 0 < r == |cvs| && Decreasing(sizes[..r]) && Powers(sizes)
    requires Entries(m, bytes[..CHUNK_LEN * Sum(sizes[..r])], cvs, sizes[..r])
    ensures RolledUp(m, bytes, sizes, r - 1, ParentOutput(m, cvs[r - 1], CvOf(m.c, o)))
    ensures Entries(m, bytes[..CHUNK_LEN * Sum(sizes[..r - 1])], cvs[..r - 1], sizes[..r - 1])
  {
    hide Entries, Tree, ParentOutput, Sum;
    var front := sizes[..r];
    PopEntry(m, bytes[..CHUNK_LEN * Sum(front)], cvs, front);
    assert front[..r - 1] == sizes[..r - 1];
    var below, size := Sum(sizes[..r - 1]), sizes[r - 1];
    TailParts(bytes, below, Sum(front));
    TreeSplit(m, below, bytes[CHUNK_LEN * below..], size);
    if r > 1 {
      assert front[r - 2] > front[r - 1];
      Pow2Gap(size, sizes[r - 2]);
    }
  }
}
