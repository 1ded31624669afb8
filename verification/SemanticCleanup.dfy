/** diff_cleanupSemantic and diff_cleanupSemanticLossless: equalities too small to matter become
    edits, lone edits are slid to better boundaries, overlaps between deletion and insertion become
    equalities.  All of it edits the list in place and keeps both texts. */
module SemanticCleanup {
  import opened DiffList
  import opened Strings
  import opened MergeCleanup
  import opened SmallEqualities
  import opened Helpers

  // ----- the stack of equalities both clean-ups keep -----

  /** Positions of equalities, in increasing order, all before `bound`. */
  ghost predicate StackOk(diffs: seq<Diff>, stack: seq<int>, bound: int) {
    && (forall i :: 0 <= i < |stack| ==> 0 <= stack[i] < bound && stack[i] < |diffs| && diffs[stack[i]].op == Equal)
    && (forall i, j :: 0 <= i < j < |stack| ==> stack[i] < stack[j])
  }

  /** The remembered equality is the one on top of the stack, or nothing. */
  ghost predicate LastOk(diffs: seq<Diff>, stack: seq<int>, last: Text) {
    last == [] || (stack != [] && 0 <= stack[|stack| - 1] < |diffs| && diffs[stack[|stack| - 1]].text == last)
  }

  lemma SplitKeeps(diffs: seq<Diff>, e: int)
    requires 0 <= e < |diffs| && diffs[e].op == Equal
    ensures Same(SplitAt(diffs, e), diffs) && EqualCount(SplitAt(diffs, e)) == EqualCount(diffs) - 1
  {
    hide Text1, Text2, EditLen, EqualCount;
    var t := diffs[e].text;
    var x, y := [diffs[e]], [Diff(Delete, t), Diff(Insert, t)];
    assert diffs == diffs[..e] + x + diffs[e + 1..];
    Single(diffs[e]);
    TwoTexts(Diff(Delete, t), Diff(Insert, t));
    assert y == [Diff(Delete, t)] + [Diff(Insert, t)];
    Concat([Diff(Delete, t)], [Diff(Insert, t)]);
    Single(Diff(Delete, t));
    Single(Diff(Insert, t));
    assert t + [] == t && [] + t == t;
    Replace(diffs[..e], x, y, diffs[e + 1..]);
  }

  lemma SameOnItself(x: seq<Diff>)
    ensures Same(x, x)
  {
  }

  lemma StackPush(diffs: seq<Diff>, stack: seq<int>, cur: int)
    requires 0 <= cur < |diffs| && diffs[cur].op == Equal && StackOk(diffs, stack, cur)
    ensures StackOk(diffs, stack + [cur], cur + 1) && LastOk(diffs, stack + [cur], diffs[cur].text)
  {
  }

  lemma StackTop(diffs: seq<Diff>, stack: seq<int>, bound: int)
    requires StackOk(diffs, stack, bound) && stack != []
    ensures var e := stack[|stack| - 1]; 0 <= e < bound && e < |diffs| && diffs[e].op == Equal
  {
  }

  /** Nothing on the stack, nothing remembered; or a cursor that moves on. */
  lemma StackEasy(diffs: seq<Diff>, stack: seq<int>, bound: int)
    ensures StackOk(diffs, [], bound) && LastOk(diffs, stack, [])
    ensures StackOk(diffs, stack, bound) ==> StackOk(diffs, stack, bound + 1)
  {
  }

  /** After an equality is split, the entries below it are still on equalities. */
  lemma StackAfterSplit(diffs: seq<Diff>, stack: seq<int>, bound: int, n: nat)
    requires StackOk(diffs, stack, bound) && n < |stack|
    ensures var e := stack[|stack| - 1];
            && 0 <= e < |diffs| && StackOk(SplitAt(diffs, e), stack[..n], e)
            && (n > 0 ==> StackOk(SplitAt(diffs, e), stack[..n], stack[n - 1] + 1) && 0 <= stack[n - 1] < e)
  {
    var e := stack[|stack| - 1];
    var split := SplitAt(diffs, e);
    forall i | 0 <= i < n ensures split[stack[i]] == diffs[stack[i]] {
      assert stack[i] < e;
    }
  }

  /** The equality on top of the stack becomes a deletion and an insertion. */
  method SplitTop(diffs0: seq<Diff>, ghost ds: seq<Diff>, stack: seq<int>, last: Text, ghost bound: int)
      returns (diffs: seq<Diff>, e: int)
    requires Same(diffs0, ds) && StackOk(diffs0, stack, bound) && LastOk(diffs0, stack, last) && last != []
    ensures stack != [] && e == stack[|stack| - 1] && 0 <= e < |diffs0| && diffs == SplitAt(diffs0, e)
    ensures Same(diffs, ds) && EqualCount(diffs) < EqualCount(diffs0) && |diffs| == |diffs0| + 1
  {
    hide Text1, Text2, EqualCount, StackOk;
    e := stack[|stack| - 1];
    StackTop(diffs0, stack, bound);
    SplitKeeps(diffs0, e);
    diffs := diffs0[..e] + [Diff(Delete, last), Diff(Insert, diffs0[e].text)] + diffs0[e + 1..];
  }

  /** Throws away the split equality and the one before it, which has to be examined again, and
      falls back to the equality below them, or to the start. */
  method FallBack(ghost diffs0: seq<Diff>, ghost diffs: seq<Diff>, stack: seq<int>, ghost bound: int)
      returns (equalities: seq<int>, cur: int)
    requires StackOk(diffs0, stack, bound) && stack != [] && 0 <= stack[|stack| - 1] < |diffs0|
    requires diffs == SplitAt(diffs0, stack[|stack| - 1])
    ensures equalities == stack[..if |stack| < 2 then 0 else |stack| - 2]
    ensures cur == (if equalities == [] then 0 else equalities[|equalities| - 1] + 1)
    ensures 0 <= cur <= |diffs| && StackOk(diffs, equalities, cur)
  {
    hide StackOk;
    equalities := stack[..|stack| - 1];
    if equalities != [] {
      equalities := equalities[..|equalities| - 1];
    }
    StackAfterSplit(diffs0, stack, bound, |equalities|);
    assert equalities == stack[..|equalities|];
    StackEasy(diffs, [], 0);
    if equalities != [] {
      cur := equalities[|equalities| - 1] + 1;
    } else {
      cur := 0;
    }
  }

  /** The equality on top, if there is one. */
  ghost function Top(stack: seq<int>): int {
    if stack == [] then -1 else stack[|stack| - 1]
  }

  /** After the fall-back, nothing in front of the cursor is small, and what was passed before the equality
      thrown away is settled. */
  lemma ScanFallsBack(rule: Rule, lists: seq<seq<Diff>>, ds: seq<Diff>, diffs0: seq<Diff>, cur0: int, safe0: int, stack: seq<int>,
                      diffs: seq<Diff>, equalities: seq<int>, cur: int)
    requires StackOk(diffs0, stack, cur0) && stack != [] && Scanned(rule, diffs0, cur0, true, Top(stack), safe0)
    requires SmallAt(rule, diffs0, Top(stack), cur0 + 1) && diffs == SplitAt(diffs0, Top(stack)) && Way(rule, lists, ds, diffs0)
    requires equalities == stack[..if |stack| < 2 then 0 else |stack| - 2]
    requires cur == (if equalities == [] then 0 else equalities[|equalities| - 1] + 1) && 0 <= cur <= |diffs|
    ensures Way(rule, lists + [diffs], ds, diffs)
    ensures Scanned(rule, diffs, cur, false, Top(equalities), if |stack| < 2 then 0 else stack[|stack| - 2] + 1)
    ensures Trailing(diffs[..cur]) == []
  {
    hide Way, Scanned, Small, Stays, NoneSmall, SmallAt;
    WayGoesOn(rule, lists, ds, diffs0, Top(stack), cur0 + 1);
    ScanBegins(rule, diffs);
    if equalities != [] {
      var p := stack[|stack| - 2];
      assert Top(equalities) == stack[|stack| - 3] && stack[|stack| - 3] < p < Top(stack);
      ScanBack(rule, diffs0, cur0, Top(stack), safe0, cur, p, Top(equalities));
      assert diffs[cur - 1] == diffs0[cur - 1];
    }
  }

  /** The four counters: characters inserted and deleted before the equality on top, and behind it. */
  ghost predicate Counted(diffs: seq<Diff>, cur: int, looking: bool, e: int, ins1: int, del1: int, ins2: int, del2: int) {
    && 0 <= cur <= |diffs|
    && ins2 == Amount(Insert, Trailing(diffs[..cur])) && del2 == Amount(Delete, Trailing(diffs[..cur]))
    && (looking ==> 0 <= e < cur && ins1 == Amount(Insert, Trailing(diffs[..e])) && del1 == Amount(Delete, Trailing(diffs[..e])))
  }

  lemma CountOn(diffs: seq<Diff>, cur: int, looking: bool, e: int, ins1: int, del1: int, ins2: int, del2: int)
    requires Counted(diffs, cur, looking, e, ins1, del1, ins2, del2) && cur < |diffs|
    ensures var d := diffs[cur];
            if d.op == Equal then Counted(diffs, cur + 1, true, cur, ins2, del2, 0, 0)
                                  && Counted(diffs, cur + 1, false, cur, ins2, del2, 0, 0)
            else Counted(diffs, cur + 1, looking, e, ins1, del1, ins2 + if d.op == Insert then |d.text| else 0,
                         del2 + if d.op == Delete then |d.text| else 0)
  {
    assert diffs[..cur + 1] == diffs[..cur] + [diffs[cur]];
    OneMoreRecord(diffs[..cur], diffs[cur]);
    OneMoreRecord(Trailing(diffs[..cur]), diffs[cur]);
  }

  lemma CountedIsSmall(diffs: seq<Diff>, cur: int, e: int, ins1: int, del1: int, ins2: int, del2: int, last: Text)
    requires Counted(diffs, cur, true, e, ins1, del1, ins2, del2) && diffs[e].text == last != []
    ensures Small(Semantic, diffs[e].text, Trailing(diffs[..e]), Trailing(diffs[..cur]))
       <==> |last| <= Max(ins1, del1) && |last| <= Max(ins2, del2)
  {
    hide Amount, Trailing;
  }

  lemma NothingCounted(diffs: seq<Diff>, cur: int, e: int)
    requires 0 <= cur <= |diffs| && Trailing(diffs[..cur]) == []
    ensures Counted(diffs, cur, false, e, 0, 0, 0, 0)
  {
  }

  lemma BlankIsNeverSmall(rule: Rule)
    ensures forall before, behind :: !Small(rule, [], before, behind)
  {
  }

  /** First loop of diff_cleanupSemantic: drops equalities no larger than the edits on both sides,
      walking back after each one to re-examine the equalities before it.  In the end none is left. */
  method DropSmallEqualities(ds: seq<Diff>) returns (diffs: seq<Diff>, changes: bool, ghost lists: seq<seq<Diff>>)
    ensures Same(diffs, ds) && (!changes ==> diffs == ds)
    ensures Way(Semantic, lists, ds, diffs) && NoneSmall(Semantic, diffs)
    ensures changes <==> !NoneSmall(Semantic, ds)
  {
    hide Same, EqualCount, StackOk, LastOk, SplitAt, Scanned, Counted, Way, SmallAt, Small, NoneSmall, Trailing, Amount, Top;
    diffs, changes := ds, false;
    var equalities: seq<int> := [];
    var lastEquality: Text := [];
    var insertions1, deletions1, insertions2, deletions2 := 0, 0, 0, 0;
    var cur := 0;
    ghost var safe := 0;
    lists := [ds];
    SameOnItself(ds);
    StackEasy(ds, [], 0);
    WayBegins(Semantic, ds);
    ScanBegins(Semantic, ds);
    NothingCounted(ds, 0, Top([]));
    while cur < |diffs|
      invariant 0 <= cur <= |diffs| && Same(diffs, ds) && (!changes ==> diffs == ds)
      invariant StackOk(diffs, equalities, cur) && LastOk(diffs, equalities, lastEquality)
      invariant Scanned(Semantic, diffs, cur, lastEquality != [], Top(equalities), safe)
      invariant Counted(diffs, cur, lastEquality != [], Top(equalities), insertions1, deletions1, insertions2, deletions2)
      invariant Way(Semantic, lists, ds, diffs) && |lists| >= 1 && (changes <==> |lists| > 1)
      decreases EqualCount(diffs), |diffs| - cur
    {
      StackEasy(diffs, equalities, cur);
      CountOn(diffs, cur, lastEquality != [], Top(equalities), insertions1, deletions1, insertions2, deletions2);
      if diffs[cur].op == Equal {
        StackPush(diffs, equalities, cur);
        BlankIsNeverSmall(Semantic);
        ScanEquality(Semantic, diffs, cur, lastEquality != [], Top(equalities), safe);
        equalities := equalities + [cur];
        assert Top(equalities) == cur by { TopPushed(equalities[..|equalities| - 1], cur); }
        insertions1, deletions1, insertions2, deletions2 := insertions2, deletions2, 0, 0;
        lastEquality := diffs[cur].text;
        cur := cur + 1;
      } else {
        if diffs[cur].op == Insert {
          insertions2 := insertions2 + |diffs[cur].text|;
        } else {
          deletions2 := deletions2 + |diffs[cur].text|;
        }
        if lastEquality != [] {
          ScanEdit(Semantic, diffs, cur, Top(equalities), safe);
          TopIsLast(diffs, equalities, cur, lastEquality);
          CountedIsSmall(diffs, cur + 1, Top(equalities), insertions1, deletions1, insertions2, deletions2, lastEquality);
        } else {
          ScanPast(Semantic, diffs, cur, Top(equalities), safe);
        }
        if lastEquality != []
           && |lastEquality| <= Max(insertions1, deletions1)
           && |lastEquality| <= Max(insertions2, deletions2) {
          // The equality is split, and the cursor falls back.
          ghost var before, stack, behind := diffs, equalities, cur;
          var e;
          diffs, e := SplitTop(diffs, ds, equalities, lastEquality, cur);
          equalities, cur := FallBack(before, diffs, equalities, cur);
          ScanFallsBack(Semantic, lists, ds, before, behind, safe, stack, diffs, equalities, cur);
          lists, safe := lists + [diffs], if |stack| < 2 then 0 else stack[|stack| - 2] + 1;
          NothingCounted(diffs, cur, Top(equalities));
          insertions1, deletions1, insertions2, deletions2 := 0, 0, 0, 0;
          lastEquality := [];
          changes := true;
          StackEasy(diffs, equalities, cur);
        } else {
          cur := cur + 1;
        }
      }
    }
    ScanEnds(Semantic, diffs, lastEquality != [], Top(equalities), safe);
    if changes {
      WayNeedsSmall(Semantic, lists, ds, diffs);
    }
  }

  lemma TopPushed(stack: seq<int>, cur: int)
    ensures Top(stack + [cur]) == cur
  {
  }

  lemma TopIsLast(diffs: seq<Diff>, stack: seq<int>, bound: int, last: Text)
    requires StackOk(diffs, stack, bound) && LastOk(diffs, stack, last) && last != []
    ensures stack != [] && Top(stack) == stack[|stack| - 1] && 0 <= Top(stack) < |diffs| && diffs[Top(stack)].text == last
  {
  }

  // ----- sliding a lone edit between two equalities -----

  /** The three records around a lone edit. */
  ghost function Lone(e1: Text, op: Operation, edit: Text, e2: Text): seq<Diff> {
    [Diff(Equal, e1), Diff(op, edit), Diff(Equal, e2)]
  }

  /** Sliding the edit over s: s moves from the first equality to the second. */
  lemma Slide(e1: Text, s: Text, op: Operation, x: Text, e2: Text)
    ensures Same(Lone(e1 + s, op, x + s, e2), Lone(e1, op, s + x, s + e2))
  {
    hide Text1, Text2;
    ThreeTexts(Diff(Equal, e1 + s), Diff(op, x + s), Diff(Equal, e2));
    ThreeTexts(Diff(Equal, e1), Diff(op, s + x), Diff(Equal, s + e2));
    assert (e1 + s) + (x + s) + e2 == e1 + (s + x) + (s + e2);
    assert (e1 + s) + [] + e2 == e1 + [] + (s + e2);
  }

  /** The text w with an edit of n characters at i, between two equalities. */
  ghost predicate CutsAt(w: Text, n: int, i: int, e1: Text, edit: Text, e2: Text) {
    w == e1 + edit + e2 && |e1| == i && |edit| == n
  }

  /** What the boundaries on both sides of the edit at i are worth. */
  function Worth(score: (Text, Text) -> int, w: Text, n: int, i: int): int
    requires 0 <= i && 0 <= n && i + n <= |w|
  {
    score(w[..i], w[i..i + n]) + score(w[i..i + n], w[i + n..])
  }

  /** The edit may stand anywhere from lo to hi, and no other place is worth more than `best`; of equal
      ones it is the last. */
  ghost predicate BestOf(score: (Text, Text) -> int, w: Text, n: int, lo: int, best: int, hi: int) {
    && 0 <= n && 0 <= lo <= best <= hi && hi + n <= |w|
    && (forall i :: lo <= i < hi ==> w[i] == w[i + n])
    && (forall i :: lo <= i <= hi ==> Worth(score, w, n, i) <= Worth(score, w, n, best))
    && (forall i :: best < i <= hi ==> Worth(score, w, n, i) < Worth(score, w, n, best))
  }

  lemma WorthOf(score: (Text, Text) -> int, w: Text, n: int, i: int, e1: Text, edit: Text, e2: Text)
    requires CutsAt(w, n, i, e1, edit, e2)
    ensures 0 <= i && 0 <= n && i + n <= |w| && Worth(score, w, n, i) == score(e1, edit) + score(edit, e2)
    ensures e2 == w[i + n..] && (edit != [] ==> edit[0] == w[i]) && (e2 != [] ==> e2[0] == w[i + n])
  {
    assert w[..i] == e1 && w[i..i + n] == edit && w[i + n..] == e2;
  }

  lemma OneRight(w: Text, n: int, i: int, e1: Text, edit: Text, e2: Text)
    requires CutsAt(w, n, i, e1, edit, e2) && edit != [] && e2 != []
    ensures CutsAt(w, n, i + 1, e1 + [edit[0]], edit[1..] + [e2[0]], e2[1..])
  {
    assert edit == [edit[0]] + edit[1..] && e2 == [e2[0]] + e2[1..];
  }

  lemma AllLeft(e1: Text, edit: Text, e2: Text, n: int)
    requires IsCommonSuffix(e1, edit, n)
    ensures var common := edit[|edit| - n..];
            CutsAt(e1 + edit + e2, |edit|, |e1| - n, e1[..|e1| - n], common + edit[..|edit| - n], common + e2)
  {
    var common := edit[|edit| - n..];
    Cut(e1, |e1| - n);
    Cut(edit, |edit| - n);
    assert e1[|e1| - n..] == common;
    hide IsCommonSuffix;
    Moved(e1[..|e1| - n], common, edit[..|edit| - n], e2);
  }

  lemma Moved(x: Text, s: Text, y: Text, z: Text)
    ensures (x + s) + (y + s) + z == x + (s + y) + (s + z)
  {
  }

  /** Moves the edit to the left end of its range. */
  method LeftEnd(equality1: Text, op: Operation, edit0: Text, equality2: Text)
      returns (e1: Text, edit: Text, e2: Text, ghost lo: int)
    ensures Same(Lone(e1, op, edit, e2), Lone(equality1, op, edit0, equality2))
    ensures |e1| + |e2| == |equality1| + |equality2| && |edit| == |edit0|
    ensures 0 <= lo && lo + |edit0| <= |equality1 + edit0 + equality2|
    ensures CutsAt(equality1 + edit0 + equality2, |edit0|, lo, e1, edit, e2)
    ensures IsCommonSuffix(equality1, edit0, |equality1| - lo)
  {
    hide Same, Lone, CutsAt, IsCommonSuffix;
    e1, edit, e2 := equality1, edit0, equality2;
    var k := CommonSuffix(e1, edit);
    SuffixFits(e1, edit, k);
    AllLeft(e1, edit, e2, k);
    if k != 0 {
      var common := edit[|edit| - k..];
      SlideLeft(e1, op, edit, e2, k);
      e1, edit, e2 := e1[..|e1| - k], common + edit[..|edit| - k], common + e2;
    } else {
      SameOnItself(Lone(equality1, op, edit0, equality2));
      NoShift(equality1, edit0, equality2);
    }
    lo := |equality1| - k;
  }

  /** Finds the best position of a lone edit, for any boundary scores: from as far left as it goes to as far
      right as it goes. */
  method BestSlide(score: (Text, Text) -> int, equality1: Text, op: Operation, edit0: Text, equality2: Text)
      returns (best1: Text, bestEdit: Text, best2: Text, ghost lo: int, ghost best: int, ghost hi: int)
    ensures Same(Lone(best1, op, bestEdit, best2), Lone(equality1, op, edit0, equality2))
    ensures |best1| + |best2| == |equality1| + |equality2| && |bestEdit| == |edit0|
    ensures var w, n := equality1 + edit0 + equality2, |edit0|;
            && CutsAt(w, n, best, best1, bestEdit, best2) && BestOf(score, w, n, lo, best, hi)
            && IsCommonSuffix(equality1, edit0, |equality1| - lo) && (n == 0 ==> hi == lo)
            && (n == 0 || hi + n == |w| || w[hi] != w[hi + n])
  {
    hide Same, Lone, CutsAt, Worth, IsCommonSuffix, BestOf;
    ghost var w, n := equality1 + edit0 + equality2, |edit0|;
    var e1, edit, e2;
    e1, edit, e2, lo := LeftEnd(equality1, op, edit0, equality2);
    // Then to the right, one place at a time, keeping the best.
    best, hi := lo, lo;
    best1, bestEdit, best2 := e1, edit, e2;
    var bestScore := score(e1, edit) + score(edit, e2);
    WorthOf(score, w, n, hi, e1, edit, e2);
    OnlyOne(score, w, n, lo);
    while edit != [] && e2 != [] && edit[0] == e2[0]
      invariant Same(Lone(e1, op, edit, e2), Lone(equality1, op, edit0, equality2))
      invariant Same(Lone(best1, op, bestEdit, best2), Lone(equality1, op, edit0, equality2))
      invariant |e1| + |e2| == |equality1| + |equality2| && |edit| == |edit0|
      invariant |best1| + |best2| == |equality1| + |equality2| && |bestEdit| == |edit0|
      invariant CutsAt(w, n, hi, e1, edit, e2) && CutsAt(w, n, best, best1, bestEdit, best2)
      invariant 0 <= lo <= best <= hi && hi + n <= |w| && (n == 0 ==> hi == lo)
      invariant BestOf(score, w, n, lo, best, hi) && bestScore == Worth(score, w, n, best)
      decreases |e2|
    {
      SlideRight(e1, op, edit, e2);
      SameThrough(Lone(e1 + [edit[0]], op, edit[1..] + [e2[0]], e2[1..]), Lone(e1, op, edit, e2),
                  Lone(equality1, op, edit0, equality2));
      WorthOf(score, w, n, hi, e1, edit, e2);
      OneRight(w, n, hi, e1, edit, e2);
      e1, edit, e2 := e1 + [edit[0]], edit[1..] + [e2[0]], e2[1..];
      WorthOf(score, w, n, hi + 1, e1, edit, e2);
      var here := score(e1, edit) + score(edit, e2);
      NextBest(score, w, n, lo, best, hi);
      // Of equal places the later one.
      if here >= bestScore {
        bestScore, best1, bestEdit, best2 := here, e1, edit, e2;
        best := hi + 1;
      }
      hi := hi + 1;
    }
    WorthOf(score, w, n, hi, e1, edit, e2);
  }

  /** How far an edit of n characters at i can go to the right. */
  ghost function Rightmost(w: Text, n: nat, i: nat): (r: nat)
    requires i + n <= |w|
    ensures i <= r && r + n <= |w| && (forall k :: i <= k < r ==> w[k] == w[k + n])
    ensures n == 0 || r + n == |w| || w[r] != w[r + n]
    decreases |w| - i
  {
    if 0 < n && i + n < |w| && w[i] == w[i + n] then Rightmost(w, n, i + 1) else i
  }

  lemma {:induction false} RightmostIs(w: Text, n: nat, lo: nat, hi: nat)
    requires lo <= hi && hi + n <= |w| && (forall i :: lo <= i < hi ==> w[i] == w[i + n])
    requires (n == 0 ==> hi == lo) && (n == 0 || hi + n == |w| || w[hi] != w[hi + n])
    ensures Rightmost(w, n, lo) == hi
    decreases hi - lo
  {
    if lo < hi {
      RightmostIs(w, n, lo + 1, hi);
    }
  }

  /** The last of the best places between lo and hi. */
  ghost function LastBest(score: (Text, Text) -> int, w: Text, n: nat, lo: nat, hi: nat): (b: nat)
    requires lo <= hi && hi + n <= |w|
    ensures lo <= b <= hi
    ensures forall i :: lo <= i <= hi ==> Worth(score, w, n, i) <= Worth(score, w, n, b)
    ensures forall i :: b < i <= hi ==> Worth(score, w, n, i) < Worth(score, w, n, b)
  {
    if lo == hi then lo
    else
      var b := LastBest(score, w, n, lo, hi - 1);
      if Worth(score, w, n, hi) >= Worth(score, w, n, b) then hi else b
  }

  /** Where a lone edit stands best: of all places between the leftmost and the rightmost one. */
  ghost function BestPlace(score: (Text, Text) -> int, e1: Text, edit: Text, e2: Text): (b: nat)
    ensures b + |edit| <= |e1 + edit + e2|
  {
    var w, lo := e1 + edit + e2, |e1| - BackLen(e1, edit);
    LastBest(score, w, |edit|, lo, Rightmost(w, |edit|, lo))
  }

  lemma LastBestIs(score: (Text, Text) -> int, w: Text, n: nat, lo: int, best: int, hi: int)
    requires BestOf(score, w, n, lo, best, hi)
    ensures 0 <= lo <= hi && hi + n <= |w| && (forall i :: lo <= i < hi ==> w[i] == w[i + n])
    ensures LastBest(score, w, n, lo, hi) == best
  {
    hide Worth;
    var b := LastBest(score, w, n, lo, hi);
  }

  lemma BestPlaceIs(score: (Text, Text) -> int, e1: Text, edit: Text, e2: Text, lo: int, best: int, hi: int)
    requires var w, n := e1 + edit + e2, |edit|;
             && BestOf(score, w, n, lo, best, hi) && IsCommonSuffix(e1, edit, |e1| - lo)
             && (n == 0 ==> hi == lo) && (n == 0 || hi + n == |w| || w[hi] != w[hi + n])
    ensures best == BestPlace(score, e1, edit, e2)
  {
    hide BestOf, IsCommonSuffix, LastBest, Rightmost, Worth;
    var w, n := e1 + edit + e2, |edit|;
    LastBestIs(score, w, n, lo, best, hi);
    BackLenUnique(e1, edit, |e1| - lo);
    RightmostIs(w, n, lo, hi);
  }

  /** The three texts with the edit at its best place. */
  ghost predicate AtBest(score: (Text, Text) -> int, e1: Text, edit: Text, e2: Text, best1: Text, bestEdit: Text, best2: Text) {
    CutsAt(e1 + edit + e2, |edit|, BestPlace(score, e1, edit, e2), best1, bestEdit, best2)
  }

  method SlideLone(score: (Text, Text) -> int, p: Diff, c: Diff, n: Diff) returns (best1: Text, bestEdit: Text, best2: Text)
    ensures Same(Lone(best1, c.op, bestEdit, best2), Lone(p.text, c.op, c.text, n.text))
    ensures |best1| + |best2| == |p.text| + |n.text| && |bestEdit| == |c.text|
    ensures AtBest(score, p.text, c.text, n.text, best1, bestEdit, best2)
    ensures Fixed(p.text, c.text, n.text) ==> best1 == p.text
  {
    hide Same, Lone, CutsAt, Worth, IsCommonSuffix, BestOf, BestPlace, Fixed;
    ghost var lo, best, hi;
    best1, bestEdit, best2, lo, best, hi := BestSlide(score, p.text, c.op, c.text, n.text);
    FixedStays(score, p.text, c.text, n.text, best1, bestEdit, best2, lo, best, hi);
    BestPlaceIs(score, p.text, c.text, n.text, lo, best, hi);
  }

  /** An edit that cannot be slid is best where it is. */
  lemma FixedStays(score: (Text, Text) -> int, e1: Text, edit: Text, e2: Text, best1: Text, bestEdit: Text, best2: Text,
                   lo: int, best: int, hi: int)
    requires var w, n := e1 + edit + e2, |edit|;
             CutsAt(w, n, best, best1, bestEdit, best2) && BestOf(score, w, n, lo, best, hi) && IsCommonSuffix(e1, edit, |e1| - lo)
    ensures Fixed(e1, edit, e2) ==> best1 == e1
  {
    hide Worth;
    if Fixed(e1, edit, e2) {
      var w, n := e1 + edit + e2, |edit|;
      if lo < |e1| {
        SameLast(e1, edit, |e1| - lo);
        assert false;
      }
      assert w[|e1|] == edit[0] && w[|e1| + n] == e2[0];
      assert best == |e1|;
      assert w[..best] == best1 && w[..best] == e1;
    }
  }

  lemma SameLast(a: Text, b: Text, n: int)
    requires 0 < n <= |a| && n <= |b| && a[|a| - n..] == b[|b| - n..]
    ensures a[|a| - 1] == b[|b| - 1]
  {
    assert a[|a| - n..][n - 1] == b[|b| - n..][n - 1];
  }

  lemma SuffixFits(a: Text, b: Text, n: int)
    requires IsCommonSuffix(a, b, n)
    ensures 0 <= n <= |a| && n <= |b|
  {
  }

  lemma NoShift(e1: Text, edit: Text, e2: Text)
    ensures e1[..|e1|] == e1 && edit[|edit|..] == [] && edit[|edit|..] + edit[..|edit|] == edit && edit[|edit|..] + e2 == e2
  {
  }

  lemma OnlyOne(score: (Text, Text) -> int, w: Text, n: int, lo: int)
    requires 0 <= n && 0 <= lo && lo + n <= |w|
    ensures BestOf(score, w, n, lo, lo, lo)
  {
  }

  lemma NextBest(score: (Text, Text) -> int, w: Text, n: int, lo: int, best: int, hi: int)
    requires BestOf(score, w, n, lo, best, hi) && hi + n < |w| && w[hi] == w[hi + n]
    ensures BestOf(score, w, n, lo, if Worth(score, w, n, hi + 1) >= Worth(score, w, n, best) then hi + 1 else best, hi + 1)
  {
    hide Worth;
  }

  lemma SameThrough(x: seq<Diff>, y: seq<Diff>, z: seq<Diff>)
    requires Same(x, y) && Same(y, z)
    ensures Same(x, z)
  {
  }

  lemma SlideLeft(e1: Text, op: Operation, edit: Text, e2: Text, n: int)
    requires IsCommonSuffix(e1, edit, n)
    ensures Same(Lone(e1[..|e1| - n], op, edit[|edit| - n..] + edit[..|edit| - n], edit[|edit| - n..] + e2),
                 Lone(e1, op, edit, e2))
  {
    hide Lone;
    var s := edit[|edit| - n..];
    Cut(e1, |e1| - n);
    Cut(edit, |edit| - n);
    Slide(e1[..|e1| - n], s, op, edit[..|edit| - n], e2);
  }

  lemma SlideRight(e1: Text, op: Operation, edit: Text, e2: Text)
    requires edit != [] && e2 != [] && edit[0] == e2[0]
    ensures Same(Lone(e1 + [edit[0]], op, edit[1..] + [e2[0]], e2[1..]), Lone(e1, op, edit, e2))
  {
    hide Lone;
    assert edit == [edit[0]] + edit[1..] && e2 == [edit[0]] + e2[1..];
    Slide(e1, [edit[0]], op, edit[1..], e2[1..]);
  }

  /** The lone edit after sliding, without the equalities that became empty. */
  ghost function Slid(best1: Text, op: Operation, bestEdit: Text, best2: Text): seq<Diff> {
    (if best1 == [] then [] else [Diff(Equal, best1)]) + [Diff(op, bestEdit)]
    + (if best2 == [] then [] else [Diff(Equal, best2)])
  }

  lemma SlidIsLone(best1: Text, op: Operation, bestEdit: Text, best2: Text)
    ensures Same(Slid(best1, op, bestEdit, best2), Lone(best1, op, bestEdit, best2))
    ensures EditLen(Slid(best1, op, bestEdit, best2)) == if op == Equal then 0 else |bestEdit|
  {
    hide Text1, Text2, EditLen;
    var x := if best1 == [] then [] else [Diff(Equal, best1)];
    var y := if best2 == [] then [] else [Diff(Equal, best2)];
    Concat3(x, [Diff(op, bestEdit)], y);
    ThreeTexts(Diff(Equal, best1), Diff(op, bestEdit), Diff(Equal, best2));
    Single(Diff(Equal, best1));
    Single(Diff(op, bestEdit));
    Single(Diff(Equal, best2));
    Nothing();
  }

  lemma LoneEditLen(e1: Text, op: Operation, edit: Text, e2: Text)
    ensures EditLen(Lone(e1, op, edit, e2)) == if op == Equal then 0 else |edit|
  {
    hide EditLen;
    ThreeTexts(Diff(Equal, e1), Diff(op, edit), Diff(Equal, e2));
    Single(Diff(Equal, e1));
    Single(Diff(op, edit));
    Single(Diff(Equal, e2));
  }

  /** The list with the edit of every lone triple put at its best place, one after the other: behind a triple the
      walk goes on with the edit that was slid, or with the same place if an equality became empty. */
  ghost function Slides(score: (Text, Text) -> int, d: seq<Diff>): seq<Diff>
    decreases |d|
  {
    if |d| < 3 then d
    else if d[0].op == Equal && d[2].op == Equal && BestPlace(score, d[0].text, d[1].text, d[2].text) != |d[0].text| then
      var w, b, n := d[0].text + d[1].text + d[2].text, BestPlace(score, d[0].text, d[1].text, d[2].text), |d[1].text|;
      var before, edit, behind := Diff(Equal, w[..b]), Diff(d[1].op, w[b..b + n]), Diff(Equal, w[b + n..]);
      if b == 0 then Slides(score, [edit, behind] + d[3..])
      else if b + n == |w| then Slides(score, [before, edit] + d[3..])
      else [before] + Slides(score, [edit, behind] + d[3..])
    else [d[0]] + Slides(score, d[1..])
  }

  lemma SlidesPast(score: (Text, Text) -> int, d: seq<Diff>, at: nat)
    requires at + 2 < |d|
    requires d[at].op == Equal && d[at + 2].op == Equal ==> BestPlace(score, d[at].text, d[at + 1].text, d[at + 2].text) == |d[at].text|
    ensures d[..at + 1] + Slides(score, d[at + 1..]) == d[..at] + Slides(score, d[at..])
  {
    hide BestPlace;
    var here := d[at..];
    assert here[0] == d[at] && here[1] == d[at + 1] && here[2] == d[at + 2] && here[1..] == d[at + 1..];
    assert Slides(score, here) == [d[at]] + Slides(score, d[at + 1..]);
    hide Slides;
    assert d[..at + 1] == d[..at] + [d[at]];
  }

  lemma PlaceMoved(e1: Text, edit: Text, e2: Text, b: nat, best1: Text)
    requires b <= |e1 + edit + e2| && (e1 + edit + e2)[..b] == best1 != e1
    ensures b != |e1|
  {
    assert (e1 + edit + e2)[..|e1|] == e1;
  }

  lemma SlidesHere(score: (Text, Text) -> int, here: seq<Diff>, best1: Text, bestEdit: Text, best2: Text)
    requires |here| >= 3 && here[0].op == Equal && here[2].op == Equal && here[0].text != best1 && (best1 != [] || best2 != [])
    requires AtBest(score, here[0].text, here[1].text, here[2].text, best1, bestEdit, best2)
    ensures var before, edit, behind := Diff(Equal, best1), Diff(here[1].op, bestEdit), Diff(Equal, best2);
            Slides(score, here) == if best1 == [] then Slides(score, [edit, behind] + here[3..])
                                   else if best2 == [] then Slides(score, [before, edit] + here[3..])
                                   else [before] + Slides(score, [edit, behind] + here[3..])
  {
    hide BestPlace;
    var e1, c, e2 := here[0].text, here[1].text, here[2].text;
    var w, b, n := e1 + c + e2, BestPlace(score, e1, c, e2), |c|;
    assert w[..b] == best1 && w[b..b + n] == bestEdit && w[b + n..] == best2;
    PlaceMoved(e1, c, e2, b, best1);
  }

  /** The walk behind a triple whose edit was slid. */
  lemma SlidesOn(score: (Text, Text) -> int, d: seq<Diff>, at: nat, best1: Text, bestEdit: Text, best2: Text,
                 d': seq<Diff>, at': nat)
    requires at + 2 < |d| && d[at].op == Equal && d[at + 2].op == Equal && d[at].text != best1 && (best1 != [] || best2 != [])
    requires AtBest(score, d[at].text, d[at + 1].text, d[at + 2].text, best1, bestEdit, best2)
    requires d' == d[..at] + Slid(best1, d[at + 1].op, bestEdit, best2) + d[at + 3..]
    requires at' == if best1 != [] && best2 != [] then at + 1 else at
    ensures at' <= |d'| && d'[..at'] + Slides(score, d'[at'..]) == d[..at] + Slides(score, d[at..])
  {
    hide BestPlace, Slides, AtBest;
    var here := d[at..];
    assert here[0] == d[at] && here[1] == d[at + 1] && here[2] == d[at + 2] && here[3..] == d[at + 3..];
    SlidesHere(score, here, best1, bestEdit, best2);
    var edit := Diff(d[at + 1].op, bestEdit);
    if best1 != [] && best2 != [] {
      assert d'[at + 1..] == [edit, Diff(Equal, best2)] + d[at + 3..];
      assert d'[..at + 1] == d[..at] + [Diff(Equal, best1)];
    } else if best1 == [] {
      assert d'[at..] == [edit, Diff(Equal, best2)] + d[at + 3..] && d'[..at] == d[..at];
    } else {
      assert d'[at..] == [Diff(Equal, best1), edit] + d[at + 3..] && d'[..at] == d[..at];
    }
  }

  lemma SlidesEnd(score: (Text, Text) -> int, d: seq<Diff>, at: nat)
    requires at <= |d| <= at + 2
    ensures d[..at] + Slides(score, d[at..]) == d
  {
  }

  lemma SlidesStart(score: (Text, Text) -> int, d: seq<Diff>)
    ensures d[..0] + Slides(score, d[0..]) == Slides(score, d)
  {
    assert d[0..] == d;
  }

  lemma PlaceOf(score: (Text, Text) -> int, e1: Text, edit: Text, e2: Text, best1: Text, bestEdit: Text, best2: Text)
    requires AtBest(score, e1, edit, e2, best1, bestEdit, best2) && e1 == best1
    ensures BestPlace(score, e1, edit, e2) == |e1|
  {
    hide BestPlace;
  }

  /** diff_cleanupSemanticLossless: slides every edit that stands between two equalities. */
  method CleanupSemanticLossless(score: (Text, Text) -> int, ds: seq<Diff>) returns (diffs: seq<Diff>)
    ensures Same(diffs, ds) && EditLen(diffs) == EditLen(ds) && |diffs| <= |ds| && (Tidy(ds) ==> diffs == ds)
    ensures diffs == Slides(score, ds)
  {
    hide Text1, Text2, EditLen, EqualCount, Lone, Tidy, Fixed, Slides, Slid, AtBest, BestPlace;
    diffs := ds;
    var prev := 0;
    SlidesStart(score, ds);
    while prev + 2 < |diffs|
      invariant 0 <= prev <= |diffs| && Same(diffs, ds) && EditLen(diffs) == EditLen(ds) && |diffs| <= |ds|
      invariant Tidy(ds) ==> diffs == ds
      invariant diffs[..prev] + Slides(score, diffs[prev..]) == Slides(score, ds)
      decreases |diffs| - prev
    {
      var p, c, n := diffs[prev], diffs[prev + 1], diffs[prev + 2];
      if p.op == Equal && n.op == Equal {
        var best1, bestEdit, best2 := SlideLone(score, p, c, n);
        if Tidy(ds) {
          TidyStays(ds, prev + 1);
        }
        if p.text != best1 {
          assert best1 != [] || best2 != [];
          ghost var before, at := diffs, prev;
          diffs, prev := StoreSlide(diffs, prev, best1, bestEdit, best2);
          SlidesOn(score, before, at, best1, bestEdit, best2, diffs, prev);
        } else {
          PlaceOf(score, p.text, c.text, n.text, best1, bestEdit, best2);
          SlidesPast(score, diffs, prev);
          prev := prev + 1;
        }
      } else {
        SlidesPast(score, diffs, prev);
        prev := prev + 1;
      }
    }
    SlidesEnd(score, diffs, prev);
  }

  /** Saves an improved position; equalities that became empty are erased, the cursor stays in step. */
  method StoreSlide(diffs0: seq<Diff>, prev0: int, best1: Text, bestEdit: Text, best2: Text)
      returns (diffs: seq<Diff>, prev: int)
    requires 0 <= prev0 && prev0 + 2 < |diffs0| && diffs0[prev0].op == diffs0[prev0 + 2].op == Equal
    requires (best1 != [] || best2 != []) && |bestEdit| == |diffs0[prev0 + 1].text|
    requires Same(Lone(best1, diffs0[prev0 + 1].op, bestEdit, best2),
                  Lone(diffs0[prev0].text, diffs0[prev0 + 1].op, diffs0[prev0 + 1].text, diffs0[prev0 + 2].text))
    ensures Same(diffs, diffs0) && EditLen(diffs) == EditLen(diffs0)
    ensures |diffs| <= |diffs0| && 0 <= prev && |diffs| - prev < |diffs0| - prev0
    ensures diffs == diffs0[..prev0] + Slid(best1, diffs0[prev0 + 1].op, bestEdit, best2) + diffs0[prev0 + 3..]
    ensures prev == if best1 != [] && best2 != [] then prev0 + 1 else prev0
  {
    hide Same, Text1, Text2, EditLen, EqualCount;
    var op := diffs0[prev0 + 1].op;
    ghost var old_ := [diffs0[prev0], diffs0[prev0 + 1], diffs0[prev0 + 2]];
    ghost var pre, post := diffs0[..prev0], diffs0[prev0 + 3..];
    assert diffs0 == pre + old_ + post;
    assert old_ == Lone(diffs0[prev0].text, op, diffs0[prev0 + 1].text, diffs0[prev0 + 2].text);
    SlidIsLone(best1, op, bestEdit, best2);
    LoneEditLen(diffs0[prev0].text, op, diffs0[prev0 + 1].text, diffs0[prev0 + 2].text);
    SameThrough(Slid(best1, op, bestEdit, best2), Lone(best1, op, bestEdit, best2), old_);
    SameFlip(Slid(best1, op, bestEdit, best2), old_);
    Replace(pre, old_, Slid(best1, op, bestEdit, best2), post);
    var cur, next := prev0 + 1, prev0 + 2;
    diffs, prev := diffs0, prev0;
    if best1 != [] {
      diffs := diffs[prev := Diff(Equal, best1)];
    } else {
      diffs, cur, next := diffs[..prev] + diffs[prev + 1..], cur - 1, next - 1;
    }
    diffs := diffs[cur := Diff(op, bestEdit)];
    if best2 != [] {
      diffs := diffs[next := Diff(Equal, best2)];
    } else {
      diffs, next, cur := diffs[..next] + diffs[next + 1..], cur, prev;
    }
    prev := cur;
    assert diffs == pre + Slid(best1, op, bestEdit, best2) + post;
    SameFlip(diffs, diffs0);
  }

  lemma SameFlip(x: seq<Diff>, y: seq<Diff>)
    ensures Same(x, y) <==> Same(y, x)
  {
  }

  // ----- overlaps between a deletion and the insertion after it -----

  lemma OverlapForward(d: Text, i: Text, n: int)
    requires IsOverlap(d, i, n)
    ensures Same([Diff(Delete, d[..|d| - n]), Diff(Equal, i[..n]), Diff(Insert, i[n..])],
                 [Diff(Delete, d), Diff(Insert, i)])
    ensures EditLen([Diff(Delete, d[..|d| - n]), Diff(Equal, i[..n]), Diff(Insert, i[n..])])
         == EditLen([Diff(Delete, d), Diff(Insert, i)]) - 2 * n
  {
    hide Text1, Text2;
    ThreeTexts(Diff(Delete, d[..|d| - n]), Diff(Equal, i[..n]), Diff(Insert, i[n..]));
    TwoTexts(Diff(Delete, d), Diff(Insert, i));
    assert d[..|d| - n] + d[|d| - n..] + [] == d + [];
    assert [] + i[..n] + i[n..] == [] + i;
  }

  lemma OverlapBackward(d: Text, i: Text, n: int)
    requires IsOverlap(i, d, n)
    ensures Same([Diff(Insert, i[..|i| - n]), Diff(Equal, d[..n]), Diff(Delete, d[n..])],
                 [Diff(Delete, d), Diff(Insert, i)])
    ensures EditLen([Diff(Insert, i[..|i| - n]), Diff(Equal, d[..n]), Diff(Delete, d[n..])])
         == EditLen([Diff(Delete, d), Diff(Insert, i)]) - 2 * n
  {
    hide Text1, Text2;
    ThreeTexts(Diff(Insert, i[..|i| - n]), Diff(Equal, d[..n]), Diff(Delete, d[n..]));
    TwoTexts(Diff(Delete, d), Diff(Insert, i));
    assert [] + d[..n] + d[n..] == d + [];
    assert i[..|i| - n] + i[|i| - n..] + [] == [] + i;
  }

  /** The longest end of the one text that begins the other. */
  ghost function LongestOverlap(a: Text, b: Text): (n: nat)
    ensures IsOverlap(a, b, n) && forall m :: IsOverlap(a, b, m) ==> m <= n
  {
    OverlapBelow(a, b, |a|)
  }

  ghost function OverlapBelow(a: Text, b: Text, limit: nat): (n: nat)
    requires limit <= |a|
    ensures IsOverlap(a, b, n) && forall m :: IsOverlap(a, b, m) && m <= limit ==> m <= n
  {
    if limit == 0 then assert a[|a|..] == b[..0]; 0
    else if IsOverlap(a, b, limit) then limit
    else OverlapBelow(a, b, limit - 1)
  }

  /** An overlap worth an equality: half of either edit. */
  predicate Worthwhile(n: int, d: Text, i: Text) {
    2 * n >= |d| || 2 * n >= |i|
  }

  /** A deletion and the insertion behind it, with their longer overlap as an equality if it is worth it. */
  ghost function PairCut(d: Text, i: Text): seq<Diff> {
    var n1, n2 := LongestOverlap(d, i), LongestOverlap(i, d);
    if n1 >= n2 && Worthwhile(n1, d, i) then
      [Diff(Delete, d[..|d| - n1]), Diff(Equal, i[..n1]), Diff(Insert, i[n1..])]
    else if n1 < n2 && Worthwhile(n2, d, i) then
      [Diff(Insert, i[..|i| - n2]), Diff(Equal, d[..n2]), Diff(Delete, d[n2..])]
    else [Diff(Delete, d), Diff(Insert, i)]
  }

  /** What is saved on each side of such a pair. */
  ghost function PairSaves(d: Text, i: Text): nat {
    var n := Max(LongestOverlap(d, i), LongestOverlap(i, d));
    if Worthwhile(n, d, i) then n else 0
  }

  ghost predicate PairAt(ds: seq<Diff>, k: int) {
    0 <= k && k + 1 < |ds| && ds[k].op == Delete && ds[k + 1].op == Insert
  }

  /** The list with every pair cut. */
  ghost function Overlapped(ds: seq<Diff>): seq<Diff>
    decreases |ds|
  {
    if PairAt(ds, 0) then PairCut(ds[0].text, ds[1].text) + Overlapped(ds[2..])
    else if |ds| < 2 then ds
    else [ds[0]] + Overlapped(ds[1..])
  }

  ghost function Saved(ds: seq<Diff>): nat
    decreases |ds|
  {
    if PairAt(ds, 0) then PairSaves(ds[0].text, ds[1].text) + Saved(ds[2..])
    else if |ds| < 2 then 0
    else Saved(ds[1..])
  }

  lemma PairCutKeeps(d: Text, i: Text)
    ensures Same(PairCut(d, i), [Diff(Delete, d), Diff(Insert, i)])
    ensures EditLen(PairCut(d, i)) + 2 * PairSaves(d, i) == EditLen([Diff(Delete, d), Diff(Insert, i)])
  {
    hide Same, EditLen, LongestOverlap, IsOverlap;
    var n1, n2 := LongestOverlap(d, i), LongestOverlap(i, d);
    OverlapForward(d, i, n1);
    OverlapBackward(d, i, n2);
    SameOnItself([Diff(Delete, d), Diff(Insert, i)]);
  }

  lemma SameConcat(a: seq<Diff>, b: seq<Diff>, x: seq<Diff>, y: seq<Diff>)
    requires Same(a, x) && Same(b, y)
    ensures Same(a + b, x + y) && EditLen(a + b) - EditLen(x + y) == EditLen(a) - EditLen(x) + EditLen(b) - EditLen(y)
  {
    hide Text1, Text2, EditLen;
    Concat(a, b);
    Concat(x, y);
  }

  /** Cutting the pairs keeps both texts and saves exactly the overlaps, on both sides. */
  lemma {:induction false} OverlappedKeeps(ds: seq<Diff>)
    ensures Same(Overlapped(ds), ds) && EditLen(Overlapped(ds)) + 2 * Saved(ds) == EditLen(ds)
    decreases |ds|
  {
    hide Same, EditLen, PairCut, PairSaves;
    if PairAt(ds, 0) {
      OverlappedKeeps(ds[2..]);
      PairCutKeeps(ds[0].text, ds[1].text);
      assert [ds[0], ds[1]] == [Diff(Delete, ds[0].text), Diff(Insert, ds[1].text)];
      SameConcat(PairCut(ds[0].text, ds[1].text), Overlapped(ds[2..]), [ds[0], ds[1]], ds[2..]);
      assert [ds[0], ds[1]] + ds[2..] == ds;
    } else if |ds| < 2 {
      SameOnItself(ds);
    } else {
      OverlappedKeeps(ds[1..]);
      SameOnItself([ds[0]]);
      SameConcat([ds[0]], Overlapped(ds[1..]), [ds[0]], ds[1..]);
      assert [ds[0]] + ds[1..] == ds;
    }
  }

  /** Each pair of the list is counted. */
  lemma {:induction false} PairIsSaved(ds: seq<Diff>, k: int)
    requires PairAt(ds, k)
    ensures PairSaves(ds[k].text, ds[k + 1].text) <= Saved(ds)
    decreases |ds|
  {
    hide PairSaves;
    if PairAt(ds, 0) && k >= 2 {
      PairIsSaved(ds[2..], k - 2);
    } else if k > 0 {
      assert !PairAt(ds, 0);
      PairIsSaved(ds[1..], k - 1);
    }
  }

  /** Of a merged list, every pair that is left has no overlap worth an equality. */
  ghost predicate NoOverlapLeft(ds: seq<Diff>) {
    forall k :: PairAt(ds, k) ==> PairSaves(ds[k].text, ds[k + 1].text) == 0
  }

  lemma PairCutLeft(d: Text, i: Text)
    ensures NoOverlapLeft(PairCut(d, i)) && |PairCut(d, i)| >= 2
  {
    hide LongestOverlap;
  }

  lemma {:induction false} NothingLeftOver(ds: seq<Diff>)
    requires Merged(ds)
    ensures NoOverlapLeft(Overlapped(ds))
    ensures Overlapped(ds) != [] <==> ds != []
    ensures ds != [] && !PairAt(ds, 0) ==> Overlapped(ds)[0] == ds[0]
    decreases |ds|
  {
    hide PairCut, PairSaves, NoCommonEnds;
    if PairAt(ds, 0) {
      var rest := ds[2..];
      MergedSuffix(ds, 2);
      NothingLeftOver(rest);
      PairCutLeft(ds[0].text, ds[1].text);
      assert rest != [] ==> MergedPair(ds[1], ds[2]);
      LeftConcat(PairCut(ds[0].text, ds[1].text), Overlapped(rest));
    } else if |ds| >= 2 {
      MergedSuffix(ds, 1);
      NothingLeftOver(ds[1..]);
      assert MergedPair(ds[0], ds[1]);
      LeftConcat([ds[0]], Overlapped(ds[1..]));
    }
  }

  lemma MergedSuffix(ds: seq<Diff>, k: nat)
    requires Merged(ds) && k <= |ds|
    ensures Merged(ds[k..])
  {
    forall i | 0 < i < |ds[k..]| ensures MergedPair(ds[k..][i - 1], ds[k..][i]) {
      assert MergedPair(ds[k + i - 1], ds[k + i]);
    }
  }

  lemma LeftConcat(x: seq<Diff>, y: seq<Diff>)
    requires NoOverlapLeft(x) && NoOverlapLeft(y) && x != []
    requires y != [] ==> !(x[|x| - 1].op == Delete && y[0].op == Insert)
    ensures NoOverlapLeft(x + y)
  {
    hide PairSaves;
    forall k | PairAt(x + y, k) ensures PairSaves((x + y)[k].text, (x + y)[k + 1].text) == 0 {
      if k + 1 < |x| {
        assert PairAt(x, k);
      } else {
        assert k >= |x|;
        assert PairAt(y, k - |x|);
      }
    }
  }

  /** A tidy list has no pairs. */
  lemma {:induction false} TidyOverlapped(ds: seq<Diff>)
    requires forall k :: !PairAt(ds, k)
    ensures Overlapped(ds) == ds
    decreases |ds|
  {
    if |ds| >= 2 {
      assert !PairAt(ds, 0);
      forall k ensures !PairAt(ds[1..], k) {
        assert !PairAt(ds, k + 1);
      }
      TidyOverlapped(ds[1..]);
    }
  }

  /** Last loop of diff_cleanupSemantic: an overlap as big as half of either edit becomes an equality. */
  method ExtractOverlaps(ds: seq<Diff>) returns (diffs: seq<Diff>)
    ensures diffs == Overlapped(ds)
    ensures Same(diffs, ds) && EditLen(diffs) + 2 * Saved(ds) == EditLen(ds) && (Tidy(ds) ==> diffs == ds)
    ensures forall k :: PairAt(ds, k) ==> EditLen(diffs) + 2 * PairSaves(ds[k].text, ds[k + 1].text) <= EditLen(ds)
    ensures Merged(ds) ==> NoOverlapLeft(diffs)
  {
    hide Same, EditLen, IsOverlap, LongestOverlap, Overlapped, Saved, PairSaves, PairCut, Merged;
    diffs := ds;
    var cur := 1;
    OverlapStart(ds);
    while cur < |diffs|
      invariant 1 <= cur && cur - 1 <= |diffs| && diffs[..cur - 1] + Overlapped(diffs[cur - 1..]) == Overlapped(ds)
      decreases |diffs| - cur
    {
      var prev := cur - 1;
      OverlapStep(diffs, prev);
      if diffs[prev].op == Delete && diffs[cur].op == Insert {
        var deletion, insertion := diffs[prev].text, diffs[cur].text;
        var overlap1 := CommonOverlap(deletion, insertion);
        var overlap2 := CommonOverlap(insertion, deletion);
        LongestIs(deletion, insertion, overlap1);
        LongestIs(insertion, deletion, overlap2);
        PairCutIs(deletion, insertion, overlap1, overlap2);
        if overlap1 >= overlap2 {
          if 2 * overlap1 >= |deletion| || 2 * overlap1 >= |insertion| {
            var r := [Diff(Delete, deletion[..|deletion| - overlap1]), Diff(Equal, insertion[..overlap1]),
                      Diff(Insert, insertion[overlap1..])];
            diffs, cur := diffs[..prev] + r + diffs[cur + 1..], cur + 1;
          }
        } else {
          if 2 * overlap2 >= |deletion| || 2 * overlap2 >= |insertion| {
            // A reverse overlap also swaps the two edits.
            var r := [Diff(Insert, insertion[..|insertion| - overlap2]), Diff(Equal, deletion[..overlap2]),
                      Diff(Delete, deletion[overlap2..])];
            diffs, cur := diffs[..prev] + r + diffs[cur + 1..], cur + 1;
          }
        }
        cur := cur + 1;
      }
      cur := cur + 1;
    }
    OverlapEnd(diffs, cur);
    OverlappedKeeps(ds);
    forall k | PairAt(ds, k) ensures EditLen(diffs) + 2 * PairSaves(ds[k].text, ds[k + 1].text) <= EditLen(ds) {
      PairIsSaved(ds, k);
    }
    if Merged(ds) {
      NothingLeftOver(ds);
    }
    if Tidy(ds) {
      TidyOverlapped(ds);
    }
  }

  lemma OverlapStart(ds: seq<Diff>)
    ensures ds[..0] + Overlapped(ds[0..]) == Overlapped(ds)
  {
    assert ds[0..] == ds;
  }

  /** One turn: a pair is replaced by what it is cut into, any other record is passed. */
  lemma OverlapStep(diffs: seq<Diff>, prev: nat)
    requires prev + 1 < |diffs|
    ensures if diffs[prev].op == Delete && diffs[prev + 1].op == Insert
            then var r := PairCut(diffs[prev].text, diffs[prev + 1].text);
                 var d' := diffs[..prev] + r + diffs[prev + 2..];
                 d'[..prev + |r|] + Overlapped(d'[prev + |r|..]) == diffs[..prev] + Overlapped(diffs[prev..])
                 && (r == [diffs[prev], diffs[prev + 1]] ==> d' == diffs)
            else diffs[..prev + 1] + Overlapped(diffs[prev + 1..]) == diffs[..prev] + Overlapped(diffs[prev..])
  {
    hide PairCut;
    var here := diffs[prev..];
    assert here[0] == diffs[prev] && here[1] == diffs[prev + 1] && here[2..] == diffs[prev + 2..] && here[1..] == diffs[prev + 1..];
    if diffs[prev].op == Delete && diffs[prev + 1].op == Insert {
      assert PairAt(here, 0);
      var r := PairCut(diffs[prev].text, diffs[prev + 1].text);
      var d' := diffs[..prev] + r + diffs[prev + 2..];
      assert d'[..prev + |r|] == diffs[..prev] + r && d'[prev + |r|..] == diffs[prev + 2..];
    } else {
      assert !PairAt(here, 0);
      assert diffs[..prev + 1] == diffs[..prev] + [diffs[prev]];
    }
  }

  lemma OverlapEnd(diffs: seq<Diff>, cur: int)
    requires 1 <= cur && cur - 1 <= |diffs| <= cur
    ensures diffs[..cur - 1] + Overlapped(diffs[cur - 1..]) == diffs
  {
    assert !PairAt(diffs[cur - 1..], 0);
  }

  lemma LongestIs(a: Text, b: Text, n: int)
    requires IsOverlap(a, b, n) && forall m :: IsOverlap(a, b, m) ==> m <= n
    ensures n == LongestOverlap(a, b) && 0 <= n <= |a| && n <= |b|
  {
  }

  lemma PairCutIs(d: Text, i: Text, n1: nat, n2: nat)
    requires n1 == LongestOverlap(d, i) && n2 == LongestOverlap(i, d) && n1 <= |d| && n1 <= |i| && n2 <= |d| && n2 <= |i|
    ensures PairCut(d, i)
         == if n1 >= n2 && (2 * n1 >= |d| || 2 * n1 >= |i|) then
              [Diff(Delete, d[..|d| - n1]), Diff(Equal, i[..n1]), Diff(Insert, i[n1..])]
            else if n1 < n2 && (2 * n2 >= |d| || 2 * n2 >= |i|) then
              [Diff(Insert, i[..|i| - n2]), Diff(Equal, d[..n2]), Diff(Delete, d[n2..])]
            else [Diff(Delete, d), Diff(Insert, i)]
  {
  }

  /** What diff_cleanupSemantic makes of a list: small equalities are dropped until none is left, the list is merged
      if there was one, lone edits are slid to their best places, and overlaps are cut out. */
  ghost predicate SemanticOf(score: (Text, Text) -> int, ds: seq<Diff>, out: seq<Diff>) {
    exists kept, lists, merged ::
      && Way(Semantic, lists, ds, kept) && NoneSmall(Semantic, kept)
      && (if NoneSmall(Semantic, ds) then merged == kept == ds else MergesTo(kept, merged))
      && out == Overlapped(Slides(score, merged))
  }

  /** diff_cleanupSemantic keeps both texts.  It drops small equalities until none is left, merges the list if there
      was one, slides lone edits to their best places, and cuts out overlaps. */
  method CleanupSemantic(score: (Text, Text) -> int, ds: seq<Diff>)
      returns (diffs: seq<Diff>, ghost kept: seq<Diff>, ghost lists: seq<seq<Diff>>, ghost merged: seq<Diff>)
    ensures Same(diffs, ds)
    ensures Way(Semantic, lists, ds, kept) && NoneSmall(Semantic, kept)
    ensures if NoneSmall(Semantic, ds) then merged == kept == ds else MergesTo(kept, merged)
    ensures diffs == Overlapped(Slides(score, merged)) && EditLen(diffs) <= EditLen(kept)
    ensures SemanticOf(score, ds, diffs)
    ensures Tidy(ds) && NoneSmall(Semantic, ds) ==> diffs == ds
  {
    hide Same, Way, NoneSmall, EditLen, Tidy, MergesTo, Slides, Overlapped, Saved, PairSaves, Merged, Unshiftable, NoOverlapLeft;
    if ds == [] {
      WayBegins(Semantic, ds);
      NothingSmall(Semantic);
      SameOnItself(ds);
      NothingToDo(score);
      return ds, ds, [ds], ds;
    }
    var changes;
    diffs, changes, lists := DropSmallEqualities(ds);
    kept := diffs;
    if changes {
      diffs := CleanupMerge(diffs);
      SameAgain(diffs, kept, ds);
    }
    merged := diffs;
    diffs := CleanupSemanticLossless(score, diffs);
    SameAgain(diffs, merged, ds);
    ghost var slid := diffs;
    diffs := ExtractOverlaps(diffs);
    SameAgain(diffs, slid, ds);
  }

  lemma NothingToDo(score: (Text, Text) -> int)
    ensures Overlapped(Slides(score, [])) == []
  {
  }

  lemma SameAgain(x: seq<Diff>, y: seq<Diff>, z: seq<Diff>)
    requires Same(x, y) && Same(y, z)
    ensures Same(x, z)
  {
  }
}
