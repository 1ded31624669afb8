/** diff_cleanupMerge: reorder and merge edit runs, merge equalities, then shift single edits
    sideways until nothing changes.  The list is edited in place around a cursor. */
module MergeCleanup {
  import opened DiffList

  // ----- normal form -----

  ghost predicate NoCommonEnds(a: Text, b: Text) {
    a != [] && b != [] && a[0] != b[0] && a[|a| - 1] != b[|b| - 1]
  }

  ghost predicate MergedPair(x: Diff, y: Diff) {
    x.op != Equal && y.op != Equal ==> x.op == Delete && y.op == Insert && NoCommonEnds(x.text, y.text)
  }

  /** Every run of edits is one record, or a deletion then an insertion with no common ends. */
  ghost predicate Merged(diffs: seq<Diff>) {
    forall i :: 0 < i < |diffs| ==> MergedPair(diffs[i - 1], diffs[i])
  }

  /** An edit between two equalities that can be slid to neither side. */
  ghost predicate Fixed(e1: Text, edit: Text, e2: Text) {
    && e1 != [] && edit != [] && e2 != []
    && e1[|e1| - 1] != edit[|edit| - 1] && edit[0] != e2[0]
  }

  /** Equalities and single edits take turns, none is empty, and no edit can be slid. */
  ghost predicate Tidy(diffs: seq<Diff>) {
    && (forall i :: 0 < i < |diffs| ==> (diffs[i - 1].op == Equal <==> diffs[i].op != Equal))
    && (forall i :: 0 <= i < |diffs| ==> diffs[i].text != [])
    && (forall i :: 0 < i < |diffs| - 1 && diffs[i].op != Equal ==>
          Fixed(diffs[i - 1].text, diffs[i].text, diffs[i + 1].text))
  }

  // ----- the first pass, record by record -----

  /** The records done, the edits of the run that is open, and whether an equality was the last record. */
  datatype MergeState = MergeState(done: seq<Diff>, run: seq<Diff>, prevEqual: bool)

  /** The longest common front of a run goes to the equality before it, the longest common end of what is left
      to the equality behind it. */
  ghost predicate Factored(del: Text, ins: Text, pfx: Text, d: Text, i: Text, sfx: Text) {
    && del == pfx + d + sfx && ins == pfx + i + sfx
    && |pfx| == FrontLen(ins, del) && |sfx| == BackLen(ins[|pfx|..], del[|pfx|..])
  }

  /** A run of several edits in front of an equality becomes at most one deletion and one insertion. */
  ghost function RunClosed(done: seq<Diff>, del: Text, ins: Text, e: Diff): seq<Diff> {
    var n := FrontLen(ins, del);
    var d, i := del[n..], ins[n..];
    var m := BackLen(i, d);
    WithPrefix(done, ins[..n]) + Edits(d[..|d| - m], i[..|i| - m]) + [Diff(Equal, i[|i| - m..] + e.text)]
  }

  ghost function MergeOne(st: MergeState, d: Diff): MergeState {
    if d.op != Equal then MergeState(st.done, st.run + [d], false)
    else if |st.run| > 1 then MergeState(RunClosed(st.done, Text1(st.run), Text2(st.run), d), [], true)
    else if st.prevEqual && st.done != [] then MergeState(Joined(st.done + [d], |st.done|), [], true)
    else MergeState(st.done + st.run + [d], [], true)
  }

  ghost function MergeAll(ds: seq<Diff>): MergeState {
    if ds == [] then MergeState([], [], false) else MergeOne(MergeAll(ds[..|ds| - 1]), ds[|ds| - 1])
  }

  ghost function WithoutBlankEnd(diffs: seq<Diff>): seq<Diff> {
    if diffs != [] && diffs[|diffs| - 1].text == [] then diffs[..|diffs| - 1] else diffs
  }

  /** The list after the first pass, which reads it with an empty equality behind it. */
  ghost function RunsMerged(ds: seq<Diff>): seq<Diff> {
    WithoutBlankEnd(MergeAll(ds + [Diff(Equal, [])]).done)
  }

  /** No two equalities stand next to each other. */
  ghost predicate Apart(diffs: seq<Diff>) {
    forall i :: 0 < i < |diffs| ==> diffs[i - 1].op != Equal || diffs[i].op != Equal
  }

  /** The record at i closes a run of several edits that delete and insert the same. */
  ghost predicate Cancels(ds: seq<Diff>, i: int)
    requires 0 <= i < |ds|
  {
    var run := MergeAll(ds[..i]).run;
    ds[i].op == Equal && |run| > 1 && Text1(run) == Text2(run)
  }

  lemma SameByParts(a: Text, b: Text, n: int)
    requires 0 <= n <= |a| && n <= |b| && a[..n] == b[..n] && a[n..] == b[n..]
    ensures a == b
  {
    Cut(a, n);
    Cut(b, n);
  }

  lemma FrontSame(a: Text, b: Text)
    ensures a[..FrontLen(a, b)] == b[..FrontLen(a, b)]
  {
    FrontLenIs(a, b);
  }

  lemma AllCommon(x: Text, y: Text, m: int)
    requires IsCommonSuffix(x, y, m) && |x| == m == |y|
    ensures x == y
  {
    assert x[0..] == x && y[0..] == y;
  }

  lemma NothingBetween(x: Text, y: Text)
    ensures var m := BackLen(x, y); Edits(y[..|y| - m], x[..|x| - m]) == [] ==> x == y
  {
    hide IsCommonSuffix, BackLen, Edits;
    var m := BackLen(x, y);
    BackLenIs(x, y);
    NoEdits(y[..|y| - m], x[..|x| - m]);
    if |x| == m == |y| {
      AllCommon(x, y, m);
    }
  }

  lemma NoEdits(d: Text, i: Text)
    ensures Edits(d, i) == [] <==> |d| == 0 && |i| == 0
  {
  }

  /** Nothing is left only of a run that deletes and inserts the same. */
  lemma NothingLeft(del: Text, ins: Text)
    ensures var n := FrontLen(ins, del);
            var x, y := ins[n..], del[n..];
            var m := BackLen(x, y);
            Edits(y[..|y| - m], x[..|x| - m]) == [] ==> del == ins
  {
    hide FrontLen, BackLen, Edits;
    var n := FrontLen(ins, del);
    FrontSame(ins, del);
    NothingBetween(ins[n..], del[n..]);
    if ins[n..] == del[n..] {
      SameByParts(ins, del, n);
    }
  }

  lemma ApartClosed(done: seq<Diff>, pfx: Text, d: Text, i: Text, e: Diff)
    requires e.op == Equal && (done != [] ==> done[|done| - 1].op == Equal) && Apart(done) && Edits(d, i) != []
    ensures var r := WithPrefix(done, pfx) + Edits(d, i) + [e]; Apart(r) && r[|r| - 1].op == Equal
  {
    var w, x := WithPrefix(done, pfx), Edits(d, i);
    assert x[0].op != Equal && x[|x| - 1].op != Equal && |x| <= 2;
    assert done != [] ==> |w| == |done| && forall k :: 0 <= k < |w| ==> w[k].op == done[k].op;
    assert done == [] ==> |w| <= 1;
    hide WithPrefix, Edits;
    var r := w + x + [e];
    forall k | 0 < k < |r| ensures r[k - 1].op != Equal || r[k].op != Equal {
      if k < |w| {
        assert r[k] == w[k] && r[k - 1] == w[k - 1];
      } else if k == |r| - 1 {
        assert r[k - 1] == x[|x| - 1];
      } else {
        assert r[k] == x[k - |w|];
      }
    }
  }

  lemma ClosedApart(done: seq<Diff>, del: Text, ins: Text, e: Diff)
    requires del != ins && e.op == Equal && (done != [] ==> done[|done| - 1].op == Equal) && Apart(done)
    ensures var r := RunClosed(done, del, ins, e); r != [] && Apart(r) && r[|r| - 1].op == Equal
  {
    hide Apart, WithPrefix, Edits, FrontLen, BackLen;
    NothingLeft(del, ins);
    var n := FrontLen(ins, del);
    var d, i := del[n..], ins[n..];
    var m := BackLen(i, d);
    ApartClosed(done, ins[..n], d[..|d| - m], i[..|i| - m], Diff(Equal, i[|i| - m..] + e.text));
  }

  /** The done part has its equalities apart and ends with one. */
  ghost predicate ApartState(st: MergeState) {
    && Apart(st.done) && (st.done != [] ==> st.done[|st.done| - 1].op == Equal)
    && AllEdits(st.run) && (st.prevEqual <==> st.run == [] && st.done != [])
  }

  lemma MergeOneApart(st: MergeState, d: Diff)
    requires ApartState(st) && (d.op == Equal && |st.run| > 1 ==> Text1(st.run) != Text2(st.run))
    ensures ApartState(MergeOne(st, d))
  {
    hide RunClosed, Text1, Text2;
    if d.op == Equal && |st.run| > 1 {
      ClosedApart(st.done, Text1(st.run), Text2(st.run), d);
    }
  }

  /** The first pass leaves no two equalities next to each other, unless a run cancels out: then the equalities
      around it stay apart. */
  lemma {:induction false} EqualitiesJoined(ds: seq<Diff>)
    requires forall i :: 0 <= i < |ds| ==> !Cancels(ds, i)
    ensures ApartState(MergeAll(ds))
  {
    if ds != [] {
      var n := |ds| - 1;
      var front := ds[..n];
      forall i | 0 <= i < n ensures !Cancels(front, i) {
        assert !Cancels(ds, i) && front[..i] == ds[..i];
      }
      EqualitiesJoined(front);
      assert !Cancels(ds, n);
      hide ApartState, MergeOne;
      MergeOneApart(MergeAll(front), ds[n]);
    }
  }

  lemma ClosedIs(done: seq<Diff>, del: Text, ins: Text, e: Diff, pfx: Text, d: Text, i: Text, sfx: Text)
    requires Factored(del, ins, pfx, d, i, sfx)
    ensures RunClosed(done, del, ins, e) == WithPrefix(done, pfx) + Edits(d, i) + [Diff(Equal, sfx + e.text)]
    ensures del == pfx + d + sfx && ins == pfx + i + sfx
  {
    var n := |pfx|;
    assert ins[..n] == pfx && del[n..] == d + sfx && ins[n..] == i + sfx;
    assert (d + sfx)[..|d|] == d && (i + sfx)[..|i|] == i && (i + sfx)[|i|..] == sfx;
  }

  lemma NothingToFactor(del: Text, ins: Text)
    requires del == [] || ins == []
    ensures Factored(del, ins, [], del, ins, [])
  {
  }

  // ----- what merging one run does -----

  /** The records before the run, after a common prefix has moved into them. */
  ghost function WithPrefix(pre: seq<Diff>, prefix: Text): seq<Diff> {
    if prefix == [] then pre
    else if pre == [] then [Diff(Equal, prefix)]
    else pre[..|pre| - 1] + [Diff(pre[|pre| - 1].op, pre[|pre| - 1].text + prefix)]
  }

  ghost function Edits(del: Text, ins: Text): seq<Diff> {
    (if del == [] then [] else [Diff(Delete, del)]) + (if ins == [] then [] else [Diff(Insert, ins)])
  }

  lemma {:induction false} RunTexts(run: seq<Diff>)
    requires AllEdits(run)
    ensures EditLen(run) == |Text1(run)| + |Text2(run)| && EqualCount(run) == 0
  {
    if run != [] {
      RunTexts(run[1..]);
    }
  }

  lemma EditsTexts(del: Text, ins: Text)
    ensures Text1(Edits(del, ins)) == del && Text2(Edits(del, ins)) == ins
    ensures EditLen(Edits(del, ins)) == |del| + |ins| && |Edits(del, ins)| <= 2
  {
    var x := if del == [] then [] else [Diff(Delete, del)];
    var y := if ins == [] then [] else [Diff(Insert, ins)];
    Concat(x, y);
    Single(Diff(Delete, del));
    Single(Diff(Insert, ins));
  }

  lemma WithPrefixTexts(pre: seq<Diff>, prefix: Text)
    requires pre != [] ==> pre[|pre| - 1].op == Equal
    ensures Text1(WithPrefix(pre, prefix)) == Text1(pre) + prefix
    ensures Text2(WithPrefix(pre, prefix)) == Text2(pre) + prefix
    ensures EditLen(WithPrefix(pre, prefix)) == EditLen(pre)
    ensures WithPrefix(pre, prefix) != [] ==> WithPrefix(pre, prefix)[|WithPrefix(pre, prefix)| - 1].op == Equal
    ensures |WithPrefix(pre, prefix)| <= |pre| + 1 && (prefix == [] ==> |WithPrefix(pre, prefix)| == |pre|)
  {
    if prefix != [] && pre != [] {
      var head, last := pre[..|pre| - 1], pre[|pre| - 1];
      assert pre == head + [last];
      Concat(head, [last]);
      Concat(head, [Diff(last.op, last.text + prefix)]);
      Single(last);
      Single(Diff(last.op, last.text + prefix));
      Assoc(Text1(head), last.text, prefix);
      Assoc(Text2(head), last.text, prefix);
    }
  }

  /** Factoring common ends out of a run keeps both texts and drops twice their length in edits. */
  lemma RunMerged(pre: seq<Diff>, run: seq<Diff>, e: Diff, pfx: Text, d: Text, i: Text, sfx: Text)
    requires AllEdits(run) && e.op == Equal && (pre != [] ==> pre[|pre| - 1].op == Equal)
    requires Text1(run) == pfx + d + sfx && Text2(run) == pfx + i + sfx
    ensures var new_ := WithPrefix(pre, pfx) + Edits(d, i) + [Diff(Equal, sfx + e.text)];
            && Same(pre + run + [e], new_)
            && EditLen(new_) == EditLen(pre + run + [e]) - 2 * |pfx| - 2 * |sfx|
  {
    var e' := Diff(Equal, sfx + e.text);
    Concat3(pre, run, [e]);
    Concat3(WithPrefix(pre, pfx), Edits(d, i), [e']);
    WithPrefixTexts(pre, pfx);
    EditsTexts(d, i);
    Single(e);
    Single(e');
    RunTexts(run);
    Reassociate(Text1(pre), pfx, d, sfx, e.text);
    Reassociate(Text2(pre), pfx, i, sfx, e.text);
  }

  lemma Reassociate(a: Text, b: Text, c: Text, d: Text, e: Text)
    ensures a + (b + c + d) + e == (a + b) + c + (d + e)
  {
  }

  lemma MergedRun(pre: seq<Diff>, pfx: Text, d: Text, i: Text, e: Diff)
    requires Merged(pre) && e.op == Equal && (pre != [] ==> pre[|pre| - 1].op == Equal)
    requires d != [] && i != [] ==> NoCommonEnds(d, i)
    ensures Merged(WithPrefix(pre, pfx) + Edits(d, i) + [e])
  {
    var w := WithPrefix(pre, pfx);
    var r := w + Edits(d, i) + [e];
    forall k | 0 < k < |r| ensures MergedPair(r[k - 1], r[k]) {
      if k < |w| {
        assert MergedPair(pre[k - 1], pre[k]);
        assert r[k - 1] == w[k - 1] && r[k] == w[k];
      }
    }
  }

  /** The state of the first pass in front of record `cur`, with a run of n edits just behind it. */
  ghost predicate MergeInv(ds: seq<Diff>, diffs: seq<Diff>, cur: int, n: int, del: Text, ins: Text, prevEqual: bool) {
    && 0 <= n <= cur <= |diffs|
    && Same(diffs, ds)
    && AllEdits(diffs[cur - n..cur]) && del == Text1(diffs[cur - n..cur]) && ins == Text2(diffs[cur - n..cur])
    && (n < cur ==> diffs[cur - n - 1].op == Equal)
    && (prevEqual ==> n == 0 && 0 < cur)
    && diffs != [] && diffs[|diffs| - 1].op == Equal
    && Merged(diffs[..cur - n])
    && SizeOk(ds, diffs)
  }

  /** The list did not grow unless edits were saved; `ds` ends in the dummy equality. */
  ghost predicate SizeOk(ds: seq<Diff>, diffs: seq<Diff>)
    requires diffs != []
  {
    || EditLen(diffs) < EditLen(ds)
    || (EditLen(diffs) == EditLen(ds) && |diffs| <= |ds| && (diffs[|diffs| - 1].text == [] || |diffs| < |ds|))
  }

  lemma StepEdit(ds: seq<Diff>, diffs: seq<Diff>, cur: int, n: int, del: Text, ins: Text, prevEqual: bool)
    requires MergeInv(ds, diffs, cur, n, del, ins, prevEqual) && cur < |diffs| && diffs[cur].op != Equal
    ensures MergeInv(ds, diffs, cur + 1, n + 1, if diffs[cur].op == Delete then del + diffs[cur].text else del,
                     if diffs[cur].op == Insert then ins + diffs[cur].text else ins, false)
  {
    hide Same, SizeOk, Text1, Text2, EditLen, Merged;
    var run, x := diffs[cur - n..cur], diffs[cur];
    assert diffs[cur + 1 - (n + 1)..cur + 1] == run + [x];
    Concat(run, [x]);
    Single(x);
  }

  lemma StepKeep(ds: seq<Diff>, diffs: seq<Diff>, cur: int, n: int, del: Text, ins: Text, prevEqual: bool)
    requires MergeInv(ds, diffs, cur, n, del, ins, prevEqual) && cur < |diffs| && diffs[cur].op == Equal
    requires n <= 1
    ensures MergeInv(ds, diffs, cur + 1, 0, [], [], true)
  {
    var p := diffs[..cur + 1];
    forall k | 0 < k < |p| ensures MergedPair(p[k - 1], p[k]) {
      if k < cur - n {
        assert MergedPair(diffs[..cur - n][k - 1], diffs[..cur - n][k]);
      }
    }
  }

  /** Joining an equality to the one before it. */
  ghost function Joined(diffs: seq<Diff>, cur: int): seq<Diff>
    requires 0 < cur < |diffs|
  {
    diffs[..cur - 1] + [Diff(diffs[cur - 1].op, diffs[cur - 1].text + diffs[cur].text)] + diffs[cur + 1..]
  }

  lemma JoinedIs(diffs: seq<Diff>, cur: int)
    requires 0 < cur < |diffs|
    ensures Joined(diffs, cur)
         == diffs[..cur - 1] + [Diff(diffs[cur - 1].op, diffs[cur - 1].text + diffs[cur].text)] + diffs[cur + 1..]
  {
  }

  lemma StepJoin(ds: seq<Diff>, diffs: seq<Diff>, cur: int, n: int, del: Text, ins: Text)
    requires MergeInv(ds, diffs, cur, n, del, ins, true) && cur < |diffs| && diffs[cur].op == Equal
    ensures MergeInv(ds, Joined(diffs, cur), cur, 0, [], [], true)
  {
    hide MergedPair, Text1, Text2, EditLen, EqualCount;
    var pre, a, e, post := diffs[..cur - 1], diffs[cur - 1], diffs[cur], diffs[cur + 1..];
    var ae := Diff(a.op, a.text + e.text);
    assert a.op == Equal;
    assert diffs == pre + [a, e] + post;
    Nothing();
    assert Joined(diffs, cur)[cur..cur] == [];
    Concat([a], [e]);
    Single(a);
    Single(e);
    Single(ae);
    assert [a, e] == [a] + [e];
    Replace(pre, [a, e], [ae], post);
    assert EditLen([a, e]) == EditLen([ae]);
    var p := Joined(diffs, cur)[..cur];
    forall k | 0 < k < |p| ensures MergedPair(p[k - 1], p[k]) {
      assert MergedPair(diffs[..cur][k - 1], diffs[..cur][k]);
      JoinedPair(p[k - 1], a, ae);
    }
  }

  lemma JoinedPair(x: Diff, a: Diff, b: Diff)
    requires a.op == Equal && b.op == Equal
    ensures MergedPair(x, b)
  {
  }

  lemma FrontReplaced(diffs: seq<Diff>, diffs': seq<Diff>, old_: seq<Diff>, new_: seq<Diff>, post: seq<Diff>)
    requires diffs == old_ + post && diffs' == new_ + post && Same(new_, old_)
    ensures Same(diffs', diffs) && diffs'[..|new_|] == new_ && diffs'[|new_|..|new_|] == []
    ensures EditLen(diffs') == EditLen(diffs) + EditLen(new_) - EditLen(old_)
    ensures EqualCount(diffs') == EqualCount(diffs) + EqualCount(new_) - EqualCount(old_)
  {
    hide Text1, Text2, EditLen, EqualCount;
    assert diffs == [] + old_ + post && diffs' == [] + new_ + post;
    Replace([], old_, new_, post);
  }

  lemma StepRun(ds: seq<Diff>, diffs: seq<Diff>, cur: int, n: int, del: Text, ins: Text, prevEqual: bool,
                pfx: Text, d: Text, i: Text, sfx: Text, diffs': seq<Diff>, cur': int)
    requires MergeInv(ds, diffs, cur, n, del, ins, prevEqual) && cur < |diffs| && diffs[cur].op == Equal && 1 < n
    requires del == pfx + d + sfx && ins == pfx + i + sfx
    requires d != [] && i != [] ==> NoCommonEnds(d, i)
    requires var pre, e := diffs[..cur - n], Diff(Equal, sfx + diffs[cur].text);
             && diffs' == WithPrefix(pre, pfx) + Edits(d, i) + [e] + diffs[cur + 1..]
             && cur' == |WithPrefix(pre, pfx)| + |Edits(d, i)| + 1
    ensures MergeInv(ds, diffs', cur', 0, [], [], true)
  {
    hide WithPrefix, Edits, Merged, Text1, Text2, EditLen, EqualCount, NoCommonEnds;
    var pre, run, e, post := diffs[..cur - n], diffs[cur - n..cur], diffs[cur], diffs[cur + 1..];
    var old_, new_ := pre + run + [e], WithPrefix(pre, pfx) + Edits(d, i) + [Diff(Equal, sfx + e.text)];
    RunMerged(pre, run, e, pfx, d, i, sfx);
    MergedRun(pre, pfx, d, i, Diff(Equal, sfx + e.text));
    WithPrefixTexts(pre, pfx);
    EditsTexts(d, i);
    FrontReplaced(diffs, diffs', old_, new_, post);
    assert diffs'[cur'..cur'] == [];
    Nothing();
  }

  // ----- first pass -----

  lemma MergeStart(ds: seq<Diff>)
    requires ds != [] && ds[|ds| - 1] == Diff(Equal, [])
    ensures MergeInv(ds, ds, 0, 0, [], [], false)
  {
  }

  lemma MergeBounds(ds: seq<Diff>, diffs: seq<Diff>, cur: int, n: int, del: Text, ins: Text, prevEqual: bool)
    requires MergeInv(ds, diffs, cur, n, del, ins, prevEqual)
    ensures 0 <= n <= cur && (prevEqual ==> n == 0 && 0 < cur) && (n < cur <= |diffs| ==> diffs[cur - n - 1].op == Equal)
    ensures cur <= |diffs| && del == Text1(diffs[cur - n..cur]) && ins == Text2(diffs[cur - n..cur])
  {
  }

  /** The list ends in an equality, so no run stands at its end. */
  lemma NoRunAtEnd(ds: seq<Diff>, diffs: seq<Diff>, cur: int, n: int, del: Text, ins: Text, prevEqual: bool)
    requires MergeInv(ds, diffs, cur, n, del, ins, prevEqual) && cur == |diffs|
    ensures n == 0
  {
    hide Text1, Text2, EditLen, Merged, Same;
    assert n > 0 ==> diffs[cur - n..cur][n - 1] == diffs[cur - 1];
  }

  /** At the end no run is pending, and dropping an empty dummy changes nothing. */
  lemma MergeFinish(ds: seq<Diff>, diffs: seq<Diff>, cur: int, n: int, del: Text, ins: Text, prevEqual: bool)
    requires MergeInv(ds, diffs, cur, n, del, ins, prevEqual) && cur == |diffs|
    requires ds != [] && ds[|ds| - 1] == Diff(Equal, [])
    ensures diffs != []
    ensures var r := if diffs[|diffs| - 1].text == [] then diffs[..|diffs| - 1] else diffs;
            && Same(r, ds[..|ds| - 1]) && Merged(r)
            && (EditLen(r) < EditLen(ds[..|ds| - 1]) || (EditLen(r) == EditLen(ds[..|ds| - 1]) && |r| < |ds|))
  {
    hide Text1, Text2, EditLen, MergedPair;
    NoRunAtEnd(ds, diffs, cur, n, del, ins, prevEqual);
    assert diffs[..cur - n] == diffs;
    DropEmptyEqual(ds);
    if diffs[|diffs| - 1].text == [] {
      DropEmptyEqual(diffs);
    }
  }

  lemma DropEmptyEqual(diffs: seq<Diff>)
    requires diffs != [] && diffs[|diffs| - 1] == Diff(Equal, [])
    ensures Same(diffs[..|diffs| - 1], diffs) && EditLen(diffs[..|diffs| - 1]) == EditLen(diffs)
  {
    var head := diffs[..|diffs| - 1];
    assert diffs == head + [Diff(Equal, [])];
    Concat(head, [Diff(Equal, [])]);
    Single(Diff(Equal, []));
  }

  /** Inserts the merged records in front of the cursor. */
  method InsertMerged(diffs0: seq<Diff>, cur0: int, textDelete: Text, textInsert: Text)
      returns (diffs: seq<Diff>, cur: int)
    requires 0 <= cur0 <= |diffs0|
    ensures diffs == diffs0[..cur0] + Edits(textDelete, textInsert) + diffs0[cur0..]
    ensures cur == cur0 + |Edits(textDelete, textInsert)|
  {
    diffs, cur := diffs0, cur0;
    if textDelete != [] {
      diffs, cur := diffs[..cur] + [Diff(Delete, textDelete)] + diffs[cur..], cur + 1;
    }
    if textInsert != [] {
      diffs, cur := diffs[..cur] + [Diff(Insert, textInsert)] + diffs[cur..], cur + 1;
    }
  }

  /** Moves a common prefix of deletion and insertion into the equality before the cursor. */
  method FactorPrefix(diffs0: seq<Diff>, cur0: int, textDelete0: Text, textInsert0: Text)
      returns (diffs: seq<Diff>, cur: int, textDelete: Text, textInsert: Text, ghost pfx: Text)
    requires 0 <= cur0 < |diffs0| && (0 < cur0 ==> diffs0[cur0 - 1].op == Equal)
    ensures cur == |WithPrefix(diffs0[..cur0], pfx)|
    ensures diffs == WithPrefix(diffs0[..cur0], pfx) + diffs0[cur0..]
    ensures textDelete0 == pfx + textDelete && textInsert0 == pfx + textInsert
    ensures textDelete != [] && textInsert != [] ==> textDelete[0] != textInsert[0]
    ensures |pfx| == FrontLen(textInsert0, textDelete0)
  {
    diffs, cur, textDelete, textInsert := diffs0, cur0, textDelete0, textInsert0;
    var commonLength := CommonPrefix(textInsert, textDelete);
    FrontLenUnique(textInsert, textDelete, commonLength);
    pfx := textInsert[..commonLength];
    Cut(diffs0, cur0);
    if commonLength != 0 {
      diffs, cur := ExtendBefore(diffs, cur, textInsert[..commonLength]);
      textInsert, textDelete := textInsert[commonLength..], textDelete[commonLength..];
    }
  }

  /** What is left of two texts with different beginnings has no common ends. */
  lemma SuffixFactored(a: Text, b: Text, n: int)
    requires IsCommonSuffix(a, b, n)
    ensures 0 <= n <= |a| && n <= |b|
    ensures var s := a[|a| - n..]; a == a[..|a| - n] + s && b == b[..|b| - n] + s
    ensures var x, y := a[..|a| - n], b[..|b| - n];
            (a != [] && b != [] ==> a[0] != b[0]) && x != [] && y != [] ==> NoCommonEnds(y, x)
    ensures n == 0 ==> a[|a| - n..] == [] && a[..|a| - n] == a && b[..|b| - n] == b
  {
    Cut(a, |a| - n);
    Cut(b, |b| - n);
  }

  /** Moves a common suffix into the equality at the cursor. */
  method FactorSuffix(diffs0: seq<Diff>, cur: int, textDelete0: Text, textInsert0: Text)
      returns (diffs: seq<Diff>, textDelete: Text, textInsert: Text, ghost sfx: Text)
    requires 0 <= cur < |diffs0| && diffs0[cur].op == Equal
    requires textDelete0 != [] && textInsert0 != [] ==> textDelete0[0] != textInsert0[0]
    ensures diffs == diffs0[cur := Diff(Equal, sfx + diffs0[cur].text)]
    ensures textDelete0 == textDelete + sfx && textInsert0 == textInsert + sfx
    ensures textDelete != [] && textInsert != [] ==> NoCommonEnds(textDelete, textInsert)
    ensures |sfx| == BackLen(textInsert0, textDelete0)
  {
    diffs, textDelete, textInsert := diffs0, textDelete0, textInsert0;
    var commonLength := CommonSuffix(textInsert, textDelete);
    BackLenUnique(textInsert, textDelete, commonLength);
    sfx := textInsert[|textInsert| - commonLength..];
    SuffixFactored(textInsert, textDelete, commonLength);
    hide IsCommonSuffix, NoCommonEnds;
    if commonLength != 0 {
      diffs := diffs[cur := Diff(diffs[cur].op, textInsert[|textInsert| - commonLength..] + diffs[cur].text)];
      textInsert := textInsert[..|textInsert| - commonLength];
      textDelete := textDelete[..|textDelete| - commonLength];
    } else {
      assert sfx + diffs0[cur].text == diffs0[cur].text;
    }
  }

  /** Appends text to the equality before the cursor, or starts the list with a new one. */
  method ExtendBefore(diffs0: seq<Diff>, cur0: int, prefix: Text) returns (diffs: seq<Diff>, cur: int)
    requires 0 <= cur0 <= |diffs0| && prefix != [] && (0 < cur0 ==> diffs0[cur0 - 1].op == Equal)
    ensures diffs == WithPrefix(diffs0[..cur0], prefix) + diffs0[cur0..] && cur == |WithPrefix(diffs0[..cur0], prefix)|
  {
    diffs, cur := diffs0, cur0;
    if cur != 0 {
      assert diffs[cur - 1].op == Equal;  // so the source never throws here
      diffs := diffs[cur - 1 := Diff(diffs[cur - 1].op, diffs[cur - 1].text + prefix)];
    } else {
      diffs, cur := [Diff(Equal, prefix)] + diffs, 1;
    }
  }

  method FactorEnds(diffs0: seq<Diff>, cur0: int, textDelete0: Text, textInsert0: Text)
      returns (diffs: seq<Diff>, cur: int, textDelete: Text, textInsert: Text, ghost pfx: Text, ghost sfx: Text)
    requires 0 <= cur0 < |diffs0| && diffs0[cur0].op == Equal && (0 < cur0 ==> diffs0[cur0 - 1].op == Equal)
    ensures cur == |WithPrefix(diffs0[..cur0], pfx)|
    ensures diffs == WithPrefix(diffs0[..cur0], pfx) + ([Diff(Equal, sfx + diffs0[cur0].text)] + diffs0[cur0 + 1..])
    ensures Factored(textDelete0, textInsert0, pfx, textDelete, textInsert, sfx)
    ensures textDelete != [] && textInsert != [] ==> NoCommonEnds(textDelete, textInsert)
  {
    hide WithPrefix, NoCommonEnds, FrontLen, BackLen;
    ghost var e, rest := diffs0[cur0], diffs0[cur0 + 1..];
    diffs, cur, textDelete, textInsert, pfx := FactorPrefix(diffs0, cur0, textDelete0, textInsert0);
    assert diffs0[cur0..] == [e] + rest;
    assert diffs[cur] == e;
    diffs, textDelete, textInsert, sfx := FactorSuffix(diffs, cur, textDelete, textInsert);
    UpdateMiddle(WithPrefix(diffs0[..cur0], pfx), e, Diff(Equal, sfx + e.text), rest);
    Assoc(pfx, textDelete, sfx);
    Assoc(pfx, textInsert, sfx);
  }

  /** Replaces the run of edits before the equality at `cur` by at most two records, moving common
      ends into the equalities around it. */
  method MergeRun(ghost ds: seq<Diff>, diffs0: seq<Diff>, cur0: int, countDelete: int, countInsert: int,
                  textDelete0: Text, textInsert0: Text, ghost prevEqual: bool)
      returns (diffs: seq<Diff>, cur: int)
    requires MergeInv(ds, diffs0, cur0, countDelete + countInsert, textDelete0, textInsert0, prevEqual)
    requires 0 <= countDelete && 0 <= countInsert && 1 < countDelete + countInsert
    requires (countDelete == 0 ==> textDelete0 == []) && (countInsert == 0 ==> textInsert0 == [])
    requires cur0 < |diffs0| && diffs0[cur0].op == Equal
    ensures 0 <= cur < |diffs| && |diffs| - cur == |diffs0| - cur0
    ensures MergeInv(ds, diffs, cur + 1, 0, [], [], true)
    ensures var n := countDelete + countInsert;
            && 0 <= n <= cur0 && diffs[..cur + 1] == RunClosed(diffs0[..cur0 - n], textDelete0, textInsert0, diffs0[cur0])
            && diffs[cur + 1..] == diffs0[cur0 + 1..]
  {
    hide MergeInv, Merged, WithPrefix, Edits, NoCommonEnds, RunClosed, Factored, Text1, Text2, EditLen, Same, AllEdits;
    var n := countDelete + countInsert;
    MergeBounds(ds, diffs0, cur0, n, textDelete0, textInsert0, prevEqual);
    ghost var pre, e, post := diffs0[..cur0 - n], diffs0[cur0], diffs0[cur0 + 1..];
    ghost var pfx, sfx: Text := [], [];
    diffs, cur := diffs0[..cur0 - n] + diffs0[cur0..], cur0 - n;
    RunRemoved(diffs0, cur0, n);
    var textDelete, textInsert := textDelete0, textInsert0;
    if countDelete != 0 && countInsert != 0 {
      diffs, cur, textDelete, textInsert, pfx, sfx := FactorEnds(diffs, cur, textDelete, textInsert);
    } else {
      NothingFactored(pre, e, post, textDelete, textInsert);
      NothingToFactor(textDelete, textInsert);
    }
    ClosedIs(pre, textDelete0, textInsert0, e, pfx, textDelete, textInsert, sfx);
    ghost var w, rest := WithPrefix(pre, pfx), [Diff(Equal, sfx + e.text)] + post;
    assert diffs == w + rest && cur == |w|;
    TakeDrop(w, rest);
    diffs, cur := InsertMerged(diffs, cur, textDelete, textInsert);
    Assoc(w + Edits(textDelete, textInsert), [Diff(Equal, sfx + e.text)], post);
    StepRun(ds, diffs0, cur0, n, textDelete0, textInsert0, prevEqual, pfx, textDelete, textInsert, sfx, diffs, cur + 1);
    NewLength(pre, pfx, textDelete, textInsert, [Diff(Equal, sfx + e.text)], post, diffs, cur);
    FrontOf(w + Edits(textDelete, textInsert) + [Diff(Equal, sfx + e.text)], post, diffs, cur + 1);
  }

  lemma FrontOf(front: seq<Diff>, post: seq<Diff>, diffs: seq<Diff>, n: int)
    requires diffs == front + post && n == |front|
    ensures diffs[..n] == front && diffs[n..] == post
  {
  }

  /** The list without a run of n records before the cursor. */
  lemma RunRemoved(diffs0: seq<Diff>, cur0: int, n: int)
    requires 0 <= n <= cur0 < |diffs0|
    ensures var pre, e, post, cur := diffs0[..cur0 - n], diffs0[cur0], diffs0[cur0 + 1..], cur0 - n;
            var diffs := pre + diffs0[cur0..];
            && diffs == pre + ([e] + post) && |diffs| - cur == |diffs0| - cur0 && diffs[cur] == e && diffs[cur + 1..] == post
            && diffs[..cur] == pre && (0 < cur ==> diffs[cur - 1] == diffs0[cur - 1])
  {
    assert diffs0[cur0..] == [diffs0[cur0]] + diffs0[cur0 + 1..];
  }

  lemma NewLength(pre: seq<Diff>, pfx: Text, d: Text, i: Text, e: seq<Diff>, post: seq<Diff>, diffs: seq<Diff>, cur: int)
    requires diffs == WithPrefix(pre, pfx) + Edits(d, i) + (e + post) && |e| == 1
    requires cur == |WithPrefix(pre, pfx)| + |Edits(d, i)|
    ensures 0 <= cur < |diffs| && |diffs| - cur == 1 + |post|
  {
  }

  lemma NothingFactored(pre: seq<Diff>, e: Diff, post: seq<Diff>, del: Text, ins: Text)
    requires e.op == Equal
    ensures pre + [e] + post == WithPrefix(pre, []) + ([Diff(Equal, [] + e.text)] + post)
    ensures del == [] + del + [] && ins == [] + ins + []
  {
    assert [] + e.text == e.text;
  }

  /** The first pass over a tidy list: nothing has changed, or the closing equality has just been joined. */
  ghost predicate Still(ds: seq<Diff>, diffs: seq<Diff>, cur: int, n: int, prevEqual: bool) {
    Tidy(ds) ==>
      || (diffs == ds + [Diff(Equal, [])] && 0 <= cur <= |diffs|
          && n == (if 0 < cur && diffs[cur - 1].op != Equal then 1 else 0)
          && (prevEqual <==> 0 < cur && diffs[cur - 1].op == Equal)
          && (cur == |diffs| && ds != [] ==> ds[|ds| - 1].op != Equal))
      || (diffs == ds && cur == |diffs| && ds != [] && ds[|ds| - 1].op == Equal)
  }

  lemma StillBegins(ds: seq<Diff>)
    ensures Still(ds, ds + [Diff(Equal, [])], 0, 0, false)
  {
  }

  lemma StillOn(ds: seq<Diff>, diffs: seq<Diff>, cur: int, n: int, prevEqual: bool)
    requires Still(ds, diffs, cur, n, prevEqual) && 0 <= cur < |diffs|
    ensures diffs[cur].op != Equal ==> Still(ds, diffs, cur + 1, n + 1, false)
    ensures diffs[cur].op == Equal && n <= 1 && !prevEqual ==> Still(ds, diffs, cur + 1, 0, true)
    ensures diffs[cur].op == Equal && n <= 1 && prevEqual && 0 < cur ==> Still(ds, Joined(diffs, cur), cur, 0, true)
    ensures Tidy(ds) ==> n <= 1
  {
    if Tidy(ds) && diffs[cur].op == Equal && n <= 1 && prevEqual && 0 < cur {
      assert ds[|ds| - 1].text + [] == ds[|ds| - 1].text;
      assert Joined(diffs, cur) == ds;
    }
  }

  lemma StillEnds(ds: seq<Diff>, diffs: seq<Diff>, cur: int, n: int, prevEqual: bool)
    requires Still(ds, diffs, cur, n, prevEqual) && cur >= |diffs| > 0 && Tidy(ds)
    ensures (if diffs[|diffs| - 1].text == [] then diffs[..|diffs| - 1] else diffs) == ds
  {
  }

  /** How the list in place shows the state of the first pass: what is done, the open run, what is to come. */
  ghost predicate Follows(padded: seq<Diff>, diffs: seq<Diff>, cur: int, n: int, prevEqual: bool) {
    && 0 <= n <= cur <= |diffs| && |diffs| - cur <= |padded|
    && var i := |padded| - (|diffs| - cur);
       && diffs[cur..] == padded[i..]
       && MergeAll(padded[..i]) == MergeState(diffs[..cur - n], diffs[cur - n..cur], prevEqual)
  }

  lemma FollowsStart(padded: seq<Diff>)
    ensures Follows(padded, padded, 0, 0, false)
  {
    assert padded[..0] == [];
  }

  lemma FollowsOne(padded: seq<Diff>, diffs: seq<Diff>, cur: int, n: int, prevEqual: bool)
    requires Follows(padded, diffs, cur, n, prevEqual) && cur < |diffs|
    ensures var i := |padded| - (|diffs| - cur);
            && 0 <= i < |padded| && padded[i] == diffs[cur] && diffs[cur + 1..] == padded[i + 1..]
            && MergeAll(padded[..i + 1]) == MergeOne(MergeState(diffs[..cur - n], diffs[cur - n..cur], prevEqual), diffs[cur])
  {
    var i := |padded| - (|diffs| - cur);
    assert padded[i] == padded[i..][0] && diffs[cur] == diffs[cur..][0];
    assert padded[..i + 1][..i] == padded[..i];
    assert diffs[cur + 1..] == diffs[cur..][1..] && padded[i + 1..] == padded[i..][1..];
  }

  lemma FollowsEdit(padded: seq<Diff>, diffs: seq<Diff>, cur: int, n: int, prevEqual: bool)
    requires Follows(padded, diffs, cur, n, prevEqual) && cur < |diffs| && diffs[cur].op != Equal
    ensures Follows(padded, diffs, cur + 1, n + 1, false)
  {
    FollowsOne(padded, diffs, cur, n, prevEqual);
    assert diffs[cur - n..cur + 1] == diffs[cur - n..cur] + [diffs[cur]];
  }

  lemma FollowsKeep(padded: seq<Diff>, diffs: seq<Diff>, cur: int, n: int, prevEqual: bool)
    requires Follows(padded, diffs, cur, n, prevEqual) && cur < |diffs| && diffs[cur].op == Equal && n <= 1 && !prevEqual
    ensures Follows(padded, diffs, cur + 1, 0, true)
  {
    hide RunClosed, Joined, MergeAll;
    FollowsOne(padded, diffs, cur, n, prevEqual);
    assert diffs[..cur + 1] == diffs[..cur - n] + diffs[cur - n..cur] + [diffs[cur]];
    assert diffs[cur + 1..cur + 1] == [];
  }

  lemma FollowsJoin(padded: seq<Diff>, diffs: seq<Diff>, cur: int)
    requires Follows(padded, diffs, cur, 0, true) && 0 < cur < |diffs| && diffs[cur].op == Equal
    ensures Follows(padded, Joined(diffs, cur), cur, 0, true)
  {
    FollowsOne(padded, diffs, cur, 0, true);
    var joined, done := Joined(diffs, cur), diffs[..cur];
    assert joined[cur..] == diffs[cur + 1..];
    assert (done + [diffs[cur]])[..cur - 1] == diffs[..cur - 1] && (done + [diffs[cur]])[cur + 1..] == [];
    assert joined[..cur] == Joined(done + [diffs[cur]], cur);
    assert joined[cur..cur] == [] && diffs[cur..cur] == [];
  }

  lemma FollowsRun(padded: seq<Diff>, diffs: seq<Diff>, cur: int, n: int, prevEqual: bool, del: Text, ins: Text,
                   diffs': seq<Diff>, cur': int)
    requires Follows(padded, diffs, cur, n, prevEqual) && cur < |diffs| && diffs[cur].op == Equal && n > 1
    requires del == Text1(diffs[cur - n..cur]) && ins == Text2(diffs[cur - n..cur])
    requires 0 <= cur' < |diffs'| && |diffs'| - cur' == |diffs| - cur && diffs'[cur' + 1..] == diffs[cur + 1..]
    requires diffs'[..cur' + 1] == RunClosed(diffs[..cur - n], del, ins, diffs[cur])
    ensures Follows(padded, diffs', cur' + 1, 0, true)
  {
    hide RunClosed, Text1, Text2;
    FollowsOne(padded, diffs, cur, n, prevEqual);
    assert diffs'[cur' + 1..cur' + 1] == [];
  }

  lemma FollowsToEnd(padded: seq<Diff>, diffs: seq<Diff>, cur: int, prevEqual: bool)
    requires Follows(padded, diffs, cur, 0, prevEqual) && cur >= |diffs|
    ensures MergeAll(padded).done == diffs
  {
    assert padded[..|padded|] == padded && diffs[..cur] == diffs;
  }

  lemma NotTidy(ds: seq<Diff>, diffs: seq<Diff>, cur: int, n: int, prevEqual: bool)
    requires !Tidy(ds)
    ensures Still(ds, diffs, cur, n, prevEqual)
  {
  }

  /** All that is known of the first pass in front of record `cur`. */
  ghost predicate Passing(ds: seq<Diff>, padded: seq<Diff>, diffs: seq<Diff>, cur: int, n: int, del: Text, ins: Text,
                          prevEqual: bool) {
    && MergeInv(padded, diffs, cur, n, del, ins, prevEqual) && Still(ds, diffs, cur, n, prevEqual)
    && Follows(padded, diffs, cur, n, prevEqual)
  }

  lemma PassStart(ds: seq<Diff>, padded: seq<Diff>)
    requires padded == ds + [Diff(Equal, [])]
    ensures Passing(ds, padded, padded, 0, 0, [], [], false)
  {
    hide MergeInv, Still, Follows;
    MergeStart(padded);
    StillBegins(ds);
    FollowsStart(padded);
  }

  lemma PassBounds(ds: seq<Diff>, padded: seq<Diff>, diffs: seq<Diff>, cur: int, n: int, del: Text, ins: Text, prevEqual: bool)
    requires Passing(ds, padded, diffs, cur, n, del, ins, prevEqual)
    ensures 0 <= n <= cur <= |diffs| && (prevEqual ==> n == 0 && 0 < cur) && (n < cur ==> diffs[cur - n - 1].op == Equal)
    ensures MergeInv(padded, diffs, cur, n, del, ins, prevEqual)
  {
    MergeBounds(padded, diffs, cur, n, del, ins, prevEqual);
  }

  lemma PassEdit(ds: seq<Diff>, padded: seq<Diff>, diffs: seq<Diff>, cur: int, n: int, del: Text, ins: Text, prevEqual: bool)
    requires Passing(ds, padded, diffs, cur, n, del, ins, prevEqual) && 0 <= cur < |diffs| && diffs[cur].op != Equal
    ensures Passing(ds, padded, diffs, cur + 1, n + 1, if diffs[cur].op == Delete then del + diffs[cur].text else del,
                    if diffs[cur].op == Insert then ins + diffs[cur].text else ins, false)
  {
    hide MergeInv, Still, Follows;
    StillOn(ds, diffs, cur, n, prevEqual);
    FollowsEdit(padded, diffs, cur, n, prevEqual);
    StepEdit(padded, diffs, cur, n, del, ins, prevEqual);
  }

  lemma PassKeep(ds: seq<Diff>, padded: seq<Diff>, diffs: seq<Diff>, cur: int, n: int, del: Text, ins: Text)
    requires Passing(ds, padded, diffs, cur, n, del, ins, false) && 0 <= cur < |diffs| && diffs[cur].op == Equal && n <= 1
    ensures Passing(ds, padded, diffs, cur + 1, 0, [], [], true)
  {
    hide MergeInv, Still, Follows;
    StillOn(ds, diffs, cur, n, false);
    FollowsKeep(padded, diffs, cur, n, false);
    StepKeep(padded, diffs, cur, n, del, ins, false);
  }

  lemma PassJoin(ds: seq<Diff>, padded: seq<Diff>, diffs: seq<Diff>, cur: int, n: int, del: Text, ins: Text)
    requires Passing(ds, padded, diffs, cur, n, del, ins, true) && 0 <= cur < |diffs| && diffs[cur].op == Equal
    ensures 0 < cur && Passing(ds, padded, Joined(diffs, cur), cur, 0, [], [], true)
  {
    MergeBounds(padded, diffs, cur, n, del, ins, true);
    hide MergeInv, Still, Follows, Joined;
    StillOn(ds, diffs, cur, n, true);
    FollowsJoin(padded, diffs, cur);
    StepJoin(padded, diffs, cur, n, del, ins);
  }

  lemma PassRun(ds: seq<Diff>, padded: seq<Diff>, diffs: seq<Diff>, cur: int, n: int, del: Text, ins: Text, prevEqual: bool,
                diffs': seq<Diff>, cur': int)
    requires Passing(ds, padded, diffs, cur, n, del, ins, prevEqual) && 0 <= cur < |diffs| && diffs[cur].op == Equal && n > 1
    requires 0 <= cur' < |diffs'| && |diffs'| - cur' == |diffs| - cur && MergeInv(padded, diffs', cur' + 1, 0, [], [], true)
    requires n <= cur && diffs'[..cur' + 1] == RunClosed(diffs[..cur - n], del, ins, diffs[cur])
    requires diffs'[cur' + 1..] == diffs[cur + 1..]
    ensures Passing(ds, padded, diffs', cur' + 1, 0, [], [], true)
  {
    MergeBounds(padded, diffs, cur, n, del, ins, prevEqual);
    hide MergeInv, Still, Follows, RunClosed;
    StillOn(ds, diffs, cur, n, prevEqual);
    NotTidy(ds, diffs', cur' + 1, 0, true);
    FollowsRun(padded, diffs, cur, n, prevEqual, del, ins, diffs', cur');
  }

  lemma PassEnd(ds: seq<Diff>, padded: seq<Diff>, diffs: seq<Diff>, cur: int, n: int, del: Text, ins: Text, prevEqual: bool)
    requires Passing(ds, padded, diffs, cur, n, del, ins, prevEqual) && cur == |diffs| && padded == ds + [Diff(Equal, [])]
    ensures diffs != []
    ensures var r := WithoutBlankEnd(diffs);
            && r == RunsMerged(ds) && (Tidy(ds) ==> r == ds) && Same(r, ds) && Merged(r)
            && (EditLen(r) < EditLen(ds) || (EditLen(r) == EditLen(ds) && |r| <= |ds|))
  {
    assert padded[..|padded| - 1] == ds;
    hide MergeInv, Still, Follows, Merged, Same, Tidy, EditLen;
    MergeFinish(padded, diffs, cur, n, del, ins, prevEqual);
    NoRunAtEnd(padded, diffs, cur, n, del, ins, prevEqual);
    FollowsToEnd(padded, diffs, cur, prevEqual);
    if Tidy(ds) {
      StillEnds(ds, diffs, cur, n, prevEqual);
    }
  }

  /** Merges every edit run and every stretch of equalities. */
  method MergeRuns(ds: seq<Diff>) returns (diffs: seq<Diff>)
    ensures diffs == RunsMerged(ds)
    ensures Tidy(ds) ==> diffs == ds
    ensures Same(diffs, ds) && Merged(diffs)
    ensures EditLen(diffs) < EditLen(ds) || (EditLen(diffs) == EditLen(ds) && |diffs| <= |ds|)
  {
    hide Same, Merged, EditLen, MergeInv, Tidy, Passing, Joined, RunClosed, RunsMerged;
    diffs := ds + [Diff(Equal, [])];  // an equality to close the last run
    ghost var padded := diffs;
    var cur, countDelete, countInsert := 0, 0, 0;
    var textDelete, textInsert: Text := [], [];
    var prevEqual := false;
    PassStart(ds, padded);
    while cur < |diffs|
      invariant 0 <= countDelete && 0 <= countInsert && 0 <= cur <= |diffs|
      invariant Passing(ds, padded, diffs, cur, countDelete + countInsert, textDelete, textInsert, prevEqual)
      invariant countDelete == 0 ==> textDelete == []
      invariant countInsert == 0 ==> textInsert == []
      decreases |diffs| - cur
    {
      PassBounds(ds, padded, diffs, cur, countDelete + countInsert, textDelete, textInsert, prevEqual);
      match diffs[cur].op {
        case Insert =>
          PassEdit(ds, padded, diffs, cur, countDelete + countInsert, textDelete, textInsert, prevEqual);
          countInsert := countInsert + 1;
          textInsert := textInsert + diffs[cur].text;
          prevEqual := false;
        case Delete =>
          PassEdit(ds, padded, diffs, cur, countDelete + countInsert, textDelete, textInsert, prevEqual);
          countDelete := countDelete + 1;
          textDelete := textDelete + diffs[cur].text;
          prevEqual := false;
        case Equal =>
          if countDelete + countInsert > 1 {
            ghost var before, at := diffs, cur;
            diffs, cur := MergeRun(padded, diffs, cur, countDelete, countInsert, textDelete, textInsert, prevEqual);
            PassRun(ds, padded, before, at, countDelete + countInsert, textDelete, textInsert, prevEqual, diffs, cur);
          } else if prevEqual {
            PassJoin(ds, padded, diffs, cur, countDelete + countInsert, textDelete, textInsert);
            JoinedIs(diffs, cur);
            diffs := diffs[..cur - 1] + [Diff(diffs[cur - 1].op, diffs[cur - 1].text + diffs[cur].text)] + diffs[cur + 1..];
            cur := cur - 1;
          } else {
            PassKeep(ds, padded, diffs, cur, countDelete + countInsert, textDelete, textInsert);
          }
          countDelete, countInsert, textDelete, textInsert := 0, 0, [], [];
          prevEqual := true;
      }
      cur := cur + 1;
    }
    PassEnd(ds, padded, diffs, cur, countDelete + countInsert, textDelete, textInsert, prevEqual);
    if diffs[|diffs| - 1].text == [] {
      diffs := diffs[..|diffs| - 1];
    }
  }

  // ----- second pass -----

  lemma ShiftedLeft(p: Text, op: Operation, x: Text, q: Text)
    ensures Same([Diff(Equal, p), Diff(op, x + p), Diff(Equal, q)], [Diff(op, p + x), Diff(Equal, p + q)])
    ensures EditLen([Diff(Equal, p), Diff(op, x + p), Diff(Equal, q)]) == EditLen([Diff(op, p + x), Diff(Equal, p + q)])
  {
    ThreeTexts(Diff(Equal, p), Diff(op, x + p), Diff(Equal, q));
    TwoTexts(Diff(op, p + x), Diff(Equal, p + q));
    assert p + (x + p) + q == (p + x) + (p + q);
  }

  lemma ShiftedRight(p: Text, op: Operation, x: Text, q: Text)
    ensures Same([Diff(Equal, p), Diff(op, q + x), Diff(Equal, q)], [Diff(Equal, p + q), Diff(op, x + q)])
    ensures EditLen([Diff(Equal, p), Diff(op, q + x), Diff(Equal, q)]) == EditLen([Diff(Equal, p + q), Diff(op, x + q)])
  {
    ThreeTexts(Diff(Equal, p), Diff(op, q + x), Diff(Equal, q));
    TwoTexts(Diff(Equal, p + q), Diff(op, x + q));
    assert p + (q + x) + q == (p + q) + (x + q);
  }

  /** An edit of a tidy list cannot be shifted. */
  lemma TidyStays(diffs: seq<Diff>, i: int)
    requires Tidy(diffs) && 0 < i < |diffs| - 1 && diffs[i - 1].op == Equal
    ensures var p, c, n := diffs[i - 1].text, diffs[i].text, diffs[i + 1].text;
            && Fixed(p, c, n) && diffs[i].op != Equal
            && (|c| >= |p| ==> c[|c| - |p|..] != p) && (|c| >= |n| ==> c[..|n|] != n)
  {
    var p, c, n := diffs[i - 1].text, diffs[i].text, diffs[i + 1].text;
    assert Fixed(p, c, n);
    if |c| >= |p| {
      assert c[|c| - |p|..][|p| - 1] == c[|c| - 1];
    }
    if |c| >= |n| {
      assert c[..|n|][0] == c[0];
    }
  }

  ghost predicate EndsWith(t: Text, p: Text) {
    |p| <= |t| && t[|t| - |p|..] == p
  }

  ghost predicate BeginsWith(t: Text, p: Text) {
    |p| <= |t| && t[..|p|] == p
  }

  /** A record between two equalities that ends with the one before it or begins with the one behind it. */
  ghost predicate Shiftable(p: Diff, c: Diff, n: Diff) {
    p.op == Equal && n.op == Equal && (EndsWith(c.text, p.text) || BeginsWith(c.text, n.text))
  }

  ghost predicate Unshiftable(diffs: seq<Diff>) {
    forall i :: 0 <= i && i + 2 < |diffs| ==> !Shiftable(diffs[i], diffs[i + 1], diffs[i + 2])
  }

  /** What one turn of the second pass does to the first three records. */
  ghost function ShiftedOnce(p: Diff, c: Diff, n: Diff): (Diff, Diff)
    requires Shiftable(p, c, n)
  {
    if EndsWith(c.text, p.text) then (Diff(c.op, p.text + c.text[..|c.text| - |p.text|]), Diff(Equal, p.text + n.text))
    else (Diff(Equal, p.text + n.text), Diff(c.op, c.text[|n.text|..] + n.text))
  }

  /** The list after the second pass. */
  ghost function Shifted(d: seq<Diff>): seq<Diff>
    decreases |d|
  {
    if |d| < 3 then d
    else if Shiftable(d[0], d[1], d[2]) then
      var (x, y) := ShiftedOnce(d[0], d[1], d[2]);
      [x] + Shifted([y] + d[3..])
    else [d[0]] + Shifted(d[1..])
  }

  lemma ShiftedStep(d: seq<Diff>, at: nat)
    requires at + 2 < |d|
    ensures d[at..][3..] == d[at + 3..] && d[at..][1..] == d[at + 1..]
    ensures d[at..][0] == d[at] && d[at..][1] == d[at + 1] && d[at..][2] == d[at + 2]
    ensures Shiftable(d[at], d[at + 1], d[at + 2]) ==>
              var (x, y) := ShiftedOnce(d[at], d[at + 1], d[at + 2]);
              var d' := d[..at] + [x, y] + d[at + 3..];
              d[..at] + Shifted(d[at..]) == d'[..at + 1] + Shifted(d'[at + 1..])
    ensures !Shiftable(d[at], d[at + 1], d[at + 2]) ==> d[..at] + Shifted(d[at..]) == d[..at + 1] + Shifted(d[at + 1..])
  {
    hide Shiftable, ShiftedOnce;
    if Shiftable(d[at], d[at + 1], d[at + 2]) {
      var (x, y) := ShiftedOnce(d[at], d[at + 1], d[at + 2]);
      var d' := d[..at] + [x, y] + d[at + 3..];
      assert d'[at + 1..] == [y] + d[at + 3..] && d'[..at + 1] == d[..at] + [x];
    } else {
      assert d[..at + 1] == d[..at] + [d[at]];
    }
  }

  /** The second pass in front of the triple at `prev`. */
  ghost predicate ShiftInv(ds: seq<Diff>, diffs: seq<Diff>, prev: int, changes: bool) {
    && 0 <= prev <= |diffs| && Same(diffs, ds) && EditLen(diffs) == EditLen(ds)
    && diffs[..prev] + Shifted(diffs[prev..]) == Shifted(ds)
    && (if changes then |diffs| < |ds| && !Unshiftable(ds) && !Tidy(ds)
        else diffs == ds && forall i :: 0 <= i < prev && i + 2 < |ds| ==> !Shiftable(ds[i], ds[i + 1], ds[i + 2]))
  }

  lemma ShiftStart(ds: seq<Diff>)
    ensures ShiftInv(ds, ds, 0, false)
  {
    hide Shifted;
    assert ds[0..] == ds && ds[..0] == [];
  }

  lemma ShiftOn(ds: seq<Diff>, diffs: seq<Diff>, prev: int, changes: bool)
    requires ShiftInv(ds, diffs, prev, changes) && prev + 2 < |diffs|
    requires !Shiftable(diffs[prev], diffs[prev + 1], diffs[prev + 2])
    ensures ShiftInv(ds, diffs, prev + 1, changes)
  {
    hide Shifted, Shiftable, Text1, Text2, EditLen, Tidy;
    ShiftedStep(diffs, prev);
  }

  lemma ShiftKeeps(p: Diff, c: Diff, n: Diff)
    requires Shiftable(p, c, n)
    ensures var (x, y) := ShiftedOnce(p, c, n); Same([p, c, n], [x, y]) && EditLen([p, c, n]) == EditLen([x, y])
  {
    hide Text1, Text2, EditLen;
    if EndsWith(c.text, p.text) {
      Cut(c.text, |c.text| - |p.text|);
      ShiftedLeft(p.text, c.op, c.text[..|c.text| - |p.text|], n.text);
    } else {
      Cut(c.text, |n.text|);
      ShiftedRight(p.text, c.op, c.text[|n.text|..], n.text);
    }
  }

  lemma ShiftChange(ds: seq<Diff>, diffs: seq<Diff>, prev: int, changes: bool)
    requires ShiftInv(ds, diffs, prev, changes) && prev + 2 < |diffs|
    requires Shiftable(diffs[prev], diffs[prev + 1], diffs[prev + 2])
    ensures var (x, y) := ShiftedOnce(diffs[prev], diffs[prev + 1], diffs[prev + 2]);
            ShiftInv(ds, diffs[..prev] + [x, y] + diffs[prev + 3..], prev + 1, true)
  {
    hide Shifted, Text1, Text2, EditLen, EqualCount, ShiftedOnce, Shiftable, Tidy;
    var p, c, n := diffs[prev], diffs[prev + 1], diffs[prev + 2];
    var (x, y) := ShiftedOnce(p, c, n);
    ShiftedStep(diffs, prev);
    ShiftKeeps(p, c, n);
    var pre, post := diffs[..prev], diffs[prev + 3..];
    assert diffs == pre + [p, c, n] + post;
    Replace(pre, [p, c, n], [x, y], post);
    if !changes {
      NotTidyWhenShiftable(ds, prev);
    }
  }

  lemma NotTidyWhenShiftable(ds: seq<Diff>, i: int)
    requires 0 <= i && i + 2 < |ds| && Shiftable(ds[i], ds[i + 1], ds[i + 2])
    ensures !Tidy(ds) && !Unshiftable(ds)
  {
    if Tidy(ds) {
      TidyStays(ds, i + 1);
    }
  }

  /** Shifts single edits over a neighbouring equality, which eliminates that equality. */
  method ShiftEdits(ds: seq<Diff>) returns (diffs: seq<Diff>, changes: bool)
    ensures Same(diffs, ds) && EditLen(diffs) == EditLen(ds) && diffs == Shifted(ds)
    ensures if changes then |diffs| < |ds| else diffs == ds
    ensures changes <==> !Unshiftable(ds)
    ensures Tidy(ds) ==> !changes
  {
    hide Same, EditLen, Tidy, Shifted, ShiftInv;
    diffs, changes := ds, false;
    var prev := 0;
    ShiftStart(ds);
    while prev + 2 < |diffs|
      invariant 0 <= prev <= |diffs| && ShiftInv(ds, diffs, prev, changes)
      decreases |diffs| - prev
    {
      var p, c, n := diffs[prev], diffs[prev + 1], diffs[prev + 2];
      if p.op == Equal && n.op == Equal && |c.text| >= |p.text| && c.text[|c.text| - |p.text|..] == p.text {
        // The edit ends with the equality before it.
        ShiftChange(ds, diffs, prev, changes);
        diffs := diffs[..prev] + [Diff(c.op, p.text + c.text[..|c.text| - |p.text|]), Diff(Equal, p.text + n.text)]
                 + diffs[prev + 3..];
        changes := true;
      } else if p.op == Equal && n.op == Equal && |c.text| >= |n.text| && c.text[..|n.text|] == n.text {
        // The edit begins with the equality behind it.
        ShiftChange(ds, diffs, prev, changes);
        diffs := diffs[..prev] + [Diff(Equal, p.text + n.text), Diff(c.op, c.text[|n.text|..] + n.text)] + diffs[prev + 3..];
        changes := true;
      } else {
        ShiftOn(ds, diffs, prev, changes);
      }
      prev := prev + 1;
    }
    ShiftEnd(ds, diffs, prev, changes);
  }

  lemma ShiftEnd(ds: seq<Diff>, diffs: seq<Diff>, prev: int, changes: bool)
    requires ShiftInv(ds, diffs, prev, changes) && prev + 2 >= |diffs|
    ensures Same(diffs, ds) && EditLen(diffs) == EditLen(ds) && diffs == Shifted(ds)
    ensures if changes then |diffs| < |ds| else diffs == ds
    ensures (changes <==> !Unshiftable(ds)) && (Tidy(ds) ==> !changes)
  {
    hide Shiftable, Tidy, Text1, Text2, EditLen;
    NoThree(diffs, prev);
  }

  lemma NoThree(d: seq<Diff>, prev: nat)
    requires prev <= |d| <= prev + 2
    ensures d[..prev] + Shifted(d[prev..]) == d
  {
  }

  // ----- the whole clean-up -----

  /** Both passes, n times over and then once without a shift. */
  ghost predicate MergesIn(ds: seq<Diff>, out: seq<Diff>, n: nat)
    decreases n
  {
    var merged := RunsMerged(ds);
    if n == 0 then Unshiftable(merged) && out == merged
    else !Unshiftable(merged) && MergesIn(Shifted(merged), out, n - 1)
  }

  /** What diff_cleanupMerge makes of a list: both passes, until the second one finds nothing. */
  ghost predicate MergesTo(ds: seq<Diff>, out: seq<Diff>) {
    exists n: nat :: MergesIn(ds, out, n)
  }

  lemma MergesNow(ds: seq<Diff>)
    requires Unshiftable(RunsMerged(ds))
    ensures MergesTo(ds, RunsMerged(ds))
  {
    assert MergesIn(ds, RunsMerged(ds), 0);
  }

  lemma MergesLater(ds: seq<Diff>, out: seq<Diff>)
    requires !Unshiftable(RunsMerged(ds)) && MergesTo(Shifted(RunsMerged(ds)), out)
    ensures MergesTo(ds, out)
  {
    hide RunsMerged, Shifted, Unshiftable;
    var n: nat :| MergesIn(Shifted(RunsMerged(ds)), out, n);
    assert MergesIn(ds, out, n + 1);
  }

  /** The result is determined. */
  lemma {:induction false} MergesToOne(ds: seq<Diff>, x: seq<Diff>, y: seq<Diff>, n: nat, m: nat)
    requires MergesIn(ds, x, n) && MergesIn(ds, y, m)
    ensures x == y
    decreases n
  {
    hide RunsMerged, Shifted, Unshiftable;
    if n > 0 {
      MergesToOne(Shifted(RunsMerged(ds)), x, y, n - 1, m - 1);
    }
  }

  /** diff_cleanupMerge: keeps both texts, never adds edits, and ends in merged form, with nothing left to shift.
      A tidy list stays as it is. */
  method CleanupMerge(ds: seq<Diff>) returns (diffs: seq<Diff>)
    ensures Same(diffs, ds) && EditLen(diffs) <= EditLen(ds) && Merged(diffs) && Unshiftable(diffs)
    ensures MergesTo(ds, diffs) && (Tidy(ds) ==> diffs == ds)
    decreases EditLen(ds), |ds|
  {
    hide Tidy, Unshiftable, RunsMerged, Shifted, MergesTo;
    var merged := MergeRuns(ds);
    var changes;
    diffs, changes := ShiftEdits(merged);
    if changes {
      // Records moved, so both passes run again.
      diffs := CleanupMerge(diffs);
      MergesLater(ds, diffs);
    } else {
      MergesNow(ds);
    }
  }
}
