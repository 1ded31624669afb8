/** diff_cleanupEfficiency: equalities cheaper to edit over than to keep become edits. */
module EfficiencyCleanup {
  import opened DiffList
  import opened MergeCleanup
  import opened SemanticCleanup
  import opened SmallEqualities

  /** The four flags: kinds of edit before the equality on top, and behind it. */
  ghost predicate Flagged(diffs: seq<Diff>, cur: int, looking: bool, e: int, preIns: bool, preDel: bool, postIns: bool, postDel: bool) {
    && 0 <= cur <= |diffs|
    && postIns == Has(Insert, Trailing(diffs[..cur])) && postDel == Has(Delete, Trailing(diffs[..cur]))
    && (looking ==> 0 <= e < cur && preIns == Has(Insert, Trailing(diffs[..e])) && preDel == Has(Delete, Trailing(diffs[..e])))
  }

  lemma FlagOn(diffs: seq<Diff>, cur: int, looking: bool, e: int, preIns: bool, preDel: bool, postIns: bool, postDel: bool)
    requires Flagged(diffs, cur, looking, e, preIns, preDel, postIns, postDel) && cur < |diffs|
    ensures if diffs[cur].op == Equal
            then Flagged(diffs, cur + 1, true, cur, postIns, postDel, false, false)
            else Flagged(diffs, cur + 1, looking, e, preIns, preDel, postIns || diffs[cur].op == Insert,
                         postDel || diffs[cur].op == Delete)
  {
    hide Trailing, Has;
    assert diffs[..cur + 1] == diffs[..cur] + [diffs[cur]];
    OneMoreRecord(diffs[..cur], diffs[cur]);
    OneMoreRecord(Trailing(diffs[..cur]), diffs[cur]);
    NoKinds();
  }

  lemma NoKinds()
    ensures forall op :: !Has(op, [])
  {
  }

  /** The test of the loop asks whether the equality on top is small. */
  lemma FlaggedIsSmall(diffs: seq<Diff>, cur: int, e: int, preIns: bool, preDel: bool, postIns: bool, postDel: bool,
                       last: Text, editCost: int)
    requires Flagged(diffs, cur, true, e, preIns, preDel, postIns, postDel)
    requires diffs[e].text == last != [] && |last| < editCost
    ensures Small(Efficiency(editCost), diffs[e].text, Trailing(diffs[..e]), Trailing(diffs[..cur]))
       <==> (preIns && preDel && postIns && postDel)
            || (|last| < editCost / 2
                && (if preIns then 1 else 0) + (if preDel then 1 else 0)
                   + (if postIns then 1 else 0) + (if postDel then 1 else 0) == 3)
  {
    hide Has, Trailing;
  }

  /** An equality that is no candidate never becomes small: it is too long, or has no edit before it. */
  lemma NoCandidate(editCost: int, text: Text, before: seq<Diff>)
    requires |text| >= editCost || (!Has(Insert, before) && !Has(Delete, before)) || text == []
    ensures forall behind :: !Small(Efficiency(editCost), text, before, behind)
  {
    hide Has;
  }

  /** With both kinds of edit behind an equality, more edits make no difference. */
  lemma MoreOfTheSame(editCost: int, text: Text, before: seq<Diff>, behind: seq<Diff>, r: seq<Diff>)
    requires Has(Insert, behind) && Has(Delete, behind)
    ensures Small(Efficiency(editCost), text, before, behind + r) == Small(Efficiency(editCost), text, before, behind)
  {
    forall op | Has(op, behind) ensures Has(op, behind + r) {
      var k :| 0 <= k < |behind| && behind[k].op == op;
      assert (behind + r)[k].op == op;
    }
  }

  lemma StaysWithBothKinds(editCost: int, d: seq<Diff>)
    requires NoneSmall(Efficiency(editCost), d) && Has(Insert, Trailing(d)) && Has(Delete, Trailing(d))
    ensures Stays(Efficiency(editCost), d)
  {
    hide Small, Has, AllEdits, Trailing;
    var rule := Efficiency(editCost);
    forall r | AllEdits(r) ensures NoneSmall(rule, d + r) {
      forall e, n | 0 < n <= |r| ensures !LastSmall(rule, d, e, r[..n]) {
        if LastIs(d, e) {
          TrailingFrom(d, e);
          assert d[e + 1..|d|] == d[e + 1..];
          MoreOfTheSame(editCost, d[e].text, Trailing(d[..e]), d[e + 1..], r[..n]);
          assert !SmallAt(rule, d, e, |d|);
        }
      }
      hide NoneSmall, LastSmall;
      AppendEdits(rule, d, r);
    }
  }

  /** When the equality before the one that is split has seen both kinds of edit, the scan may go on behind
      the split. */
  lemma ScanGoesOn(editCost: int, diffs: seq<Diff>, cur: int, e: int, safe: int, e': int)
    requires Scanned(Efficiency(editCost), diffs, cur, true, e, safe)
    requires Has(Insert, Trailing(diffs[..e])) && Has(Delete, Trailing(diffs[..e]))
    ensures Scanned(Efficiency(editCost), SplitAt(diffs, e), e + 2, false, e', safe)
    ensures Flagged(SplitAt(diffs, e), e + 2, false, e', true, true, true, true)
  {
    hide NoneSmall, Stays, AllEdits, Has, Trailing;
    var rule, d, split, text := Efficiency(editCost), diffs[..e], SplitAt(diffs, e), diffs[e].text;
    var x, y := Diff(Delete, text), Diff(Insert, text);
    assert diffs[..cur][..e] == d;
    PrefixNoneSmall(rule, diffs[..cur], e);
    StaysWithBothKinds(editCost, d);
    StaysOn(rule, d, x);
    StaysOn(rule, d + [x], y);
    assert split[..e + 2] == d + [x] + [y];
    OneMoreRecord(d, x);
    OneMoreRecord(d + [x], y);
    OneMoreRecord(Trailing(d), x);
    OneMoreRecord(Trailing(d) + [x], y);
  }

  /** The scan: candidates are short equalities after an edit; four flags say which kinds of edit
      stand on either side of the last candidate.  In the end no equality is cheaper to edit than to keep. */
  method DropCheapEqualities(ds: seq<Diff>, editCost: int) returns (diffs: seq<Diff>, changes: bool, ghost lists: seq<seq<Diff>>)
    ensures Same(diffs, ds) && (!changes ==> diffs == ds)
    ensures Way(Efficiency(editCost), lists, ds, diffs) && NoneSmall(Efficiency(editCost), diffs)
    ensures changes <==> !NoneSmall(Efficiency(editCost), ds)
  {
    hide Same, EqualCount, StackOk, LastOk, SplitAt, Scanned, Flagged, Way, SmallAt, Small, NoneSmall, Trailing, Has, Top;
    diffs, changes := ds, false;
    var equalities: seq<int> := [];
    var lastEquality: Text := [];
    var preIns, preDel, postIns, postDel := false, false, false, false;
    var cur := 0;
    ghost var safe, rule := 0, Efficiency(editCost);
    lists := [ds];
    SameOnItself(ds);
    StackEasy(ds, [], 0);
    WayBegins(rule, ds);
    ScanBegins(rule, ds);
    NoFlags(ds, 0, Top([]));
    while cur < |diffs|
      invariant 0 <= cur <= |diffs| && Same(diffs, ds) && (!changes ==> diffs == ds)
      invariant StackOk(diffs, equalities, cur) && LastOk(diffs, equalities, lastEquality)
      invariant lastEquality != [] ==> |lastEquality| < editCost
      invariant Scanned(rule, diffs, cur, lastEquality != [], Top(equalities), safe)
      invariant Flagged(diffs, cur, lastEquality != [], Top(equalities), preIns, preDel, postIns, postDel)
      invariant Way(rule, lists, ds, diffs) && |lists| >= 1 && (changes <==> |lists| > 1)
      decreases EqualCount(diffs), |diffs| - cur
    {
      StackEasy(diffs, equalities, cur);
      StackEasy(diffs, [], cur + 1);
      FlagOn(diffs, cur, lastEquality != [], Top(equalities), preIns, preDel, postIns, postDel);
      if diffs[cur].op == Equal {
        ScanEquality(rule, diffs, cur, lastEquality != [], Top(equalities), safe);
        if |diffs[cur].text| < editCost && (postIns || postDel) {
          StackPush(diffs, equalities, cur);
          BlankIsNeverSmall(rule);
          TopPushed(equalities, cur);
          equalities := equalities + [cur];
          preIns, preDel := postIns, postDel;
          lastEquality := diffs[cur].text;
          FlagsBehind(diffs, cur + 1, true, cur, preIns, preDel, false, false, cur, preIns, preDel);
        } else {
          // Too long, or without an edit before it: forget it and all before.
          FlagsOf(diffs, cur, lastEquality != [], Top(equalities), preIns, preDel, postIns, postDel);
          NoCandidate(editCost, diffs[cur].text, Trailing(diffs[..cur]));
          ScanAny(rule, diffs, cur + 1, cur, Top([]), safe);
          FlagsBehind(diffs, cur + 1, true, cur, postIns, postDel, false, false, Top([]), preIns, preDel);
          equalities := [];
          lastEquality := [];
        }
        postIns, postDel := false, false;
        cur := cur + 1;
      } else {
        if diffs[cur].op == Delete {
          postDel := true;
        } else {
          postIns := true;
        }
        if lastEquality != [] {
          ScanEdit(rule, diffs, cur, Top(equalities), safe);
          TopIsLast(diffs, equalities, cur, lastEquality);
          FlaggedIsSmall(diffs, cur + 1, Top(equalities), preIns, preDel, postIns, postDel, lastEquality, editCost);
        } else {
          ScanPast(rule, diffs, cur, Top(equalities), safe);
        }
        if lastEquality != []
           && ((preIns && preDel && postIns && postDel)
               || (|lastEquality| < editCost / 2
                   && (if preIns then 1 else 0) + (if preDel then 1 else 0)
                      + (if postIns then 1 else 0) + (if postDel then 1 else 0) == 3)) {
          // The equality is split, and the cursor falls back.
          var flags;
          FlagsOf(diffs, cur + 1, true, Top(equalities), preIns, preDel, postIns, postDel);
          diffs, equalities, cur, flags, lists, safe := WalkBack(diffs, ds, equalities, lastEquality, cur, preIns && preDel, editCost,
                                                                lists, safe);
          postIns, postDel := flags, flags;
          lastEquality := [];
          changes := true;
          StackEasy(diffs, equalities, cur);
          FlagsBehind(diffs, cur, false, Top(equalities), flags, flags, flags, flags, Top(equalities), preIns, preDel);
        } else {
          cur := cur + 1;
        }
      }
    }
    ScanEnds(rule, diffs, lastEquality != [], Top(equalities), safe);
    if changes {
      WayNeedsSmall(rule, lists, ds, diffs);
    }
  }

  lemma NoFlags(diffs: seq<Diff>, cur: int, e: int)
    requires 0 <= cur <= |diffs| && Trailing(diffs[..cur]) == []
    ensures Flagged(diffs, cur, false, e, false, false, false, false)
  {
  }

  lemma FlagsOf(diffs: seq<Diff>, cur: int, looking: bool, e: int, preIns: bool, preDel: bool, postIns: bool, postDel: bool)
    requires Flagged(diffs, cur, looking, e, preIns, preDel, postIns, postDel)
    ensures 0 <= cur <= |diffs| && postIns == Has(Insert, Trailing(diffs[..cur])) && postDel == Has(Delete, Trailing(diffs[..cur]))
    ensures looking ==> 0 <= e < cur && preIns == Has(Insert, Trailing(diffs[..e])) && preDel == Has(Delete, Trailing(diffs[..e]))
  {
  }

  /** Without an equality that is looked at, only the flags behind matter. */
  lemma FlagsBehind(diffs: seq<Diff>, cur: int, looking: bool, e: int, p: bool, q: bool, postIns: bool, postDel: bool,
                    e': int, p': bool, q': bool)
    requires Flagged(diffs, cur, looking, e, p, q, postIns, postDel)
    ensures Flagged(diffs, cur, false, e', p', q', postIns, postDel)
  {
  }

  /** The equality on top of the stack becomes a deletion and an insertion; the cursor walks back. */
  method WalkBack(diffs0: seq<Diff>, ghost ds: seq<Diff>, stack: seq<int>, last: Text, cur0: int, settled: bool,
                  ghost editCost: int, ghost lists0: seq<seq<Diff>>, ghost safe0: int)
      returns (diffs: seq<Diff>, equalities: seq<int>, cur: int, flags: bool, ghost lists: seq<seq<Diff>>, ghost safe: int)
    requires Same(diffs0, ds) && StackOk(diffs0, stack, cur0) && LastOk(diffs0, stack, last) && last != [] && cur0 < |diffs0|
    requires Scanned(Efficiency(editCost), diffs0, cur0, true, Top(stack), safe0) && Way(Efficiency(editCost), lists0, ds, diffs0)
    requires SmallAt(Efficiency(editCost), diffs0, Top(stack), cur0 + 1)
    requires settled ==> 0 <= Top(stack) <= |diffs0| && Has(Insert, Trailing(diffs0[..Top(stack)]))
                         && Has(Delete, Trailing(diffs0[..Top(stack)]))
    ensures Same(diffs, ds) && EqualCount(diffs) < EqualCount(diffs0)
    ensures 0 <= cur <= |diffs| && StackOk(diffs, equalities, cur) && flags == settled
    ensures Way(Efficiency(editCost), lists, ds, diffs) && |lists| == |lists0| + 1
    ensures Scanned(Efficiency(editCost), diffs, cur, false, Top(equalities), safe)
    ensures Flagged(diffs, cur, false, Top(equalities), flags, flags, flags, flags)
  {
    hide Same, EqualCount, StackOk, Scanned, Way, Flagged, SmallAt, Has, Trailing, SplitAt, LastOk;
    flags := settled;
    var e;
    diffs, e := SplitTop(diffs0, ds, stack, last, cur0);
    lists := lists0 + [diffs];
    if settled {
      // The equality before has seen both kinds of edit, so the scan goes on behind the split.
      equalities, cur, safe := [], e + 2, safe0;
      StackEasy(diffs, [], cur);
      WayGoesOn(Efficiency(editCost), lists0, ds, diffs0, e, cur0 + 1);
      ScanGoesOn(editCost, diffs0, cur0, e, safe0, Top([]));
    } else {
      equalities, cur := FallBack(diffs0, diffs, stack, cur0);
      ScanFallsBack(Efficiency(editCost), lists0, ds, diffs0, cur0, safe0, stack, diffs, equalities, cur);
      safe := if |stack| < 2 then 0 else stack[|stack| - 2] + 1;
      NoFlags(diffs, cur, Top(equalities));
    }
  }

  /** What diff_cleanupEfficiency makes of a list. */
  ghost predicate EfficiencyOf(editCost: int, ds: seq<Diff>, out: seq<Diff>) {
    exists kept, lists ::
      && Way(Efficiency(editCost), lists, ds, kept) && NoneSmall(Efficiency(editCost), kept)
      && if NoneSmall(Efficiency(editCost), ds) then out == ds else MergesTo(kept, out)
  }

  /** diff_cleanupEfficiency keeps both texts.  It drops small equalities until none is left, and merges the list
      if there was one. */
  method CleanupEfficiency(ds: seq<Diff>, editCost: int)
      returns (diffs: seq<Diff>, ghost kept: seq<Diff>, ghost lists: seq<seq<Diff>>)
    ensures Same(diffs, ds)
    ensures Way(Efficiency(editCost), lists, ds, kept) && NoneSmall(Efficiency(editCost), kept)
    ensures EditLen(diffs) <= EditLen(kept) && if NoneSmall(Efficiency(editCost), ds) then diffs == ds else MergesTo(kept, diffs)
    ensures EfficiencyOf(editCost, ds, diffs)
  {
    hide Same, Way, NoneSmall, EditLen, Merged, MergesTo;
    if ds == [] {
      WayBegins(Efficiency(editCost), ds);
      NothingSmall(Efficiency(editCost));
      SameOnItself(ds);
      return ds, ds, [ds];
    }
    var changes;
    diffs, changes, lists := DropCheapEqualities(ds, editCost);
    kept := diffs;
    if changes {
      diffs := CleanupMerge(diffs);
      SameAgain(diffs, kept, ds);
    }
  }
}
