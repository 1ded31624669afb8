/** What the two clean-ups that drop equalities are after: an equality is small if the edits directly before
    and directly behind it make it not worth keeping, and it then becomes a deletion and an insertion. */
module SmallEqualities {
  import opened DiffList
  import opened Helpers

  datatype Rule = Semantic | Efficiency(editCost: int)

  /** The characters of all records of one kind. */
  function Amount(op: Operation, d: seq<Diff>): nat
    decreases |d|
  {
    if d == [] then 0
    else Amount(op, d[..|d| - 1]) + if d[|d| - 1].op == op then |d[|d| - 1].text| else 0
  }

  predicate Has(op: Operation, d: seq<Diff>) {
    exists k :: 0 <= k < |d| && d[k].op == op
  }

  /** Of the four: insertions and deletions, before and behind. */
  function Kinds(before: seq<Diff>, behind: seq<Diff>): nat {
    (if Has(Insert, before) then 1 else 0) + (if Has(Delete, before) then 1 else 0)
    + (if Has(Insert, behind) then 1 else 0) + (if Has(Delete, behind) then 1 else 0)
  }

  /** Not worth keeping: by the semantic rule, no longer than the insertions or the deletions on each side; by
      the efficiency rule, cheaper to edit than to keep. */
  predicate Small(rule: Rule, text: Text, before: seq<Diff>, behind: seq<Diff>) {
    text != [] &&
    match rule
    case Semantic =>
      && |text| <= Max(Amount(Insert, before), Amount(Delete, before))
      && |text| <= Max(Amount(Insert, behind), Amount(Delete, behind))
    case Efficiency(cost) =>
      || (|text| < cost && Kinds(before, behind) == 4)
      || (|text| < cost / 2 && Kinds(before, behind) == 3)
  }

  /** The edits at the end of a list. */
  function Trailing(d: seq<Diff>): seq<Diff>
    decreases |d|
  {
    if d == [] || d[|d| - 1].op == Equal then [] else Trailing(d[..|d| - 1]) + [d[|d| - 1]]
  }

  /** The record at e is an equality that is small for the edits before it and those behind it up to n. */
  ghost predicate SmallAt(rule: Rule, d: seq<Diff>, e: int, n: int) {
    && 0 <= e < n <= |d| && d[e].op == Equal && AllEdits(d[e + 1..n])
    && Small(rule, d[e].text, Trailing(d[..e]), d[e + 1..n])
  }

  ghost predicate NoneSmall(rule: Rule, d: seq<Diff>) {
    forall e, n :: !SmallAt(rule, d, e, n)
  }

  /** An equality turned into a deletion and an insertion of the same text. */
  ghost function SplitAt(diffs: seq<Diff>, e: int): seq<Diff>
    requires 0 <= e < |diffs|
  {
    diffs[..e] + [Diff(Delete, diffs[e].text), Diff(Insert, diffs[e].text)] + diffs[e + 1..]
  }

  /** One small equality is dropped. */
  ghost predicate Drops(rule: Rule, d: seq<Diff>, d': seq<Diff>) {
    exists e, n :: SmallAt(rule, d, e, n) && d' == SplitAt(d, e)
  }

  /** The lists on the way from one to the other, a small equality dropped each time. */
  ghost predicate Way(rule: Rule, lists: seq<seq<Diff>>, from: seq<Diff>, to: seq<Diff>) {
    && lists != [] && lists[0] == from && lists[|lists| - 1] == to
    && forall i :: 0 <= i < |lists| - 1 ==> Drops(rule, lists[i], lists[i + 1])
  }

  lemma WayBegins(rule: Rule, d: seq<Diff>)
    ensures Way(rule, [d], d, d)
  {
  }

  lemma WayGoesOn(rule: Rule, lists: seq<seq<Diff>>, from: seq<Diff>, d: seq<Diff>, e: int, n: int)
    requires Way(rule, lists, from, d) && SmallAt(rule, d, e, n)
    ensures Way(rule, lists + [SplitAt(d, e)], from, SplitAt(d, e))
  {
    assert 0 <= e < |d|;
    hide SmallAt, SplitAt;
    assert Drops(rule, d, SplitAt(d, e));
    hide Drops;
    var more := lists + [SplitAt(d, e)];
    forall i | 0 <= i < |more| - 1 ensures Drops(rule, more[i], more[i + 1]) {
      assert more[i] == lists[i];
    }
  }

  /** A way that goes anywhere begins with a small equality. */
  lemma WayNeedsSmall(rule: Rule, lists: seq<seq<Diff>>, from: seq<Diff>, to: seq<Diff>)
    requires Way(rule, lists, from, to) && |lists| > 1
    ensures !NoneSmall(rule, from)
  {
    hide SmallAt, SplitAt;
    assert Drops(rule, lists[0], lists[1]);
  }

  // ----- growing lists -----

  lemma OneMoreRecord(d: seq<Diff>, x: Diff)
    ensures Trailing(d + [x]) == if x.op == Equal then [] else Trailing(d) + [x]
    ensures Amount(Insert, d + [x]) == Amount(Insert, d) + if x.op == Insert then |x.text| else 0
    ensures Amount(Delete, d + [x]) == Amount(Delete, d) + if x.op == Delete then |x.text| else 0
    ensures forall op :: Has(op, d + [x]) <==> Has(op, d) || x.op == op
  {
    assert (d + [x])[..|d|] == d;
    forall op ensures Has(op, d + [x]) <==> Has(op, d) || x.op == op {
      if Has(op, d) {
        var k :| 0 <= k < |d| && d[k].op == op;
        assert (d + [x])[k].op == op;
      }
      if x.op == op {
        assert (d + [x])[|d|].op == op;
      }
    }
  }

  lemma {:induction false} TrailingFrom(d: seq<Diff>, e: int)
    requires 0 <= e < |d| && d[e].op == Equal && AllEdits(d[e + 1..])
    ensures Trailing(d) == d[e + 1..]
    decreases |d|
  {
    var n := |d| - 1;
    if e < n {
      assert d[n] == d[e + 1..][n - e - 1];
      assert d[e + 1..] == d[..n][e + 1..] + [d[n]];
      TrailingFrom(d[..n], e);
    }
  }

  lemma NothingSmall(rule: Rule)
    ensures NoneSmall(rule, [])
  {
  }

  /** Nothing is small with no edits behind it. */
  lemma NoneBehind(rule: Rule, text: Text, before: seq<Diff>)
    ensures !Small(rule, text, before, [])
  {
  }

  /** What is behind a place does not matter to the equalities before it. */
  lemma SmallWithin(rule: Rule, d: seq<Diff>, k: int, e: int, n: int)
    requires 0 <= k <= |d| && n <= k
    ensures SmallAt(rule, d[..k], e, n) <==> SmallAt(rule, d, e, n)
  {
    hide Small, Trailing;
    if 0 <= e < n {
      assert d[..k][e + 1..n] == d[e + 1..n] && d[..k][..e] == d[..e];
    }
  }

  lemma PrefixNoneSmall(rule: Rule, d: seq<Diff>, k: int)
    requires NoneSmall(rule, d) && 0 <= k <= |d|
    ensures NoneSmall(rule, d[..k])
  {
    hide Small, Trailing, AllEdits;
    forall e, n ensures !SmallAt(rule, d[..k], e, n) {
      if n <= k {
        SmallWithin(rule, d, k, e, n);
      }
    }
  }

  lemma AppendEqual(rule: Rule, d: seq<Diff>, x: Diff)
    requires NoneSmall(rule, d) && x.op == Equal
    ensures NoneSmall(rule, d + [x])
  {
    hide Small, Trailing;
    var all := d + [x];
    assert all[..|d|] == d;
    forall e, n ensures !SmallAt(rule, all, e, n) {
      if n <= |d| {
        SmallWithin(rule, all, |d|, e, n);
      } else if n == |d| + 1 && 0 <= e {
        if e < |d| {
          assert all[e + 1..n][|d| - e - 1] == x;
        } else if e == |d| {
          assert all[e + 1..n] == [];
          NoneBehind(rule, x.text, Trailing(all[..e]));
        }
      }
    }
  }

  /** The last equality of a list, with the edits behind it and more to come, would be small. */
  ghost predicate LastSmall(rule: Rule, d: seq<Diff>, e: int, more: seq<Diff>) {
    && 0 <= e < |d| && d[e].op == Equal && AllEdits(d[e + 1..])
    && Small(rule, d[e].text, Trailing(d[..e]), d[e + 1..] + more)
  }

  lemma BehindAreEdits(d: seq<Diff>, r: seq<Diff>)
    requires AllEdits(r)
    ensures forall k :: |d| <= k < |d + r| ==> (d + r)[k].op != Equal
  {
  }

  lemma OnlyTheLast(rule: Rule, d: seq<Diff>, r: seq<Diff>, e: int, n: int)
    requires AllEdits(r)
    ensures SmallAt(rule, d + r, e, n) ==>
              if n <= |d| then SmallAt(rule, d, e, n) else n <= |d| + |r| && LastSmall(rule, d, e, r[..n - |d|])
  {
    hide Small, Trailing;
    var all := d + r;
    assert all[..|d|] == d;
    BehindAreEdits(d, r);
    if n <= |d| {
      SmallWithin(rule, all, |d|, e, n);
    } else if 0 <= e < |d| && n <= |all| {
      assert all[e + 1..n] == d[e + 1..] + r[..n - |d|] && all[..e] == d[..e];
      FrontOfEdits(d[e + 1..], r[..n - |d|]);
    }
  }

  lemma FrontOfEdits(x: seq<Diff>, y: seq<Diff>)
    ensures AllEdits(x + y) ==> AllEdits(x) && AllEdits(y)
  {
    forall k | 0 <= k < |x| ensures (x + y)[k] == x[k] {}
    forall k | 0 <= k < |y| ensures (x + y)[|x| + k] == y[k] {}
  }

  /** Edits that follow make no equality small unless they make the last one. */
  lemma AppendEdits(rule: Rule, d: seq<Diff>, r: seq<Diff>)
    requires NoneSmall(rule, d) && AllEdits(r)
    requires forall e, n :: 0 < n <= |r| ==> !LastSmall(rule, d, e, r[..n])
    ensures NoneSmall(rule, d + r)
  {
    hide SmallAt, LastSmall, AllEdits;
    forall e, n ensures !SmallAt(rule, d + r, e, n) {
      OnlyTheLast(rule, d, r, e, n);
    }
  }

  // ----- scanning a list -----

  /** The last equality of a list. */
  ghost predicate LastIs(d: seq<Diff>, e: int) {
    0 <= e < |d| && d[e].op == Equal && AllEdits(d[e + 1..])
  }

  lemma EditsBehind(d: seq<Diff>, e: int)
    requires LastIs(d, e)
    ensures forall k :: e < k < |d| ==> d[k].op != Equal
  {
    forall k | e < k < |d| ensures d[k].op != Equal {
      assert d[k] == d[e + 1..][k - e - 1];
    }
  }

  lemma OneLast(d: seq<Diff>, e: int, e': int)
    requires LastIs(d, e) && LastIs(d, e')
    ensures e == e'
  {
    EditsBehind(d, e);
    EditsBehind(d, e');
  }

  /** However many edits follow, no equality becomes small. */
  ghost predicate Stays(rule: Rule, d: seq<Diff>) {
    forall r :: AllEdits(r) ==> NoneSmall(rule, d + r)
  }

  lemma StaysOn(rule: Rule, d: seq<Diff>, x: Diff)
    requires Stays(rule, d) && x.op != Equal
    ensures Stays(rule, d + [x]) && NoneSmall(rule, d + [x])
  {
    hide NoneSmall;
    assert AllEdits([x]);
    forall r | AllEdits(r) ensures NoneSmall(rule, (d + [x]) + r) {
      assert AllEdits([x] + r);
      assert (d + [x]) + r == d + ([x] + r);
    }
  }

  lemma StaysEmpty(rule: Rule)
    ensures Stays(rule, []) && NoneSmall(rule, [])
  {
    NothingSmall(rule);
    hide NoneSmall;
    forall r | AllEdits(r) ensures NoneSmall(rule, [] + r) {
      AppendEdits(rule, [], r);
    }
  }

  /** The last equality never becomes small. */
  lemma StaysIf(rule: Rule, d: seq<Diff>, e: int)
    requires NoneSmall(rule, d) && LastIs(d, e)
    requires forall r :: AllEdits(r) ==> !Small(rule, d[e].text, Trailing(d[..e]), d[e + 1..] + r)
    ensures Stays(rule, d)
  {
    hide NoneSmall, Small, Trailing;
    forall r | AllEdits(r) ensures NoneSmall(rule, d + r) {
      forall e', n | 0 < n <= |r| ensures !LastSmall(rule, d, e', r[..n]) {
        if LastIs(d, e') {
          OneLast(d, e, e');
          assert r == r[..n] + r[n..];
          FrontOfEdits(r[..n], r[n..]);
        }
      }
      AppendEdits(rule, d, r);
    }
  }

  /** Nothing in front of the cursor is small.  Either the last equality there is looked at, or none of them
      becomes small by the edits that follow, or everything up to an equality behind the cursor is settled. */
  ghost predicate Scanned(rule: Rule, diffs: seq<Diff>, cur: int, looking: bool, e: int, safe: int) {
    && 0 <= cur <= |diffs| && NoneSmall(rule, diffs[..cur])
    && (looking ==> LastIs(diffs[..cur], e))
    && (!looking ==> Stays(rule, diffs[..cur]) || Settled(rule, diffs, cur, safe))
  }

  ghost predicate Settled(rule: Rule, diffs: seq<Diff>, cur: int, safe: int) {
    0 <= cur < safe <= |diffs| && NoneSmall(rule, diffs[..safe]) && diffs[safe - 1].op == Equal
  }

  lemma ScanBegins(rule: Rule, diffs: seq<Diff>)
    ensures forall e, safe :: Scanned(rule, diffs, 0, false, e, safe)
    ensures diffs[..0] == Trailing([]) == [] && diffs[..|diffs|] == diffs
  {
    StaysEmpty(rule);
    assert diffs[..0] == [];
  }

  lemma ScanEnds(rule: Rule, diffs: seq<Diff>, looking: bool, e: int, safe: int)
    requires Scanned(rule, diffs, |diffs|, looking, e, safe)
    ensures NoneSmall(rule, diffs)
  {
    hide NoneSmall, Stays;
    assert diffs[..|diffs|] == diffs;
  }

  lemma ScanAny(rule: Rule, diffs: seq<Diff>, cur: int, e: int, e': int, safe: int)
    requires Scanned(rule, diffs, cur, false, e, safe)
    ensures Scanned(rule, diffs, cur, false, e', safe)
  {
  }

  lemma ScanEquality(rule: Rule, diffs: seq<Diff>, cur: int, looking: bool, e: int, safe: int)
    requires Scanned(rule, diffs, cur, looking, e, safe) && cur < |diffs| && diffs[cur].op == Equal
    ensures Scanned(rule, diffs, cur + 1, true, cur, safe) && Trailing(diffs[..cur + 1]) == []
    ensures (forall r :: AllEdits(r) ==> !Small(rule, diffs[cur].text, Trailing(diffs[..cur]), r)) ==>
              Scanned(rule, diffs, cur + 1, false, cur, safe)
  {
    hide NoneSmall, Small, Stays;
    var d, d' := diffs[..cur], diffs[..cur + 1];
    assert d' == d + [diffs[cur]] && d'[cur + 1..] == [] && d'[..cur] == d;
    AppendEqual(rule, d, diffs[cur]);
    if forall r :: AllEdits(r) ==> !Small(rule, diffs[cur].text, Trailing(d), r) {
      forall r | AllEdits(r) ensures !Small(rule, d'[cur].text, Trailing(d'[..cur]), d'[cur + 1..] + r) {
        assert [] + r == r;
      }
      StaysIf(rule, d', cur);
    }
  }

  /** An edit behind the equality that is looked at. */
  lemma ScanEdit(rule: Rule, diffs: seq<Diff>, cur: int, e: int, safe: int)
    requires Scanned(rule, diffs, cur, true, e, safe) && cur < |diffs| && diffs[cur].op != Equal
    ensures 0 <= e < cur && LastIs(diffs[..cur + 1], e)
    ensures if Small(rule, diffs[e].text, Trailing(diffs[..e]), Trailing(diffs[..cur + 1]))
            then SmallAt(rule, diffs, e, cur + 1)
            else Scanned(rule, diffs, cur + 1, true, e, safe)
  {
    hide NoneSmall, Small, AllEdits;
    var d, d', x := diffs[..cur], diffs[..cur + 1], diffs[cur];
    assert d' == d + [x] && d'[e + 1..] == d[e + 1..] + [x] == diffs[e + 1..cur + 1] && d[..e] == d'[..e] == diffs[..e];
    LessEdits(d[e + 1..], x);
    TrailingFrom(d', e);
    if !Small(rule, diffs[e].text, Trailing(diffs[..e]), d'[e + 1..]) {
      OneEdit(x);
      forall e', n | 0 < n <= |[x]| ensures !LastSmall(rule, d, e', [x][..n]) {
        if LastIs(d, e') {
          OneLast(d, e, e');
          assert [x][..n] == [x];
        }
      }
      AppendEdits(rule, d, [x]);
    }
  }

  lemma OneEdit(x: Diff)
    requires x.op != Equal
    ensures AllEdits([x])
  {
  }

  lemma LessEdits(d: seq<Diff>, x: Diff)
    ensures AllEdits(d + [x]) <==> AllEdits(d) && x.op != Equal
  {
    FrontOfEdits(d, [x]);
    assert [x][0] == x;
  }

  /** An edit while no equality is looked at. */
  lemma ScanPast(rule: Rule, diffs: seq<Diff>, cur: int, e: int, safe: int)
    requires Scanned(rule, diffs, cur, false, e, safe) && cur < |diffs| && diffs[cur].op != Equal
    ensures Scanned(rule, diffs, cur + 1, false, e, safe)
  {
    hide NoneSmall, Small, Trailing, Stays;
    var d, d' := diffs[..cur], diffs[..cur + 1];
    assert d' == d + [diffs[cur]];
    if Stays(rule, d) {
      StaysOn(rule, d, diffs[cur]);
    } else {
      assert diffs[..safe][..cur + 1] == d';
      PrefixNoneSmall(rule, diffs[..safe], cur + 1);
    }
  }

  /** A small equality at e is split, and the scan goes back to the start, or to an equality before another one
      that was passed already. */
  lemma ScanBack(rule: Rule, diffs: seq<Diff>, cur: int, e: int, safe: int, back: int, p: int, e': int)
    requires Scanned(rule, diffs, cur, true, e, safe)
    requires 0 <= back <= p < e && diffs[p].op == Equal
    ensures Scanned(rule, SplitAt(diffs, e), back, false, e', p + 1)
    ensures SplitAt(diffs, e)[..back] == diffs[..back]
  {
    hide NoneSmall, Small, Trailing, Stays, AllEdits;
    var d, split := diffs[..cur], SplitAt(diffs, e);
    assert d[..p + 1] == split[..p + 1] && d[..back] == split[..back] == diffs[..back] && split[p] == diffs[p];
    PrefixNoneSmall(rule, d, p + 1);
    PrefixNoneSmall(rule, d, back);
  }
}
