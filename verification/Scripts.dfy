/** Edit lists as paths through the edit graph: no list is cheaper than the edit distance, and the
    distance splits where diff_main and diff_bisect split the texts. */
module Scripts {
  import opened DiffList
  import opened EditGraph

  // ----- cutting the graph -----

  lemma {:induction false} DistOfPrefixes(a: Text, b: Text, x: nat, y: nat, n: nat, m: nat)
    requires x <= n <= |a| && y <= m <= |b|
    ensures Dist(a[..n], b[..m], x, y) == Dist(a, b, x, y)
    decreases x + y
  {
    if x > 0 && y > 0 {
      DistOfPrefixes(a, b, x - 1, y - 1, n, m);
      DistOfPrefixes(a, b, x - 1, y, n, m);
      DistOfPrefixes(a, b, x, y - 1, n, m);
    }
  }

  lemma {:induction false} RestOfSuffixes(a: Text, b: Text, n: nat, m: nat, x: nat, y: nat)
    requires n + x <= |a| && m + y <= |b|
    ensures Rest(a[n..], b[m..], x, y) == Rest(a, b, n + x, m + y)
    decreases |a| + |b| - x - y
  {
    if n + x < |a| && m + y < |b| {
      RestOfSuffixes(a, b, n, m, x + 1, y + 1);
      RestOfSuffixes(a, b, n, m, x + 1, y);
      RestOfSuffixes(a, b, n, m, x, y + 1);
    }
  }

  /** The two parts left by a cut cost what the graph costs before and after it. */
  lemma CutCosts(a: Text, b: Text, x: nat, y: nat)
    requires x <= |a| && y <= |b|
    ensures Cost(a[..x], b[..y]) == Dist(a, b, x, y)
    ensures Cost(a[x..], b[y..]) == Rest(a, b, x, y)
  {
    DistOfPrefixes(a, b, x, y, x, y);
    ReversedCost(a[x..], b[y..]);
    RestOfSuffixes(a, b, x, y, 0, 0);
  }

  lemma {:induction false} RunIsFree(a: Text, b: Text, x: nat, y: nat, n: nat)
    requires x + n <= |a| && y + n <= |b| && a[x..x + n] == b[y..y + n]
    ensures Dist(a, b, x + n, y + n) == Dist(a, b, x, y)
    ensures Rest(a, b, x, y) == Rest(a, b, x + n, y + n)
    decreases n
  {
    if n > 0 {
      assert a[x..x + n][0] == a[x] && a[x..x + n][n - 1] == a[x + n - 1];
      assert b[y..y + n][0] == b[y] && b[y..y + n][n - 1] == b[y + n - 1];
      assert a[x..x + n][..n - 1] == a[x..x + n - 1] && b[y..y + n][..n - 1] == b[y..y + n - 1];
      assert a[x..x + n][1..] == a[x + 1..x + n] && b[y..y + n][1..] == b[y + 1..y + n];
      RunIsFree(a, b, x, y, n - 1);
      RunIsFree(a, b, x + 1, y + 1, n - 1);
    }
  }

  lemma PrefixCost(p: Text, a: Text, b: Text)
    ensures Cost(p + a, p + b) == Cost(a, b)
  {
    hide Dist, Rest;
    TakeDrop(p, a);
    TakeDrop(p, b);
    assert (p + a)[0..|p|] == p && (p + b)[0..|p|] == p;
    RunIsFree(p + a, p + b, 0, 0, |p|);
    CutCosts(p + a, p + b, |p|, |p|);
    ReversedCost(p + a, p + b);
  }

  lemma SuffixCost(a: Text, b: Text, s: Text)
    ensures Cost(a + s, b + s) == Cost(a, b)
  {
    hide Rest;
    TakeDrop(a, s);
    TakeDrop(b, s);
    assert (a + s)[|a|..|a| + |s|] == s && (b + s)[|b|..|b| + |s|] == s;
    RunIsFree(a + s, b + s, |a|, |b|, |s|);
    CutCosts(a + s, b + s, |a|, |b|);
  }

  // ----- lists as scripts -----

  lemma SkipFirst(a: Text, b: Text, n: nat)
    requires n <= |a|
    ensures Cost(a, b) <= n + Cost(a[n..], b)
    ensures Cost(b, a) <= n + Cost(b, a[n..])
  {
    CutCosts(a, b, n, 0);
    CutCosts(b, a, 0, n);
    Through(a, b, n, 0);
    Through(b, a, 0, n);
    assert b[0..] == b;
  }

  /** No edit list between two texts is cheaper than their edit distance. */
  lemma {:induction false} ScriptCost(diffs: seq<Diff>)
    ensures Cost(Text1(diffs), Text2(diffs)) <= EditLen(diffs)
  {
    if diffs != [] {
      ScriptCost(diffs[1..]);
      RecordCost(diffs[0], Text1(diffs[1..]), Text2(diffs[1..]));
    }
  }

  lemma RecordCost(d: Diff, a: Text, b: Text)
    ensures Cost(Source(d) + a, Destination(d) + b) <= (if d.op == Equal then 0 else |d.text|) + Cost(a, b)
  {
    hide Cost;
    TakeDrop(d.text, a);
    TakeDrop(d.text, b);
    assert [] + a == a && [] + b == b;
    match d.op {
      case Delete => SkipFirst(d.text + a, b, |d.text|);
      case Insert => SkipFirst(d.text + b, a, |d.text|);
      case Equal => PrefixCost(d.text, a, b);
    }
  }

  /** The list leads from text1 to text2. */
  ghost predicate Leads(diffs: seq<Diff>, text1: Text, text2: Text) {
    Text1(diffs) == text1 && Text2(diffs) == text2
  }

  /** A list no other list with the same texts beats. */
  ghost predicate Minimal(diffs: seq<Diff>, text1: Text, text2: Text) {
    Leads(diffs, text1, text2) && forall other :: Leads(other, text1, text2) ==> EditLen(diffs) <= EditLen(other)
  }

  lemma CheapestIsMinimal(diffs: seq<Diff>, text1: Text, text2: Text)
    requires Leads(diffs, text1, text2) && EditLen(diffs) <= Cost(text1, text2)
    ensures Minimal(diffs, text1, text2) && EditLen(diffs) == Cost(text1, text2)
  {
    ScriptCost(diffs);
    forall other | Leads(other, text1, text2) ensures EditLen(diffs) <= EditLen(other) {
      ScriptCost(other);
    }
  }
}
