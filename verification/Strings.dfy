/** Substring search and the overlap of two texts. */
module Strings {
  import opened DiffList

  ghost predicate Occurs(text: Text, pattern: Text, i: int) {
    0 <= i && i + |pattern| <= |text| && text[i..i + |pattern|] == pattern
  }

  /** First occurrence at or after `from`, or -1. */
  method Find(text: Text, pattern: Text, from: nat) returns (i: int)
    ensures i == -1 || (from <= i && Occurs(text, pattern, i))
    ensures forall j :: from <= j && Occurs(text, pattern, j) ==> 0 <= i <= j
  {
    i := from;
    while i + |pattern| <= |text|
      invariant from <= i
      invariant forall j :: from <= j < i ==> !Occurs(text, pattern, j)
    {
      if text[i..i + |pattern|] == pattern {
        return;
      }
      i := i + 1;
    }
    i := -1;
  }

  /** Last occurrence, or -1. */
  method FindLast(text: Text, pattern: Text) returns (i: int)
    ensures i == -1 || Occurs(text, pattern, i)
    ensures forall j :: Occurs(text, pattern, j) ==> j <= i
  {
    i := |text| - |pattern|;
    while 0 <= i
      invariant i <= |text| - |pattern|
      invariant forall j :: i < j ==> !Occurs(text, pattern, j)
    {
      if text[i..i + |pattern|] == pattern {
        return;
      }
      i := i - 1;
    }
    i := -1;
  }

  /** The last n characters of a are the first n of b. */
  ghost predicate IsOverlap(a: Text, b: Text, n: int) {
    0 <= n <= |a| && n <= |b| && a[|a| - n..] == b[..n]
  }

  /** The search of diff_commonOverlap on two texts of equal length: grow a suffix of the first,
      jumping to where it next occurs in the second. */
  method OverlapSearch(a: Text, b: Text) returns (best: int)
    requires |a| == |b| && a != b && a != []
    ensures IsOverlap(a, b, best) && forall m :: IsOverlap(a, b, m) ==> m <= best
  {
    best := 0;
    var length := 1;
    while true
      invariant 1 <= length <= |a| && best < length
      invariant IsOverlap(a, b, best)
      invariant forall m :: IsOverlap(a, b, m) ==> m <= best || length <= m
      decreases |a| - length, if best < length - 1 then 0 else 1
    {
      var pattern := a[|a| - length..];
      var found := Find(b, pattern, 0);
      forall m | IsOverlap(a, b, m) && length <= m ensures Occurs(b, pattern, m - length) {
        assert pattern == a[|a| - m..][m - length..];
      }
      if found == -1 {
        return;
      }
      length := length + found;
      if found == 0 || a[|a| - length..] == b[..length] {
        assert IsOverlap(a, b, length);
        best := length;
        length := length + 1;
      }
    }
  }

  /** diff_commonOverlap: the longest suffix of a that is a prefix of b. */
  method CommonOverlap(a: Text, b: Text) returns (n: int)
    ensures IsOverlap(a, b, n) && forall m :: IsOverlap(a, b, m) ==> m <= n
  {
    if a == [] || b == [] {
      return 0;
    }
    // Only the ends that can overlap.
    var a', b' := a, b;
    if |a| > |b| {
      a' := a[|a| - |b|..];
    } else if |a| < |b| {
      b' := b[..|a|];
    }
    OverlapOfTruncated(a, b, a', b');
    if a' == b' {
      return |a'|;
    }
    n := OverlapSearch(a', b');
  }

  lemma OverlapOfTruncated(a: Text, b: Text, a': Text, b': Text)
    requires a' == if |a| > |b| then a[|a| - |b|..] else a
    requires b' == if |a| < |b| then b[..|a|] else b
    ensures |a'| == |b'| && forall m :: IsOverlap(a, b, m) <==> IsOverlap(a', b', m)
  {
    forall m ensures IsOverlap(a, b, m) <==> IsOverlap(a', b', m) {
      if 0 <= m <= |a'| {
        assert a'[|a'| - m..] == a[|a| - m..];
        assert b'[..m] == b[..m];
      }
    }
  }
}
