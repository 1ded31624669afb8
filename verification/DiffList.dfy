/** Texts, edit records and lists of them. */
module DiffList {

  /** A UTF-16 code unit: the wchar_t of the platform the store is built for. */
  type Char16 = c: int | 0 <= c < 0x1_0000

  type Text = seq<Char16>

  datatype Operation = Delete | Insert | Equal

  datatype Diff = Diff(op: Operation, text: Text)

  ghost function Source(d: Diff): Text { if d.op == Insert then [] else d.text }

  ghost function Destination(d: Diff): Text { if d.op == Delete then [] else d.text }

  /** Source text: everything that is not inserted. */
  ghost function Text1(diffs: seq<Diff>): Text {
    if diffs == [] then [] else Source(diffs[0]) + Text1(diffs[1..])
  }

  /** Destination text: everything that is not deleted. */
  ghost function Text2(diffs: seq<Diff>): Text {
    if diffs == [] then [] else Destination(diffs[0]) + Text2(diffs[1..])
  }

  /** Characters inserted plus characters deleted. */
  ghost function EditLen(diffs: seq<Diff>): nat {
    if diffs == [] then 0 else (if diffs[0].op == Equal then 0 else |diffs[0].text|) + EditLen(diffs[1..])
  }

  /** Number of equality records. */
  ghost function EqualCount(diffs: seq<Diff>): nat {
    if diffs == [] then 0 else (if diffs[0].op == Equal then 1 else 0) + EqualCount(diffs[1..])
  }

  /** Both lists lead from the same source to the same destination. */
  ghost predicate Same(x: seq<Diff>, y: seq<Diff>) {
    Text1(x) == Text1(y) && Text2(x) == Text2(y)
  }

  ghost predicate AllEdits(diffs: seq<Diff>) {
    forall i :: 0 <= i < |diffs| ==> diffs[i].op != Equal
  }

  lemma Nothing()
    ensures Text1([]) == [] && Text2([]) == [] && EditLen([]) == 0 && EqualCount([]) == 0
  {
  }

  lemma Assoc<T>(a: seq<T>, b: seq<T>, c: seq<T>)
    ensures a + (b + c) == (a + b) + c
  {
  }

  lemma Cut<T>(x: seq<T>, i: int)
    requires 0 <= i <= |x|
    ensures x == x[..i] + x[i..]
  {
  }

  lemma TakeDrop<T>(x: seq<T>, y: seq<T>)
    ensures (x + y)[..|x|] == x && (x + y)[|x|..] == y
  {
  }

  lemma UpdateMiddle<T>(x: seq<T>, a: T, b: T, y: seq<T>)
    ensures (x + ([a] + y))[|x| := b] == x + ([b] + y)
  {
  }

  lemma Around<T>(x: seq<T>, i: int)
    requires 0 <= i < |x|
    ensures x == x[..i] + ([x[i]] + x[i + 1..])
  {
  }

  lemma {:induction false} ConcatText1(x: seq<Diff>, y: seq<Diff>)
    ensures Text1(x + y) == Text1(x) + Text1(y)
  {
    if x == [] {
      assert x + y == y;
    } else {
      hide Source;
      ConcatText1(x[1..], y);
      assert (x + y)[0] == x[0] && (x + y)[1..] == x[1..] + y;
      Assoc(Source(x[0]), Text1(x[1..]), Text1(y));
    }
  }

  lemma {:induction false} ConcatText2(x: seq<Diff>, y: seq<Diff>)
    ensures Text2(x + y) == Text2(x) + Text2(y)
  {
    if x == [] {
      assert x + y == y;
    } else {
      hide Destination;
      ConcatText2(x[1..], y);
      assert (x + y)[0] == x[0] && (x + y)[1..] == x[1..] + y;
      Assoc(Destination(x[0]), Text2(x[1..]), Text2(y));
    }
  }

  lemma {:induction false} ConcatCounts(x: seq<Diff>, y: seq<Diff>)
    ensures EditLen(x + y) == EditLen(x) + EditLen(y)
    ensures EqualCount(x + y) == EqualCount(x) + EqualCount(y)
  {
    if x == [] {
      assert x + y == y;
    } else {
      ConcatCounts(x[1..], y);
      assert (x + y)[1..] == x[1..] + y;
    }
  }

  lemma Concat(x: seq<Diff>, y: seq<Diff>)
    ensures Text1(x + y) == Text1(x) + Text1(y)
    ensures Text2(x + y) == Text2(x) + Text2(y)
    ensures EditLen(x + y) == EditLen(x) + EditLen(y)
    ensures EqualCount(x + y) == EqualCount(x) + EqualCount(y)
  {
    ConcatText1(x, y);
    ConcatText2(x, y);
    ConcatCounts(x, y);
  }

  /** What one record contributes. */
  lemma Single(d: Diff)
    ensures Text1([d]) == Source(d)
    ensures Text2([d]) == Destination(d)
    ensures EditLen([d]) == if d.op == Equal then 0 else |d.text|
    ensures EqualCount([d]) == if d.op == Equal then 1 else 0
  {
  }

  lemma Concat3(x: seq<Diff>, y: seq<Diff>, z: seq<Diff>)
    ensures Text1(x + y + z) == Text1(x) + Text1(y) + Text1(z)
    ensures Text2(x + y + z) == Text2(x) + Text2(y) + Text2(z)
    ensures EditLen(x + y + z) == EditLen(x) + EditLen(y) + EditLen(z)
    ensures EqualCount(x + y + z) == EqualCount(x) + EqualCount(y) + EqualCount(z)
  {
    Concat(x + y, z);
    Concat(x, y);
  }

  /** Replacing a stretch by an equivalent one changes nothing outside it. */
  lemma Replace(pre: seq<Diff>, x: seq<Diff>, y: seq<Diff>, post: seq<Diff>)
    requires Same(x, y)
    ensures Same(pre + x + post, pre + y + post)
    ensures EditLen(pre + y + post) == EditLen(pre + x + post) + EditLen(y) - EditLen(x)
    ensures EqualCount(pre + y + post) == EqualCount(pre + x + post) + EqualCount(y) - EqualCount(x)
  {
    Concat3(pre, x, post);
    Concat3(pre, y, post);
  }

  lemma TwoTexts(a: Diff, b: Diff)
    ensures Text1([a, b]) == Source(a) + Source(b) && Text2([a, b]) == Destination(a) + Destination(b)
    ensures EditLen([a, b]) == EditLen([a]) + EditLen([b])
  {
    assert [a, b] == [a] + [b];
    Concat([a], [b]);
    Single(a);
    Single(b);
  }

  lemma ThreeTexts(a: Diff, b: Diff, c: Diff)
    ensures Text1([a, b, c]) == Source(a) + Source(b) + Source(c)
    ensures Text2([a, b, c]) == Destination(a) + Destination(b) + Destination(c)
    ensures EditLen([a, b, c]) == EditLen([a]) + EditLen([b]) + EditLen([c])
  {
    assert [a, b, c] == [a, b] + [c];
    Concat([a, b], [c]);
    TwoTexts(a, b);
    Single(c);
  }

  /** Accumulating loop over the records (diff_text1). */
  method DiffText1(diffs: seq<Diff>) returns (text: Text)
    ensures text == Text1(diffs)
  {
    text := [];
    for i := 0 to |diffs|
      invariant text == Text1(diffs[..i])
    {
      assert diffs[..i + 1] == diffs[..i] + [diffs[i]];
      Concat(diffs[..i], [diffs[i]]);
      if diffs[i].op != Insert {
        text := text + diffs[i].text;
      }
    }
    assert diffs[..|diffs|] == diffs;
  }

  /** Accumulating loop over the records (diff_text2). */
  method DiffText2(diffs: seq<Diff>) returns (text: Text)
    ensures text == Text2(diffs)
  {
    text := [];
    for i := 0 to |diffs|
      invariant text == Text2(diffs[..i])
    {
      assert diffs[..i + 1] == diffs[..i] + [diffs[i]];
      Concat(diffs[..i], [diffs[i]]);
      if diffs[i].op != Delete {
        text := text + diffs[i].text;
      }
    }
    assert diffs[..|diffs|] == diffs;
  }

  // ----- common ends of two texts -----

  ghost predicate IsCommonPrefix(a: Text, b: Text, n: int) {
    && 0 <= n <= |a| && n <= |b| && a[..n] == b[..n]
    && (n < |a| && n < |b| ==> a[n] != b[n])
  }

  ghost predicate IsCommonSuffix(a: Text, b: Text, n: int) {
    && 0 <= n <= |a| && n <= |b| && a[|a| - n..] == b[|b| - n..]
    && (n < |a| && n < |b| ==> a[|a| - n - 1] != b[|b| - n - 1])
  }

  method CommonPrefix(a: Text, b: Text) returns (n: int)
    ensures IsCommonPrefix(a, b, n)
  {
    var m := if |a| < |b| then |a| else |b|;
    for i := 0 to m
      invariant a[..i] == b[..i]
    {
      if a[i] != b[i] {
        return i;
      }
    }
    return m;
  }

  method CommonSuffix(a: Text, b: Text) returns (n: int)
    ensures IsCommonSuffix(a, b, n)
  {
    var m := if |a| < |b| then |a| else |b|;
    var i := 1;
    while i <= m
      invariant 1 <= i <= m + 1 && a[|a| - i + 1..] == b[|b| - i + 1..]
    {
      if a[|a| - i] != b[|b| - i] {
        return i - 1;
      }
      OneLonger(a, i);
      OneLonger(b, i);
      i := i + 1;
    }
    return m;
  }

  lemma OneLonger(s: Text, i: int)
    requires 1 <= i <= |s|
    ensures s[|s| - i..] == [s[|s| - i]] + s[|s| - i + 1..]
  {
  }

  // ----- common ends are unique -----

  ghost function FrontLen(a: Text, b: Text): (n: nat)
    ensures n <= |a| && n <= |b|
  {
    if a == [] || b == [] || a[0] != b[0] then 0 else 1 + FrontLen(a[1..], b[1..])
  }

  ghost function BackLen(a: Text, b: Text): (n: nat)
    ensures n <= |a| && n <= |b|
  {
    if a == [] || b == [] || a[|a| - 1] != b[|b| - 1] then 0 else 1 + BackLen(a[..|a| - 1], b[..|b| - 1])
  }

  lemma {:induction false} FrontLenIs(a: Text, b: Text)
    ensures IsCommonPrefix(a, b, FrontLen(a, b))
  {
    if a != [] && b != [] && a[0] == b[0] {
      FrontLenIs(a[1..], b[1..]);
      var n := FrontLen(a[1..], b[1..]);
      assert a[..n + 1] == [a[0]] + a[1..][..n] && b[..n + 1] == [b[0]] + b[1..][..n];
    }
  }

  lemma SuffixGrows(x: Text, y: Text, c: Char16, n: int)
    requires IsCommonSuffix(x, y, n)
    ensures IsCommonSuffix(x + [c], y + [c], n + 1)
  {
    assert (x + [c])[|x| - n..] == x[|x| - n..] + [c] && (y + [c])[|y| - n..] == y[|y| - n..] + [c];
  }

  lemma FrontAndLast<T>(s: seq<T>)
    requires s != []
    ensures s[..|s| - 1] + [s[|s| - 1]] == s
  {
  }

  lemma BackLenPush(x: Text, y: Text, c: Char16)
    ensures BackLen(x + [c], y + [c]) == BackLen(x, y) + 1
  {
    assert (x + [c])[..|x|] == x && (y + [c])[..|y|] == y;
  }

  lemma BackLenZero(a: Text, b: Text)
    requires a == [] || b == [] || a[|a| - 1] != b[|b| - 1]
    ensures BackLen(a, b) == 0 && IsCommonSuffix(a, b, 0)
  {
    assert a[|a|..] == [] == b[|b|..];
  }

  lemma {:induction false} BackLenIs(a: Text, b: Text)
    ensures IsCommonSuffix(a, b, BackLen(a, b))
    decreases |a|
  {
    hide BackLen, IsCommonSuffix;
    if a == [] || b == [] || a[|a| - 1] != b[|b| - 1] {
      BackLenZero(a, b);
    } else {
      var x, y, c := a[..|a| - 1], b[..|b| - 1], a[|a| - 1];
      BackLenIs(x, y);
      SuffixGrows(x, y, c, BackLen(x, y));
      BackLenPush(x, y, c);
      FrontAndLast(a);
      FrontAndLast(b);
    }
  }

  lemma OnePrefix(a: Text, b: Text, p: int, q: int)
    requires IsCommonPrefix(a, b, p) && IsCommonPrefix(a, b, q)
    ensures p == q
  {
    forall k | 0 <= k < p ensures a[k] == b[k] { assert a[..p][k] == b[..p][k]; }
    forall k | 0 <= k < q ensures a[k] == b[k] { assert a[..q][k] == b[..q][k]; }
  }

  lemma OneSuffix(a: Text, b: Text, s: int, t: int)
    requires IsCommonSuffix(a, b, s) && IsCommonSuffix(a, b, t)
    ensures s == t
  {
    AgreeAtEnd(a, b, s);
    AgreeAtEnd(a, b, t);
  }

  lemma AgreeAtEnd(a: Text, b: Text, s: int)
    requires 0 <= s <= |a| && s <= |b| && a[|a| - s..] == b[|b| - s..]
    ensures forall x :: |a| - s <= x < |a| ==> a[x] == b[x - |a| + |b|]
  {
    forall x | |a| - s <= x < |a| ensures a[x] == b[x - |a| + |b|] {
      assert a[|a| - s..][x - (|a| - s)] == b[|b| - s..][x - (|a| - s)];
    }
  }

  lemma FrontLenUnique(a: Text, b: Text, n: int)
    requires IsCommonPrefix(a, b, n)
    ensures n == FrontLen(a, b)
  {
    FrontLenIs(a, b);
    OnePrefix(a, b, n, FrontLen(a, b));
  }

  lemma BackLenUnique(a: Text, b: Text, n: int)
    requires IsCommonSuffix(a, b, n)
    ensures n == BackLen(a, b)
  {
    BackLenIs(a, b);
    OneSuffix(a, b, n, BackLen(a, b));
  }
}
