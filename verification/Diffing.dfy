/** diff_main and everything it recurses through: trimming, the short cuts of diff_compute, half
    matches, line mode and diff_bisect.  `unlimited` stands for Diff_Timeout <= 0; otherwise the
    clock says at each test whether the deadline has passed. */
module Diffing {
  import opened Clocks
  import opened DiffList
  import opened EditGraph
  import opened Strings
  import opened Scripts
  import opened HalfMatch
  import opened LineMode
  import opened MergeCleanup
  import opened SmallEqualities
  import opened SemanticCleanup
  import MiddleSnake

  /** The texts have no common prefix and no common suffix left. */
  ghost predicate Trimmed(text1: Text, text2: Text) {
    text1 != [] && text2 != [] ==> text1[0] != text2[0] && text1[|text1| - 1] != text2[|text2| - 1]
  }

  /** What every stage promises: both texts kept, and no edits wasted when time is unlimited. */
  ghost predicate Good(diffs: seq<Diff>, text1: Text, text2: Text, checklines: bool, unlimited: bool) {
    && ((checklines ==> LinesFit(text1, text2)) ==> Leads(diffs, text1, text2))
    && (unlimited && !checklines ==> EditLen(diffs) == Cost(text1, text2))
  }

  /** Nothing but line mode is tried: both texts are long, their ends differ, neither holds the other, and the
      shorter one is too short for a half match. */
  ghost predicate OnlyByLines(text1: Text, text2: Text, unlimited: bool) {
    && 100 < |text1| && 100 < |text2| && Trimmed(text1, text2)
    && (forall j :: !Occurs(text1, text2, j) && !Occurs(text2, text1, j))
    && (unlimited || 2 * |text1| < |text2| || 2 * |text2| < |text1|)
  }

  ghost predicate FewLines(text1: Text, text2: Text) {
    |LineSet(text1) + LineSet(text2)| < CHAR_LIMIT
  }

  /** The texts without their common ends. */
  ghost predicate TrimsTo(text1: Text, text2: Text, p: Text, a: Text, b: Text, s: Text) {
    text1 == p + a + s && text2 == p + b + s && a != [] && b != [] && Trimmed(a, b)
  }

  /** A middle that a half match finds is kept: no more is edited than what is around it. */
  ghost predicate MiddleKept(diffs: seq<Diff>, text1: Text, text2: Text) {
    forall k :: HalfMatched(text1, text2, k) ==> EditLen(diffs) + 2 * k <= |text1| + |text2|
  }

  /** The same for the texts without their common ends. */
  ghost predicate HalfKept(diffs: seq<Diff>, text1: Text, text2: Text) {
    forall p, a, b, s, k :: TrimsTo(text1, text2, p, a, b, s) && HalfMatched(a, b, k) ==> EditLen(diffs) + 2 * k <= |a| + |b|
  }

  /** If the deadline never passes, texts with something in common keep something. */
  ghost predicate SomethingKept(diffs: seq<Diff>, text1: Text, text2: Text, late: nat -> bool) {
    (forall i: nat :: !late(i)) && Cost(text1, text2) < |text1| + |text2| ==> EditLen(diffs) < |text1| + |text2|
  }

  lemma CheapestKeeps(diffs: seq<Diff>, text1: Text, text2: Text, late: nat -> bool)
    requires EditLen(diffs) == Cost(text1, text2) || Cost(text1, text2) == |text1| + |text2|
    ensures SomethingKept(diffs, text1, text2, late)
  {
  }

  lemma EqualKeeps(diffs: seq<Diff>, text: Text, late: nat -> bool)
    requires Good(diffs, text, text, false, true)
    ensures SomethingKept(diffs, text, text, late)
  {
  }

  lemma HalfKeeps(diffs: seq<Diff>, text1: Text, text2: Text, k: int, late: nat -> bool)
    requires MiddleKept(diffs, text1, text2) && HalfMatched(text1, text2, k) && 0 < k
    ensures SomethingKept(diffs, text1, text2, late)
  {
    hide HalfMatched, Cost, EditLen;
  }

  lemma RestoredKeeps(x: seq<Diff>, r: seq<Diff>, text1: Text, text2: Text, p: Text, a: Text, b: Text, s: Text,
                      checklines: bool, unlimited: bool, late: nat -> bool)
    requires Good(x, a, b, false, unlimited) && SomethingKept(x, a, b, late)
    requires text1 == p + a + s && text2 == p + b + s && EditLen(r) <= EditLen(x)
    ensures SomethingKept(r, text1, text2, late)
  {
    hide Text1, Text2, EditLen, Cost;
    PrefixCost(p, a, b);
    SuffixCost(p + a, p + b, s);
    EditsAtMost(x);
  }

  lemma SplitKeeps(x: seq<Diff>, y: seq<Diff>, text1: Text, text2: Text, i: nat, j: nat, late: nat -> bool)
    requires i <= |text1| && j <= |text2| && Live(text1, text2, i, j)
    requires Leads(x, text1[..i], text2[..j]) && Leads(y, text1[i..], text2[j..])
    requires SomethingKept(x, text1[..i], text2[..j], late) && SomethingKept(y, text1[i..], text2[j..], late)
    ensures SomethingKept(x + y, text1, text2, late)
  {
    hide Text1, Text2, EditLen, Dist, Rest, Cost;
    Concat(x, y);
    CutCosts(text1, text2, i, j);
    LiveCost(text1, text2, i, j);
    EditsAtMost(x);
    EditsAtMost(y);
  }

  lemma LiveCost(text1: Text, text2: Text, i: nat, j: nat)
    requires i <= |text1| && j <= |text2| && Live(text1, text2, i, j)
    ensures Dist(text1, text2, i, j) + Rest(text1, text2, i, j) == Cost(text1, text2)
  {
  }

  lemma NotInTime(late: nat -> bool, from: nat, n: nat)
    requires !InTime(late, from, n)
    ensures exists i: nat :: late(i)
  {
  }

  lemma GivenUpKeeps(diffs: seq<Diff>, text1: Text, text2: Text, late: nat -> bool)
    requires Cost(text1, text2) == |text1| + |text2| || exists i: nat :: late(i)
    ensures SomethingKept(diffs, text1, text2, late)
  {
    hide Cost, EditLen;
  }

  /** The first place where the pattern occurs. */
  ghost predicate FirstAt(text: Text, pattern: Text, i: int) {
    Occurs(text, pattern, i) && forall j :: 0 <= j < i ==> !Occurs(text, pattern, j)
  }

  /** The second text is a stretch of the first one, from i on, and then an end of m characters that both have. */
  ghost predicate CutOut(text1: Text, text2: Text, i: int, m: int) {
    && 0 < m < |text2| < |text1| && text1[0] != text2[0] && IsCommonSuffix(text1, text2, m)
    && FirstAt(text1[..|text1| - m], text2[..|text2| - m], i)
  }

  /** What is deleted before and behind the stretch, and what is kept. */
  ghost function CutOutList(text1: Text, text2: Text, i: int, m: int): seq<Diff>
    requires CutOut(text1, text2, i, m)
  {
    var a, b := text1[..|text1| - m], text2[..|text2| - m];
    [Diff(Delete, a[..i]), Diff(Equal, b), Diff(Delete, a[i + |b|..]), Diff(Equal, text1[|text1| - m..])]
  }

  lemma EndOfBoth(a: Text, b: Text, s: Text)
    requires Trimmed(a, b)
    ensures IsCommonSuffix(a + s, b + s, |s|)
  {
    assert (a + s)[|a|..] == s && (b + s)[|b|..] == s;
  }

  lemma FrontAndEnd(a: Text, s: Text)
    ensures (a + s)[..|a|] == a && (a + s)[|a|..] == s
  {
  }

  /** Trimming such texts takes the common end and nothing else. */
  lemma CutOutTrimmed(text1: Text, text2: Text, i: int, m: int, p: Text, a: Text, b: Text, s: Text)
    requires CutOut(text1, text2, i, m) && text1 == p + a + s && text2 == p + b + s && Trimmed(a, b)
    ensures p == [] && |s| == m && a == text1[..|text1| - m] && b == text2[..|text2| - m] && s == text1[|text1| - m..]
  {
    hide Trimmed, FirstAt, IsCommonSuffix;
    EndsOf(p, a, s);
    EndsOf(p, b, s);
    assert p + a == a && p + b == b;
    EndOfBoth(a, b, s);
    OneSuffix(text1, text2, |s|, m);
    FrontAndEnd(a, s);
    FrontAndEnd(b, s);
  }

  ghost predicate CutsOut(diffs: seq<Diff>, text1: Text, text2: Text) {
    forall i, m :: CutOut(text1, text2, i, m) && Tidy(CutOutList(text1, text2, i, m)) ==> diffs == CutOutList(text1, text2, i, m)
  }

  ghost predicate CutsOutMiddle(diffs: seq<Diff>, text1: Text, text2: Text) {
    text2 != [] && |text1| > |text2| ==>
      forall i :: FirstAt(text1, text2, i) ==>
        diffs == [Diff(Delete, text1[..i]), Diff(Equal, text2), Diff(Delete, text1[i + |text2|..])]
  }

  lemma CutOutRestored(text1: Text, text2: Text, p: Text, a: Text, b: Text, s: Text, middle: seq<Diff>, diffs: seq<Diff>)
    requires text1 == p + a + s && text2 == p + b + s && Trimmed(a, b) && CutsOutMiddle(middle, a, b)
    requires Tidy(Restored(middle, p, s)) ==> diffs == Restored(middle, p, s)
    ensures CutsOut(diffs, text1, text2)
  {
    hide Tidy, Trimmed, FirstAt, Restored, CutsOutMiddle, IsCommonSuffix;
    forall i, m | CutOut(text1, text2, i, m) && Tidy(CutOutList(text1, text2, i, m))
      ensures diffs == CutOutList(text1, text2, i, m)
    {
      CutOutTrimmed(text1, text2, i, m, p, a, b, s);
      RestoredMiddle(a, b, i, s, middle);
    }
  }

  lemma RestoredMiddle(a: Text, b: Text, i: int, s: Text, middle: seq<Diff>)
    requires CutsOutMiddle(middle, a, b) && FirstAt(a, b, i) && b != [] && |b| < |a| && s != []
    ensures 0 <= i && i + |b| <= |a|
    ensures Restored(middle, [], s) == [Diff(Delete, a[..i]), Diff(Equal, b), Diff(Delete, a[i + |b|..]), Diff(Equal, s)]
  {
  }

  lemma SameIsNoCutOut(text: Text, diffs: seq<Diff>)
    ensures CutsOut(diffs, text, text)
  {
  }

  // ----- the short cuts -----

  lemma {:induction false} NothingInCommon(a: Text, b: Text, x: nat, y: nat)
    requires x <= |a| && y <= |b| && forall i, j :: 0 <= i < |a| && 0 <= j < |b| ==> a[i] != b[j]
    ensures Dist(a, b, x, y) == x + y
    decreases x + y
  {
    if x > 0 && y > 0 {
      NothingInCommon(a, b, x - 1, y);
      NothingInCommon(a, b, x, y - 1);
    }
  }

  /** Deleting one text and inserting the other. */
  lemma ReplacedWhole(text1: Text, text2: Text)
    ensures Leads([Diff(Delete, text1), Diff(Insert, text2)], text1, text2)
    ensures EditLen([Diff(Delete, text1), Diff(Insert, text2)]) == |text1| + |text2|
  {
    TwoTexts(Diff(Delete, text1), Diff(Insert, text2));
    Single(Diff(Delete, text1));
    Single(Diff(Insert, text2));
    assert text1 + [] == text1 && [] + text2 == text2;
  }

  lemma SingleCharacter(text1: Text, text2: Text, longtext: Text, shorttext: Text)
    requires (longtext == text1 && shorttext == text2) || (longtext == text2 && shorttext == text1)
    requires |shorttext| == 1 && forall j :: !Occurs(longtext, shorttext, j)
    ensures Cost(text1, text2) == |text1| + |text2|
  {
    forall j | 0 <= j < |longtext| ensures longtext[j] != shorttext[0] {
      assert !Occurs(longtext, shorttext, j);
      assert longtext[j..j + 1] == [longtext[j]] && shorttext == [shorttext[0]];
    }
    NothingInCommon(text1, text2, |text1|, |text2|);
  }

  /** The shorter text inside the longer one: only the surroundings are edits. */
  lemma Contained(text1: Text, text2: Text, longtext: Text, shorttext: Text, i: int, op: Operation)
    requires longtext == (if |text1| > |text2| then text1 else text2)
    requires shorttext == (if |text1| > |text2| then text2 else text1)
    requires op == (if |text1| > |text2| then Delete else Insert)
    requires Occurs(longtext, shorttext, i)
    ensures var diffs := [Diff(op, longtext[..i]), Diff(Equal, shorttext), Diff(op, longtext[i + |shorttext|..])];
            Leads(diffs, text1, text2) && EditLen(diffs) == Cost(text1, text2)
  {
    hide Text1, Text2, EditLen, Dist, Cost;
    var x, y, z := Diff(op, longtext[..i]), Diff(Equal, shorttext), Diff(op, longtext[i + |shorttext|..]);
    Surrounded(longtext, shorttext, i, x, y, z);
    ScriptCost([x, y, z]);
    LengthCost(text1, text2);
  }

  lemma Surrounded(longtext: Text, shorttext: Text, i: int, x: Diff, y: Diff, z: Diff)
    requires Occurs(longtext, shorttext, i) && x.op == z.op != Equal
    requires x.text == longtext[..i] && y == Diff(Equal, shorttext) && z.text == longtext[i + |shorttext|..]
    ensures Text1([x, y, z]) == if x.op == Delete then longtext else shorttext
    ensures Text2([x, y, z]) == if x.op == Delete then shorttext else longtext
    ensures EditLen([x, y, z]) == |longtext| - |shorttext|
  {
    hide Text1, Text2, EditLen;
    ThreeTexts(x, y, z);
    Single(x);
    Single(y);
    Single(z);
    assert longtext == longtext[..i] + shorttext + longtext[i + |shorttext|..];
    assert shorttext == [] + shorttext + [];
  }

  /** The difference in length must be edited at least. */
  lemma LengthCost(text1: Text, text2: Text)
    ensures |text1| - |text2| <= Cost(text1, text2) && |text2| - |text1| <= Cost(text1, text2)
  {
    hide Dist;
    DistBounds(text1, text2, |text1|, |text2|);
  }

  // ----- joining partial results -----

  /** Two halves around a common middle. */
  lemma HalvesJoined(x: seq<Diff>, y: seq<Diff>, hm: HalfMatchResult, text1: Text, text2: Text)
    requires Leads(x, hm.text1A, hm.text2A) && Leads(y, hm.text1B, hm.text2B) && CutsBoth(hm, text1, text2)
    ensures Leads(x + [Diff(Equal, hm.midCommon)] + y, text1, text2)
  {
    Concat3(x, [Diff(Equal, hm.midCommon)], y);
    Single(Diff(Equal, hm.midCommon));
  }

  /** Two halves around a split point. */
  lemma SplitJoined(x: seq<Diff>, y: seq<Diff>, text1: Text, text2: Text, i: nat, j: nat)
    requires i <= |text1| && j <= |text2|
    requires Leads(x, text1[..i], text2[..j]) && Leads(y, text1[i..], text2[j..])
    ensures Leads(x + y, text1, text2)
    ensures (Live(text1, text2, i, j)
             && EditLen(x) == Cost(text1[..i], text2[..j]) && EditLen(y) == Cost(text1[i..], text2[j..]))
            ==> EditLen(x + y) == Cost(text1, text2)
  {
    Concat(x, y);
    Cut(text1, i);
    Cut(text2, j);
    CutCosts(text1, text2, i, j);
  }

  ghost function Restored(x: seq<Diff>, p: Text, s: Text): seq<Diff> {
    (if p == [] then [] else [Diff(Equal, p)]) + x + (if s == [] then [] else [Diff(Equal, s)])
  }

  /** Puts the trimmed ends back as equalities. */
  method RestoreEnds(diffs0: seq<Diff>, prefix: Text, suffix: Text) returns (diffs: seq<Diff>)
    ensures diffs == Restored(diffs0, prefix, suffix)
  {
    diffs := diffs0;
    if prefix != [] {
      diffs := [Diff(Equal, prefix)] + diffs;
    }
    if suffix != [] {
      diffs := diffs + [Diff(Equal, suffix)];
    }
  }

  /** Restoring the trimmed ends. */
  lemma EndsRestored(x: seq<Diff>, p: Text, s: Text, a: Text, b: Text)
    requires Leads(x, a, b)
    ensures Leads(Restored(x, p, s), p + a + s, p + b + s) && EditLen(Restored(x, p, s)) == EditLen(x)
  {
    hide Text1, Text2, EditLen;
    var front := if p == [] then [] else [Diff(Equal, p)];
    var back := if s == [] then [] else [Diff(Equal, s)];
    Concat3(front, x, back);
    Single(Diff(Equal, p));
    Single(Diff(Equal, s));
    Nothing();
  }

  /** Trims off the common prefix, then the common suffix. */
  method TrimEnds(text1: Text, text2: Text) returns (prefix: Text, chopped1: Text, chopped2: Text, suffix: Text)
    ensures text1 == prefix + chopped1 + suffix && text2 == prefix + chopped2 + suffix
    ensures Trimmed(chopped1, chopped2)
    ensures |chopped1| <= |text1| && |chopped2| <= |text2|
    ensures LinesFit(text1, text2) ==> LinesFit(chopped1, chopped2)
  {
    hide LinesFit, Trimmed;
    var n := CommonPrefix(text1, text2);
    prefix, chopped1, chopped2 := text1[..n], text1[n..], text2[n..];
    var m := CommonSuffix(chopped1, chopped2);
    TrimmedMiddle(text1, text2, n, m, chopped1, chopped2);
    hide IsCommonPrefix, IsCommonSuffix;
    suffix := chopped1[|chopped1| - m..];
    chopped1, chopped2 := chopped1[..|chopped1| - m], chopped2[..|chopped2| - m];
    if LinesFit(text1, text2) {
      LinesFitWithin(text1, text2, n, |text1| - m, n, |text2| - m);
    }
  }

  lemma EndsOf(p: Text, a: Text, s: Text)
    ensures p != [] ==> (p + a + s)[0] == p[0]
    ensures s != [] ==> (p + a + s)[|p + a + s| - 1] == s[|s| - 1]
  {
  }

  /** Texts with different ends have nothing to trim. */
  lemma NothingTrimmed(text1: Text, text2: Text, p: Text, a: Text, b: Text, s: Text)
    requires text1 == p + a + s && text2 == p + b + s && text1 != [] && text2 != [] && Trimmed(text1, text2)
    ensures p == [] && s == [] && a == text1 && b == text2
  {
    EndsOf(p, a, s);
    EndsOf(p, b, s);
  }

  // ----- the recursion -----

  /** diff_main with a deadline: strips common ends, computes the middle, merges. */
  method Diffs(text1: Text, text2: Text, checklines: bool, unlimited: bool, clock: Clock) returns (diffs: seq<Diff>)
    modifies clock
    ensures Good(diffs, text1, text2, checklines, unlimited) && Merged(diffs) && Unshiftable(diffs)
    ensures checklines && OnlyByLines(text1, text2, unlimited) ==> (Leads(diffs, text1, text2) <==> FewLines(text1, text2))
    ensures CutsOut(diffs, text1, text2)
    ensures !unlimited && (checklines ==> LinesFit(text1, text2)) ==> HalfKept(diffs, text1, text2)
    ensures !checklines ==> SomethingKept(diffs, text1, text2, clock.late)
    decreases checklines, |text1| + |text2|, 4
  {
    hide SomethingKept, Text1, Text2, EditLen, LinesFit, Cost, Merged, Restored, Good, Leads, FewLines, Tidy, CutsOut, HalfKept,
         MiddleKept, HalfMatched, MergesTo;
    if text1 == text2 {
      diffs := if text1 == [] then [] else [Diff(Equal, text1)];
      EqualTexts(text1, diffs);
      SameIsNoCutOut(text1, diffs);
      SameIsNotTrimmed(text1, diffs);
      EqualKeeps(diffs, text1, clock.late);
      return;
    }
    var prefix, chopped1, chopped2, suffix := TrimEnds(text1, text2);
    diffs := DiffCompute(chopped1, chopped2, checklines, unlimited, clock);
    ghost var middle := diffs;
    diffs := RestoreEnds(diffs, prefix, suffix);
    RestoredIsGood(middle, diffs, text1, text2, prefix, chopped1, chopped2, suffix, checklines, unlimited);
    ghost var before := diffs;
    diffs := CleanupMerge(diffs);
    MergedIsGood(before, diffs, text1, text2, checklines, unlimited);
    if OnlyByLines(text1, text2, unlimited) {
      NothingTrimmed(text1, text2, prefix, chopped1, chopped2, suffix);
      NothingRestored(middle);
    }
    CutOutRestored(text1, text2, prefix, chopped1, chopped2, suffix, middle, diffs);
    RestoredLen(middle, prefix, suffix);
    if !checklines {
      RestoredKeeps(middle, diffs, text1, text2, prefix, chopped1, chopped2, suffix, checklines, unlimited, clock.late);
    }
    if MiddleKept(middle, chopped1, chopped2) {
      HalfKeptHere(middle, diffs, text1, text2, prefix, chopped1, chopped2, suffix);
    }
  }

  lemma SameIsNotTrimmed(text: Text, diffs: seq<Diff>)
    ensures HalfKept(diffs, text, text)
  {
    forall p, a, b, s ensures !TrimsTo(text, text, p, a, b, s) {
      MiddleOf(p, a, s);
      MiddleOf(p, b, s);
    }
  }

  lemma MiddleOf(p: Text, a: Text, s: Text)
    ensures |p + a + s| == |p| + |a| + |s| && (p + a + s)[|p|..|p| + |a|] == a
  {
  }

  lemma RestoredLen(x: seq<Diff>, p: Text, s: Text)
    ensures EditLen(Restored(x, p, s)) == EditLen(x)
  {
    hide EditLen, Text1, Text2;
    var front := if p == [] then [] else [Diff(Equal, p)];
    var back := if s == [] then [] else [Diff(Equal, s)];
    Concat3(front, x, back);
    Single(Diff(Equal, p));
    Single(Diff(Equal, s));
    Nothing();
  }

  /** There is only one way to take off the common ends. */
  lemma HalfKeptHere(middle: seq<Diff>, diffs: seq<Diff>, text1: Text, text2: Text, p0: Text, a0: Text, b0: Text, s0: Text)
    requires text1 == p0 + a0 + s0 && text2 == p0 + b0 + s0 && Trimmed(a0, b0)
    requires MiddleKept(middle, a0, b0) && EditLen(diffs) <= EditLen(middle)
    ensures HalfKept(diffs, text1, text2)
  {
    hide HalfMatched, EditLen;
    forall p, a, b, s, k | TrimsTo(text1, text2, p, a, b, s) && HalfMatched(a, b, k)
      ensures EditLen(diffs) + 2 * k <= |a| + |b|
    {
      OneTrim(text1, text2, p, a, b, s, p0, a0, b0, s0);
    }
  }

  lemma OneTrim(text1: Text, text2: Text, p: Text, a: Text, b: Text, s: Text, p0: Text, a0: Text, b0: Text, s0: Text)
    requires TrimsTo(text1, text2, p, a, b, s) && text1 == p0 + a0 + s0 && text2 == p0 + b0 + s0 && Trimmed(a0, b0)
    ensures a == a0 && b == b0
  {
    hide Trimmed;
    FrontDiffers(p, a, b, s);
    BackDiffers(p, a, b, s);
    FrontAgrees(p0, a0, b0, s0, |p|);
    BackAgrees(p0, a0, b0, s0, |s|);
    assert a0 != [] && b0 != [];
    FrontDiffers(p0, a0, b0, s0);
    BackDiffers(p0, a0, b0, s0);
    FrontAgrees(p, a, b, s, |p0|);
    BackAgrees(p, a, b, s, |s0|);
    MiddleOf(p, a, s);
    MiddleOf(p, b, s);
    MiddleOf(p0, a0, s0);
    MiddleOf(p0, b0, s0);
  }

  /** Right behind the common front, the texts differ; so they do right before the common end. */
  lemma FrontDiffers(p: Text, a: Text, b: Text, s: Text)
    requires a != [] && b != [] && Trimmed(a, b)
    ensures (p + a + s)[|p|] != (p + b + s)[|p|]
  {
    assert (p + a + s)[|p|] == a[0] && (p + b + s)[|p|] == b[0];
  }

  lemma BackDiffers(p: Text, a: Text, b: Text, s: Text)
    requires a != [] && b != [] && Trimmed(a, b)
    ensures var x, y := p + a + s, p + b + s; x[|x| - 1 - |s|] != y[|y| - 1 - |s|]
  {
    var x, y := p + a + s, p + b + s;
    assert x[|x| - 1 - |s|] == a[|a| - 1] && y[|y| - 1 - |s|] == b[|b| - 1];
  }

  lemma FrontAgrees(p: Text, a: Text, b: Text, s: Text, i: nat)
    ensures i < |p| ==> (p + a + s)[i] == (p + b + s)[i]
  {
  }

  lemma BackAgrees(p: Text, a: Text, b: Text, s: Text, i: nat)
    ensures var x, y := p + a + s, p + b + s; i < |s| ==> x[|x| - 1 - i] == y[|y| - 1 - i]
  {
  }

  lemma NothingRestored(x: seq<Diff>)
    ensures Restored(x, [], []) == x
  {
  }

  lemma EqualTexts(text: Text, diffs: seq<Diff>)
    requires diffs == if text == [] then [] else [Diff(Equal, text)]
    ensures Leads(diffs, text, text) && EditLen(diffs) == Cost(text, text) == 0 && Merged(diffs) && Unshiftable(diffs)
    ensures forall checklines, unlimited :: Good(diffs, text, text, checklines, unlimited)
  {
    Single(Diff(Equal, text));
    ScriptCost(diffs);
  }

  lemma TrimmedMiddle(text1: Text, text2: Text, n: int, m: int, c1: Text, c2: Text)
    requires IsCommonPrefix(text1, text2, n) && c1 == text1[n..] && c2 == text2[n..] && IsCommonSuffix(c1, c2, m)
    ensures text1 == text1[..n] + c1[..|c1| - m] + c1[|c1| - m..]
    ensures text2 == text1[..n] + c2[..|c2| - m] + c1[|c1| - m..]
    ensures Trimmed(c1[..|c1| - m], c2[..|c2| - m])
    ensures c1[..|c1| - m] == text1[n..|text1| - m] && c2[..|c2| - m] == text2[n..|text2| - m]
  {
    TrimmedEnds(c1, c2, m);
    TrimmedHalf(text1, n, m, c1);
    TrimmedHalf(text2, n, m, c2);
    assert text1[..n] == text2[..n] && c1[|c1| - m..] == c2[|c2| - m..];
  }

  lemma TrimmedEnds(a: Text, b: Text, m: int)
    requires a != [] && b != [] ==> a[0] != b[0]
    requires IsCommonSuffix(a, b, m)
    ensures Trimmed(a[..|a| - m], b[..|b| - m])
  {
  }

  lemma TrimmedHalf(t: Text, n: int, m: int, c: Text)
    requires 0 <= n && 0 <= m && n + m <= |t| && c == t[n..]
    ensures t == t[..n] + c[..|c| - m] + c[|c| - m..] && c[..|c| - m] == t[n..|t| - m]
  {
    Cut(t, n);
    Cut(c, |c| - m);
    Assoc(t[..n], c[..|c| - m], c[|c| - m..]);
    var x, y := c[..|c| - m], t[n..|t| - m];
    assert forall i :: 0 <= i < |x| ==> x[i] == y[i];
  }

  lemma RestoredIsGood(x: seq<Diff>, r: seq<Diff>, text1: Text, text2: Text, p: Text, a: Text, b: Text, s: Text,
                       checklines: bool, unlimited: bool)
    requires Good(x, a, b, checklines, unlimited) && text1 == p + a + s && text2 == p + b + s
    requires r == Restored(x, p, s)
    requires LinesFit(text1, text2) ==> LinesFit(a, b)
    ensures Good(r, text1, text2, checklines, unlimited)
  {
    hide Text1, Text2, EditLen, Cost;
    PrefixCost(p, a, b);
    SuffixCost(p + a, p + b, s);
    if Leads(x, a, b) {
      EndsRestored(x, p, s, a, b);
    }
  }

  lemma MergedIsGood(x: seq<Diff>, r: seq<Diff>, text1: Text, text2: Text, checklines: bool, unlimited: bool)
    requires Good(x, text1, text2, checklines, unlimited) && Same(r, x) && EditLen(r) <= EditLen(x)
    ensures Good(r, text1, text2, checklines, unlimited)
    ensures Leads(r, text1, text2) <==> Leads(x, text1, text2)
  {
    ScriptCost(r);
  }

  /** diff_compute: the short cuts, then half match, line mode or bisection. */
  method DiffCompute(text1: Text, text2: Text, checklines: bool, unlimited: bool, clock: Clock) returns (diffs: seq<Diff>)
    requires Trimmed(text1, text2)
    modifies clock
    ensures Good(diffs, text1, text2, checklines, unlimited)
    ensures checklines && OnlyByLines(text1, text2, unlimited) ==> (Leads(diffs, text1, text2) <==> FewLines(text1, text2))
    ensures CutsOutMiddle(diffs, text1, text2)
    ensures !unlimited && (checklines ==> LinesFit(text1, text2)) ==> MiddleKept(diffs, text1, text2)
    ensures !checklines ==> SomethingKept(diffs, text1, text2, clock.late)
    decreases checklines, |text1| + |text2|, 3
  {
    hide SomethingKept, Text1, Text2, EditLen, LinesFit, Cost, Leads, LineSet, OnlyByLines, FewLines, CutsOutMiddle, FirstAt, MiddleKept;
    NoMiddle(text1, text2);
    NoLinesNeeded(text1, text2, unlimited);
    if text1 == [] {
      diffs := [Diff(Insert, text2)];
      OneSided(text1, text2);
      CheapestKeeps(diffs, text1, text2, clock.late);
      return;
    }
    if text2 == [] {
      diffs := [Diff(Delete, text1)];
      OneSided(text1, text2);
      CheapestKeeps(diffs, text1, text2, clock.late);
      return;
    }
    var longtext := if |text1| > |text2| then text1 else text2;
    var shorttext := if |text1| > |text2| then text2 else text1;
    var i := Find(longtext, shorttext, 0);
    if i != -1 {
      // Only what surrounds the shorter text is edited.
      var op := if |text1| > |text2| then Delete else Insert;
      diffs := [Diff(op, longtext[..i]), Diff(Equal, shorttext), Diff(op, longtext[i + |shorttext|..])];
      Contained(text1, text2, longtext, shorttext, i, op);
      MiddleCutOut(diffs, text1, text2, longtext, shorttext, i, unlimited);
      ContainedKept(diffs, text1, text2, longtext, shorttext, i);
      CheapestKeeps(diffs, text1, text2, clock.late);
      return;
    }
    NotContained(text1, text2, longtext, shorttext);
    if |shorttext| == 1 {
      // The single character does not occur in the other text.
      diffs := [Diff(Delete, text1), Diff(Insert, text2)];
      ReplacedWhole(text1, text2);
      SingleCharacter(text1, text2, longtext, shorttext);
      CheapestKeeps(diffs, text1, text2, clock.late);
      return;
    }
    diffs := DiffApart(text1, text2, checklines, unlimited, clock);
  }

  /** The rest of diff_compute: neither text holds the other. */
  method DiffApart(text1: Text, text2: Text, checklines: bool, unlimited: bool, clock: Clock) returns (diffs: seq<Diff>)
    requires text1 != [] && text2 != [] && Trimmed(text1, text2) && 3 <= |text1| + |text2|
    modifies clock
    ensures Good(diffs, text1, text2, checklines, unlimited)
    ensures checklines && OnlyByLines(text1, text2, unlimited) ==> (Leads(diffs, text1, text2) <==> FewLines(text1, text2))
    ensures !unlimited && (checklines ==> LinesFit(text1, text2)) ==> MiddleKept(diffs, text1, text2)
    ensures !checklines ==> SomethingKept(diffs, text1, text2, clock.late)
    decreases checklines, |text1| + |text2|, 2
  {
    hide SomethingKept, Text1, Text2, EditLen, LinesFit, Cost, Leads, LineSet, OnlyByLines, FewLines, CutsOut, Trimmed,
         MiddleKept, HalfMatched, HalfKept;
    NoLinesNeeded(text1, text2, unlimited);
    // A half match may cost edits, so it is only tried against a deadline.
    if !unlimited {
      var found, hm := FindHalfMatch(text1, text2);
      if found {
        HalvesFit(hm, text1, text2);
        diffs := Diffs(hm.text1A, hm.text2A, checklines, unlimited, clock);
        var diffsB := Diffs(hm.text1B, hm.text2B, checklines, unlimited, clock);
        if Leads(diffs, hm.text1A, hm.text2A) && Leads(diffsB, hm.text1B, hm.text2B) {
          HalvesJoined(diffs, diffsB, hm, text1, text2);
          HalvesKept(diffs, diffsB, hm, text1, text2);
        }
        diffs := diffs + [Diff(Equal, hm.midCommon)] + diffsB;
        if MiddleKept(diffs, text1, text2) {
          HalfKeeps(diffs, text1, text2, |hm.midCommon|, clock.late);
        }
        return;
      }
      NoHalf(text1, text2);
    }
    if checklines && |text1| > 100 && |text2| > 100 {
      ghost var run;
      diffs, run := DiffLineMode(text1, text2, unlimited, clock);
      FewLinesIs(text1, text2);
      if LinesFit(text1, text2) {
        LinesFitHere(text1, text2);
      }
    } else {
      diffs := DiffBisect(text1, text2, unlimited, clock);
    }
  }

  lemma NoMiddle(text1: Text, text2: Text)
    ensures |text1| <= 1 || |text2| <= 1 ==> forall diffs :: MiddleKept(diffs, text1, text2)
  {
    if |text1| <= 1 || |text2| <= 1 {
      assert forall k :: !HalfMatched(text1, text2, k);
    }
  }

  lemma NoHalf(text1: Text, text2: Text)
    requires forall k :: !HalfMatched(text1, text2, k)
    ensures forall diffs :: MiddleKept(diffs, text1, text2)
  {
    hide HalfMatched;
  }

  /** No match is longer than either text. */
  lemma MatchFits(text1: Text, text2: Text)
    ensures forall k :: HalfMatched(text1, text2, k) ==> k <= |text1| && k <= |text2|
  {
  }

  lemma ContainedKept(diffs: seq<Diff>, text1: Text, text2: Text, longtext: Text, shorttext: Text, i: int)
    requires longtext == (if |text1| > |text2| then text1 else text2)
    requires shorttext == (if |text1| > |text2| then text2 else text1)
    requires Occurs(longtext, shorttext, i)
    requires var op := if |text1| > |text2| then Delete else Insert;
             diffs == [Diff(op, longtext[..i]), Diff(Equal, shorttext), Diff(op, longtext[i + |shorttext|..])]
    ensures MiddleKept(diffs, text1, text2)
  {
    hide HalfMatched, EditLen, Text1, Text2;
    Surrounded(longtext, shorttext, i, diffs[0], diffs[1], diffs[2]);
    MatchFits(text1, text2);
  }

  /** An edit list between two texts never edits more than both. */
  lemma {:induction false} EditsAtMost(x: seq<Diff>)
    ensures EditLen(x) <= |Text1(x)| + |Text2(x)|
  {
    if x != [] {
      EditsAtMost(x[1..]);
    }
  }

  lemma HalvesKept(x: seq<Diff>, y: seq<Diff>, hm: HalfMatchResult, text1: Text, text2: Text)
    requires Leads(x, hm.text1A, hm.text2A) && Leads(y, hm.text1B, hm.text2B) && CutsBoth(hm, text1, text2)
    requires forall k :: HalfMatched(text1, text2, k) ==> k <= |hm.midCommon|
    ensures MiddleKept(x + [Diff(Equal, hm.midCommon)] + y, text1, text2)
  {
    hide HalfMatched, EditLen, Text1, Text2;
    Concat3(x, [Diff(Equal, hm.midCommon)], y);
    Single(Diff(Equal, hm.midCommon));
    EditsAtMost(x);
    EditsAtMost(y);
  }

  lemma NoLinesNeeded(text1: Text, text2: Text, unlimited: bool)
    ensures |text1| <= 100 || |text2| <= 100 ==> !OnlyByLines(text1, text2, unlimited)
    ensures !unlimited && 2 * |text1| >= |text2| && 2 * |text2| >= |text1| ==> !OnlyByLines(text1, text2, unlimited)
    ensures text1 == [] || text2 == [] ==> forall diffs :: CutsOutMiddle(diffs, text1, text2)
  {
    if text1 == [] || text2 == [] {
      forall diffs ensures CutsOutMiddle(diffs, text1, text2) {
      }
    }
  }

  lemma FewLinesIs(text1: Text, text2: Text)
    ensures FewLines(text1, text2) <==> |LineSet(text1) + LineSet(text2)| < CHAR_LIMIT
  {
  }

  lemma MiddleCutOut(diffs: seq<Diff>, text1: Text, text2: Text, longtext: Text, shorttext: Text, i: int, unlimited: bool)
    requires longtext == (if |text1| > |text2| then text1 else text2)
    requires shorttext == (if |text1| > |text2| then text2 else text1)
    requires Occurs(longtext, shorttext, i) && forall j :: 0 <= j && Occurs(longtext, shorttext, j) ==> i <= j
    requires var op := if |text1| > |text2| then Delete else Insert;
             diffs == [Diff(op, longtext[..i]), Diff(Equal, shorttext), Diff(op, longtext[i + |shorttext|..])]
    ensures !OnlyByLines(text1, text2, unlimited) && CutsOutMiddle(diffs, text1, text2)
  {
  }

  lemma NotContained(text1: Text, text2: Text, longtext: Text, shorttext: Text)
    requires longtext == (if |text1| > |text2| then text1 else text2)
    requires shorttext == (if |text1| > |text2| then text2 else text1)
    requires forall j :: !Occurs(longtext, shorttext, j)
    ensures forall diffs :: CutsOutMiddle(diffs, text1, text2)
  {
    forall diffs ensures CutsOutMiddle(diffs, text1, text2) {
    }
  }

  lemma OneSided(text1: Text, text2: Text)
    requires text1 == [] || text2 == []
    ensures var diffs := if text1 == [] then [Diff(Insert, text2)] else [Diff(Delete, text1)];
            Leads(diffs, text1, text2) && EditLen(diffs) == Cost(text1, text2)
  {
    var diffs := if text1 == [] then [Diff(Insert, text2)] else [Diff(Delete, text1)];
    Single(diffs[0]);
    DistBounds(text1, text2, |text1|, |text2|);
  }

  lemma HalvesFit(hm: HalfMatchResult, text1: Text, text2: Text)
    requires CutsBoth(hm, text1, text2) && hm.midCommon != []
    ensures |hm.text1A| + |hm.text2A| < |text1| + |text2| && |hm.text1B| + |hm.text2B| < |text1| + |text2|
    ensures LinesFit(text1, text2) ==> LinesFit(hm.text1A, hm.text2A) && LinesFit(hm.text1B, hm.text2B)
  {
    hide LinesFit;
    if LinesFit(text1, text2) {
      var n1, n2 := |hm.text1A|, |hm.text2A|;
      assert text1[0..n1] == hm.text1A && text2[0..n2] == hm.text2A;
      LinesFitWithin(text1, text2, 0, n1, 0, n2);
      var k1, k2 := n1 + |hm.midCommon|, n2 + |hm.midCommon|;
      assert text1[k1..|text1|] == hm.text1B && text2[k2..|text2|] == hm.text2B;
      LinesFitWithin(text1, text2, k1, |text1|, k2, |text2|);
    }
  }

  /** diff_bisect: search for a split point, recurse on both sides, or give up and replace the text. */
  method DiffBisect(text1: Text, text2: Text, unlimited: bool, clock: Clock) returns (diffs: seq<Diff>)
    requires text1 != [] && text2 != [] && Trimmed(text1, text2) && 3 <= |text1| + |text2|
    modifies clock
    ensures Leads(diffs, text1, text2)
    ensures unlimited ==> EditLen(diffs) == Cost(text1, text2)
    ensures SomethingKept(diffs, text1, text2, clock.late)
    decreases false, |text1| + |text2|, 1
  {
    hide SomethingKept, Text1, Text2, EditLen, Cost, Dist, Rest;
    var found, x, y := MiddleSnake.Search(text1, text2, unlimited, clock);
    if found {
      diffs := BisectSplit(text1, text2, x, y, unlimited, clock);
    } else {
      // Time is up, or the texts share no character.
      diffs := [Diff(Delete, text1), Diff(Insert, text2)];
      ReplacedWhole(text1, text2);
      if Cost(text1, text2) < |text1| + |text2| {
        NotInTime(clock.late, old(clock.tests), (Cost(text1, text2) + 1) / 2 + 1);
      }
      MiddleSnake.WholeCost(text1, text2);
      GivenUpKeeps(diffs, text1, text2, clock.late);
    }
  }

  /** diff_bisectSplit: both halves, one after the other. */
  method BisectSplit(text1: Text, text2: Text, x: int, y: int, unlimited: bool, clock: Clock) returns (diffs: seq<Diff>)
    requires 0 <= x <= |text1| && 0 <= y <= |text2| && 0 < x + y < |text1| + |text2|
    requires Live(text1, text2, x, y)
    modifies clock
    ensures Leads(diffs, text1, text2)
    ensures unlimited ==> EditLen(diffs) == Cost(text1, text2)
    ensures SomethingKept(diffs, text1, text2, clock.late)
    decreases false, |text1| + |text2|, 0
  {
    hide SomethingKept, Text1, Text2, EditLen, Cost, Dist, Rest, Live;
    diffs := Diffs(text1[..x], text2[..y], false, unlimited, clock);
    var diffsB := Diffs(text1[x..], text2[y..], false, unlimited, clock);
    SplitJoined(diffs, diffsB, text1, text2, x, y);
    SplitKeeps(diffs, diffsB, text1, text2, x, y, clock.late);
    diffs := diffs + diffsB;
  }

  // ----- line mode -----

  /** What diff_lineMode goes through: the coded texts and their table, the list of lines, and the list after the
      clean-up. */
  datatype LineRun = LineRun(chars1: Text, chars2: Text, lines: seq<Text>, byLines: seq<Diff>,
                             score: (Text, Text) -> int, cleaned: seq<Diff>)

  ghost predicate RunOf(r: LineRun, text1: Text, text2: Text, unlimited: bool) {
    && (exists hash :: Numbered(hash) && TableOf(r.lines, hash) && hash.Keys == LineSet(text1) + LineSet(text2)
                       && Coded(text1, r.chars1, hash) && Coded(text2, r.chars2, hash))
    && Leads(r.byLines, r.chars1, r.chars2) && (unlimited ==> EditLen(r.byLines) == Cost(r.chars1, r.chars2))
    && InTable(r.byLines, r.lines) && SemanticOf(r.score, Hydrated(r.byLines, r.lines), r.cleaned)
  }

  /** diff_lineMode: diff the lines, drop freak matches, then rediff each replaced block by character.  Both
      texts are kept if and only if their distinct lines fit into code units. */
  method DiffLineMode(text1: Text, text2: Text, unlimited: bool, clock: Clock) returns (diffs: seq<Diff>, ghost run: LineRun)
    modifies clock
    ensures Leads(diffs, text1, text2) <==> |LineSet(text1) + LineSet(text2)| < CHAR_LIMIT
    ensures RunOf(run, text1, text2, unlimited) && Same(diffs, run.cleaned)
    ensures if unlimited then EditLen(diffs) == RunCost(run.cleaned, []) else EditLen(diffs) <= EditLen(run.cleaned)
    decreases true, |text1| + |text2|, 1
  {
    hide Text1, Text2, EditLen, LinesFit, Hydrate, LineSet, Cost, InTable, Within, Numbered, TableOf, Coded,
         SemanticOf, RunCost;
    var chars1, chars2, lineArray;
    ghost var hash;
    chars1, chars2, lineArray, hash := LinesToChars(text1, text2);
    diffs := Diffs(chars1, chars2, false, unlimited, clock);
    HydratedTexts(diffs, lineArray);
    ghost var byLines := diffs;
    diffs := CharsToLines(diffs, lineArray);
    assert Leads(diffs, Hydrate(chars1, lineArray), Hydrate(chars2, lineArray));
    var score: (Text, Text) -> int := *;  // diff_cleanupSemanticScore
    ghost var kept, lists, merged;
    diffs, kept, lists, merged := CleanupSemantic(score, diffs);
    run := LineRun(chars1, chars2, lineArray, byLines, score, diffs);
    diffs := Rediff(diffs, unlimited, clock);
  }

  // ----- the runs that are diffed again -----

  /** What a run costs: the edit distance of what it deletes and inserts, if it does both. */
  ghost function CostOf(run: seq<Diff>): nat {
    if Has(Delete, run) && Has(Insert, run) then Cost(Text1(run), Text2(run)) else EditLen(run)
  }

  /** What all runs of a list cost, with a run open in front of it. */
  ghost function RunCost(ds: seq<Diff>, run: seq<Diff>): nat
    decreases |ds|
  {
    if ds == [] then CostOf(run)
    else if ds[0].op == Equal then CostOf(run) + RunCost(ds[1..], [])
    else RunCost(ds[1..], run + [ds[0]])
  }

  lemma NoRunCost()
    ensures CostOf([]) == 0
  {
  }

  /** An empty equality at the end costs nothing. */
  lemma {:induction false} PaddedCost(ds: seq<Diff>, run: seq<Diff>)
    ensures RunCost(ds + [Diff(Equal, [])], run) == RunCost(ds, run)
    decreases |ds|
  {
    hide CostOf;
    var all := ds + [Diff(Equal, [])];
    if ds == [] {
      assert all[1..] == [] && all[0] == Diff(Equal, []);
      NoRunCost();
    } else {
      assert all[0] == ds[0] && all[1..] == ds[1..] + [Diff(Equal, [])];
      PaddedCost(ds[1..], if ds[0].op == Equal then [] else run + [ds[0]]);
    }
  }

  /** What has been diffed again up to the cursor, the open run, and what is to come, against the whole list. */
  ghost predicate Costs(padded: seq<Diff>, diffs: seq<Diff>, cur: int, n: int, countDelete: int, countInsert: int, unlimited: bool) {
    && 0 <= n <= cur <= |diffs|
    && (countDelete >= 1 <==> Has(Delete, diffs[cur - n..cur])) && (countInsert >= 1 <==> Has(Insert, diffs[cur - n..cur]))
    && EditLen(diffs) <= EditLen(padded)
    && (unlimited ==> EditLen(diffs[..cur - n]) + RunCost(diffs[cur..], diffs[cur - n..cur]) == RunCost(padded, []))
  }

  lemma CostsStart(padded: seq<Diff>, unlimited: bool)
    ensures Costs(padded, padded, 0, 0, 0, 0, unlimited)
  {
    assert padded[0..] == padded && padded[..0] == [];
  }

  lemma CostsEdit(padded: seq<Diff>, diffs: seq<Diff>, cur: int, n: int, countDelete: int, countInsert: int, unlimited: bool)
    requires Costs(padded, diffs, cur, n, countDelete, countInsert, unlimited) && cur < |diffs| && diffs[cur].op != Equal
    requires 0 <= countDelete && 0 <= countInsert
    ensures Costs(padded, diffs, cur + 1, n + 1, countDelete + (if diffs[cur].op == Delete then 1 else 0),
                  countInsert + (if diffs[cur].op == Insert then 1 else 0), unlimited)
  {
    hide CostOf, EditLen, Has;
    assert diffs[cur..][0] == diffs[cur] && diffs[cur..][1..] == diffs[cur + 1..];
    assert diffs[cur - n..cur + 1] == diffs[cur - n..cur] + [diffs[cur]];
    OneMoreRecord(diffs[cur - n..cur], diffs[cur]);
  }

  /** A list around a run. */
  lemma AroundRun(front: seq<Diff>, new_: seq<Diff>, e: Diff, behind: seq<Diff>)
    requires e.op == Equal
    ensures var d, n := front + new_ + ([e] + behind), |front| + |new_| + 1;
            && EditLen(d[..n]) == EditLen(front) + EditLen(new_) && EditLen(d) == EditLen(front) + EditLen(new_) + EditLen(behind)
            && d[n..] == behind && d[n..n] == []
  {
    hide EditLen, Text1, Text2, EqualCount;
    AroundParts(front, new_, e, behind);
    Concat3(front, new_, [e]);
    Concat3(front, new_, [e] + behind);
    Concat([e], behind);
    Single(e);
  }

  lemma AroundParts(front: seq<Diff>, new_: seq<Diff>, e: Diff, behind: seq<Diff>)
    ensures var d, n := front + new_ + ([e] + behind), |front| + |new_| + 1;
            && d[..n] == front + new_ + [e] && d[n..] == behind && d[n..n] == []
            && d[|front| + |new_|..] == [e] + behind && d[..|front|] == front && d[|front|..|front| + |new_|] == new_
  {
  }

  lemma RunCostFront(e: Diff, behind: seq<Diff>, run: seq<Diff>)
    requires e.op == Equal
    ensures RunCost([e] + behind, run) == CostOf(run) + RunCost(behind, [])
  {
    hide CostOf;
    assert ([e] + behind)[1..] == behind;
  }

  lemma ClosedCosts(padded: seq<Diff>, front: seq<Diff>, run: seq<Diff>, e: Diff, behind: seq<Diff>, new_: seq<Diff>,
                    unlimited: bool)
    requires e.op == Equal && EditLen(front + run + ([e] + behind)) <= EditLen(padded)
    requires unlimited ==> EditLen(front) + RunCost([e] + behind, run) == RunCost(padded, [])
    requires EditLen(new_) <= EditLen(run) && (unlimited ==> EditLen(new_) == CostOf(run))
    ensures Costs(padded, front + new_ + ([e] + behind), |front| + |new_| + 1, 0, 0, 0, unlimited)
  {
    hide CostOf, EditLen, RunCost, Has;
    AroundRun(front, run, e, behind);
    AroundRun(front, new_, e, behind);
    RunCostFront(e, behind, run);
    NoKindAtAll();
    var d, n := front + new_ + ([e] + behind), |front| + |new_| + 1;
    assert d[..n - 0] == d[..n];
  }

  lemma CostsNow(padded: seq<Diff>, diffs: seq<Diff>, cur: int, n: int, countDelete: int, countInsert: int, unlimited: bool)
    requires Costs(padded, diffs, cur, n, countDelete, countInsert, unlimited)
    ensures 0 <= n <= cur <= |diffs| && EditLen(diffs) <= EditLen(padded)
    ensures unlimited ==> EditLen(diffs[..cur - n]) + RunCost(diffs[cur..], diffs[cur - n..cur]) == RunCost(padded, [])
  {
  }

  /** The run is closed as it is, or with a new list in its place. */
  lemma CostsClose(padded: seq<Diff>, diffs: seq<Diff>, cur: int, n: int, countDelete: int, countInsert: int, unlimited: bool,
                   new_: seq<Diff>)
    requires Costs(padded, diffs, cur, n, countDelete, countInsert, unlimited) && cur < |diffs| && diffs[cur].op == Equal
    requires var run := diffs[cur - n..cur];
             && EditLen(new_) <= EditLen(run) && (unlimited ==> EditLen(new_) == CostOf(run))
    ensures var d', cur' := diffs[..cur - n] + new_ + diffs[cur..], cur - n + |new_|;
            Costs(padded, d', cur' + 1, 0, 0, 0, unlimited)
  {
    hide CostOf, EditLen, RunCost, Has, Costs;
    CostsNow(padded, diffs, cur, n, countDelete, countInsert, unlimited);
    RunInList(diffs, cur, n);
    ClosedCosts(padded, diffs[..cur - n], diffs[cur - n..cur], diffs[cur], diffs[cur + 1..], new_, unlimited);
  }

  lemma NoKindAtAll()
    ensures !Has(Delete, []) && !Has(Insert, [])
  {
  }

  lemma RunInList(diffs: seq<Diff>, cur: int, n: int)
    requires 0 <= n <= cur < |diffs|
    ensures diffs == diffs[..cur - n] + diffs[cur - n..cur] + ([diffs[cur]] + diffs[cur + 1..])
    ensures diffs[cur..] == [diffs[cur]] + diffs[cur + 1..]
  {
  }

  lemma LastOfOpenRun(diffs: seq<Diff>, cur: int, n: int)
    requires 0 < n <= cur <= |diffs| && AllEdits(diffs[cur - n..cur])
    ensures diffs[cur - 1].op != Equal
  {
    assert diffs[cur - n..cur][n - 1] == diffs[cur - 1];
  }

  lemma CostsEnd(padded: seq<Diff>, diffs: seq<Diff>, cur: int, n: int, countDelete: int, countInsert: int, unlimited: bool)
    requires Costs(padded, diffs, cur, n, countDelete, countInsert, unlimited) && cur == |diffs| && diffs != []
    requires diffs[|diffs| - 1] == Diff(Equal, []) && AllEdits(diffs[cur - n..cur])
    ensures EditLen(diffs) <= EditLen(padded) && (unlimited ==> EditLen(diffs) == RunCost(padded, []))
  {
    hide EditLen;
    if n > 0 {
      LastOfOpenRun(diffs, cur, n);
    }
    assert diffs[..cur] == diffs && diffs[cur..] == [] && diffs[cur..cur] == [];
    NoRunCost();
  }

  /** One kind of edit alone costs what it is long. */
  lemma CostOfOneKind(run: seq<Diff>)
    requires !(Has(Delete, run) && Has(Insert, run))
    ensures CostOf(run) == EditLen(run)
  {
  }

  lemma CostOfBoth(run: seq<Diff>, del: Text, ins: Text, new_: seq<Diff>, unlimited: bool)
    requires AllEdits(run) && Has(Delete, run) && Has(Insert, run) && del == Text1(run) && ins == Text2(run)
    requires Leads(new_, del, ins) && (unlimited ==> EditLen(new_) == Cost(del, ins))
    ensures EditLen(new_) <= EditLen(run) && (unlimited ==> EditLen(new_) == CostOf(run))
  {
    hide Text1, Text2, Cost;
    EditsAtMost(new_);
    RunTexts(run);
  }

  /** The runs already walked over, pending behind the cursor. */
  ghost predicate Pending(diffs: seq<Diff>, cur: int, n: int, del: Text, ins: Text) {
    && 0 <= n <= cur <= |diffs| && AllEdits(diffs[cur - n..cur])
    && del == Text1(diffs[cur - n..cur]) && ins == Text2(diffs[cur - n..cur])
  }

  lemma PendingEdit(diffs: seq<Diff>, cur: int, n: int, del: Text, ins: Text)
    requires Pending(diffs, cur, n, del, ins) && cur < |diffs| && diffs[cur].op != Equal
    ensures Pending(diffs, cur + 1, n + 1, if diffs[cur].op == Delete then del + diffs[cur].text else del,
                    if diffs[cur].op == Insert then ins + diffs[cur].text else ins)
  {
    hide Text1, Text2;
    var run, x := diffs[cur - n..cur], diffs[cur];
    assert diffs[cur - n..cur + 1] == run + [x];
    Concat(run, [x]);
    Single(x);
  }

  lemma PendingNone(diffs: seq<Diff>, cur: int)
    requires 0 <= cur <= |diffs|
    ensures Pending(diffs, cur, 0, [], [])
  {
    assert diffs[cur..cur] == [];
  }

  lemma RunReplaced(diffs: seq<Diff>, cur: int, n: int, del: Text, ins: Text, new_: seq<Diff>)
    requires Pending(diffs, cur, n, del, ins) && Leads(new_, del, ins)
    ensures Same(diffs[..cur - n] + new_ + diffs[cur..], diffs)
  {
    hide Text1, Text2;
    var run := diffs[cur - n..cur];
    assert diffs == diffs[..cur - n] + run + diffs[cur..];
    Replace(diffs[..cur - n], run, new_, diffs[cur..]);
  }

  /** The second half of diff_lineMode: every run with both deletions and insertions is diffed again, so that
      without a deadline each of them costs its edit distance. */
  method Rediff(ds: seq<Diff>, unlimited: bool, clock: Clock) returns (diffs: seq<Diff>)
    modifies clock
    ensures Same(diffs, ds)
    ensures if unlimited then EditLen(diffs) == RunCost(ds, []) else EditLen(diffs) <= EditLen(ds)
    decreases true, 0, 0
  {
    hide Text1, Text2, EditLen, Pending, Cost, Costs, RunCost, CostOf, Has, AllEdits;
    diffs := ds + [Diff(Equal, [])];  // an equality to close the last run
    ghost var padded := diffs;
    assert padded[..|padded| - 1] == ds;
    DropEmptyEqual(padded);
    var cur, countDelete, countInsert := 0, 0, 0;
    var textDelete, textInsert: Text := [], [];
    PendingNone(diffs, 0);
    CostsStart(padded, unlimited);
    while cur < |diffs|
      invariant 0 <= cur <= |diffs| && 0 <= countDelete && 0 <= countInsert && countDelete + countInsert <= cur
      invariant Pending(diffs, cur, countDelete + countInsert, textDelete, textInsert)
      invariant Costs(padded, diffs, cur, countDelete + countInsert, countDelete, countInsert, unlimited)
      invariant Same(diffs, padded) && diffs != [] && diffs[|diffs| - 1] == Diff(Equal, [])
      decreases |diffs| - cur
    {
      match diffs[cur].op {
        case Insert =>
          PendingEdit(diffs, cur, countDelete + countInsert, textDelete, textInsert);
          CostsEdit(padded, diffs, cur, countDelete + countInsert, countDelete, countInsert, unlimited);
          countInsert := countInsert + 1;
          textInsert := textInsert + diffs[cur].text;
        case Delete =>
          PendingEdit(diffs, cur, countDelete + countInsert, textDelete, textInsert);
          CostsEdit(padded, diffs, cur, countDelete + countInsert, countDelete, countInsert, unlimited);
          countDelete := countDelete + 1;
          textDelete := textDelete + diffs[cur].text;
        case Equal =>
          ghost var run := diffs[cur - countDelete - countInsert..cur];
          CostsRun(padded, diffs, cur, countDelete, countInsert, textDelete, textInsert, unlimited);
          if countDelete >= 1 && countInsert >= 1 {
            var newDiffs := Diffs(textDelete, textInsert, false, unlimited, clock);
            RunReplaced(diffs, cur, countDelete + countInsert, textDelete, textInsert, newDiffs);
            CostOfBoth(run, textDelete, textInsert, newDiffs, unlimited);
            CostsClose(padded, diffs, cur, countDelete + countInsert, countDelete, countInsert, unlimited, newDiffs);
            diffs, cur := diffs[..cur - countDelete - countInsert] + newDiffs + diffs[cur..],
                          cur - countDelete - countInsert + |newDiffs|;
          } else {
            CostOfOneKind(run);
            CostsClose(padded, diffs, cur, countDelete + countInsert, countDelete, countInsert, unlimited, run);
            assert diffs[..cur - countDelete - countInsert] + run + diffs[cur..] == diffs;
          }
          countDelete, countInsert, textDelete, textInsert := 0, 0, [], [];
          PendingNone(diffs, cur + 1);
      }
      cur := cur + 1;
    }
    CostsRun(padded, diffs, cur, countDelete, countInsert, textDelete, textInsert, unlimited);
    CostsEnd(padded, diffs, cur, countDelete + countInsert, countDelete, countInsert, unlimited);
    PaddedCost(ds, []);
    DropEmptyEqual(diffs);
    diffs := diffs[..|diffs| - 1];  // without the closing equality
  }

  lemma CostsRun(padded: seq<Diff>, diffs: seq<Diff>, cur: int, countDelete: int, countInsert: int, del: Text, ins: Text,
                 unlimited: bool)
    requires Pending(diffs, cur, countDelete + countInsert, del, ins)
    requires Costs(padded, diffs, cur, countDelete + countInsert, countDelete, countInsert, unlimited)
    ensures 0 <= countDelete + countInsert <= cur <= |diffs|
    ensures var run := diffs[cur - countDelete - countInsert..cur];
            && AllEdits(run) && del == Text1(run) && ins == Text2(run)
            && (countDelete >= 1 <==> Has(Delete, run)) && (countInsert >= 1 <==> Has(Insert, run))
  {
  }

  // ----- the public entry -----

  /** What diff_main promises of its list. */
  ghost predicate DiffOf(diffs: seq<Diff>, text1: Text, text2: Text, checklines: bool, unlimited: bool, late: nat -> bool) {
    && ((checklines ==> LinesFit(text1, text2)) ==> Leads(diffs, text1, text2))
    && (unlimited && !checklines ==> Minimal(diffs, text1, text2) && EditLen(diffs) == Cost(text1, text2))
    && (!unlimited && (checklines ==> LinesFit(text1, text2)) ==> HalfKept(diffs, text1, text2))
    && (checklines && OnlyByLines(text1, text2, unlimited) ==> (Leads(diffs, text1, text2) <==> FewLines(text1, text2)))
    && (!checklines ==> SomethingKept(diffs, text1, text2, late))
    && CutsOut(diffs, text1, text2) && Merged(diffs) && Unshiftable(diffs)
  }

  /** diff_main: both texts are kept, for every behaviour of the clock; with unlimited time and without the line-level
      speedup no edit list between the two texts is cheaper; with a deadline, what a half match finds is kept, and
      something is if the deadline never passes; and the list is merged, with nothing left to shift. */
  method DiffMain(text1: Text, text2: Text, checklines: bool, unlimited: bool, late: nat -> bool) returns (diffs: seq<Diff>)
    ensures DiffOf(diffs, text1, text2, checklines, unlimited, late)
  {
    hide SomethingKept, HalfKept, LinesFit, LineSet, OnlyByLines, FewLines, Unshiftable, CutsOut;
    var clock := new Clock(late);
    diffs := Diffs(text1, text2, checklines, unlimited, clock);
    if unlimited && !checklines {
      CheapestIsMinimal(diffs, text1, text2);
    }
  }

  /** A text of 65535 different lines, and one other line of 101 letters: with line mode on, whatever the clock
      does, the list that comes out does not lead from one to the other. */
  method TooManyLinesLost(unlimited: bool, late: nat -> bool) returns (diffs: seq<Diff>)
    ensures !Leads(diffs, MANY_LINES, ONE_LINE)
  {
    hide LineSet, OnlyByLines, SomethingKept, HalfKept, CutsOut, Merged, Unshiftable, Minimal, LinesFit;
    ManyLines(unlimited);
    diffs := DiffMain(MANY_LINES, ONE_LINE, true, unlimited, late);
  }

  const MANY_LINES := LineMode.Joined(Spelled(CHAR_LIMIT - 1))
  const ONE_LINE := Letters(101)

  lemma ManyLines(unlimited: bool)
    ensures OnlyByLines(MANY_LINES, ONE_LINE, unlimited) && !FewLines(MANY_LINES, ONE_LINE)
  {
    hide LineSet, LineMode.Joined, Spelled;
    SpelledText(CHAR_LIMIT - 1);
    SpelledAreTooMany(101);
    assert ONE_LINE[0] == 122 && ONE_LINE[|ONE_LINE| - 1] == 122 && |ONE_LINE| == 101;
    forall j ensures !Occurs(MANY_LINES, ONE_LINE, j) && !Occurs(ONE_LINE, MANY_LINES, j) {
      if Occurs(MANY_LINES, ONE_LINE, j) {
        OccursAt(MANY_LINES, ONE_LINE, j);
      }
    }
  }

  lemma OccursAt(text: Text, pattern: Text, j: int)
    requires Occurs(text, pattern, j) && pattern != []
    ensures pattern[0] in text
  {
    assert text[j] == text[j..j + |pattern|][0];
  }
}
