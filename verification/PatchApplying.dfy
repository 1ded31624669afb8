/** patch_apply on text that really contains the patches' source: every patch is found at its exact
    place, so the fuzzy branches are never taken. */
module PatchApplying {
  import opened Helpers
  import opened DiffList
  import opened Strings
  import opened Patches
  import opened PatchMaking
  import opened PatchRecords
  import opened PatchPadding
  import opened PatchSplitting

  /** match_main.  The fuzzy search of match_bitap is left open: it may return any place or -1. */
  method MatchMain(text: Text, pattern: Text, loc0: int) returns (r: int)
    ensures Occurs(text, pattern, loc0) ==> r == loc0
    ensures -1 <= r
  {
    var loc := Max(0, Min(loc0, |text|));
    if text == pattern {
      r := 0;
    } else if text == [] {
      r := -1;
    } else if loc + |pattern| <= |text| && text[loc..loc + |pattern|] == pattern {
      // The pattern stands where it is expected, or is empty.
      r := loc;
    } else {
      r := *;
      if r < 0 {
        r := -1;
      }
    }
  }

  lemma PartOccurs(text: Text, pattern: Text, at: int, i: int, j: int)
    requires Occurs(text, pattern, at) && 0 <= i <= j <= |pattern|
    ensures Occurs(text, pattern[i..j], at + i)
  {
    var a, b := text[at + i..at + j], pattern[i..j];
    assert forall k :: 0 <= k < |b| ==> a[k] == text[at..at + |pattern|][i + k];
  }

  /** Looks for the source of a patch: all of it, or both ends if it is longer than the window. */
  method Locate(text: Text, text1: Text, expected: int, s: Settings) returns (start: int, end: int)
    requires Usable(s) && Occurs(text, text1, expected)
    ensures start == expected
    ensures end == if |text1| > s.maxBits then expected + |text1| - s.maxBits else -1
  {
    end := -1;
    if |text1| > s.maxBits {
      PartOccurs(text, text1, expected, 0, s.maxBits);
      PartOccurs(text, text1, expected, |text1| - s.maxBits, |text1|);
      start := MatchMain(text, text1[..s.maxBits], expected);
      if start != -1 {
        end := MatchMain(text, text1[|text1| - s.maxBits..], expected + |text1| - s.maxBits);
        if end == -1 || start >= end {
          // The end was not found behind the start.
          start := -1;
        }
      }
    } else {
      start := MatchMain(text, text1, expected);
    }
  }

  /** The patches are padded and split, and then lead from one padded text to the other. */
  ghost predicate Prepared(patches: seq<Patch>, small: seq<Patch>, from: Text, to: Text, s: Settings)
    requires Usable(s)
  {
    var pad := NullPadding(s.margin);
    && (exists padded :: PaddedAll(patches, padded, s.margin) && SplitAll(padded, small, s))
    && Applies(small, pad + from + pad, pad + to + pad)
  }

  /** patch_apply: padding, splitting, then every patch in turn. */
  method PatchApply(patches: seq<Patch>, sourceText: Text, s: Settings, ghost target: Text)
      returns (result: Text, results: seq<bool>, ghost small: seq<Patch>)
    requires Usable(s) && Applies(patches, sourceText, target) && FirstOk(patches, sourceText, s.margin)
    ensures result == target
    ensures |results| == |small| && forall i :: 0 <= i < |results| ==> results[i]
    ensures forall i :: 0 <= i < |small| ==> FitsWindow(small[i], s.maxBits, s)
    ensures patches != [] ==> Prepared(patches, small, sourceText, target, s)
    ensures target != sourceText ==> results != []
  {
    hide Text1, Text2, AppliesAt, ApplyOne, FitsWindow, PaddedAll, SplitAll;
    results, small := [], [];
    if patches == [] {
      return sourceText, results, small;
    }
    var padded, nullPadding := AddPadding(patches, s, sourceText, target);
    var text := nullPadding + sourceText + nullPadding;
    ghost var goal := nullPadding + target + nullPadding;
    var todo := SplitMax(padded, s, text, goal);
    small := todo;
    // delta: how far from its place the last patch was found.
    var delta := 0;
    var x := 0;
    while x < |todo|
      invariant 0 <= x <= |todo| && |results| == x && delta == 0
      invariant Applies(todo[x..], text, goal)
      invariant forall i :: 0 <= i < x ==> results[i]
    {
      var p := todo[x];
      assert todo[x..][0] == p && todo[x..][1..] == todo[x + 1..];
      var text1 := DiffText1(p.diffs);
      var replacement := DiffText2(p.diffs);
      PatchIsThere(p, text);
      var expected := p.start2 + delta;
      var start, end := Locate(text, text1, expected, s);
      // The place is known.
      results := results + [true];
      delta := start - expected;
      var text2 := if end == -1 then text[start..start + |text1|] else text[start..end + s.maxBits];
      assert text1 == text2;
      // The whole source stands there; the destination takes its place.
      text := text[..start] + replacement + text[start + |text1|..];
      x := x + 1;
    }
    // Without the padding on both sides.
    result := text[|nullPadding|..|text| - |nullPadding|];
    assert todo[x..] == [] && text == goal;
    assert goal[|nullPadding|..|goal| - |nullPadding|] == target;
  }

  lemma PatchIsThere(p: Patch, text: Text)
    requires AppliesAt(p, text)
    ensures Occurs(text, Text1(p.diffs), p.start2) && p.length1 == |Text1(p.diffs)|
    ensures ApplyOne(p, text) == text[..p.start2] + Text2(p.diffs) + text[p.start2 + |Text1(p.diffs)|..]
  {
  }

  /** The promise of the patch functions: making a patch from an edit list and applying it to the
      source text gives the destination text, and reports every small patch as applied, whenever the records that
      reach the patches amount to all records; so in particular when no record inside a patch is mistaken
      for the last one. */
  method RoundTrip(text1: Text, diffs: seq<Diff>, s: Settings)
      returns (result: Text, results: seq<bool>, ghost small: seq<Patch>)
    requires Usable(s) && text1 == Text1(diffs) && Exact(diffs, s.margin)
    ensures result == Text2(diffs)
    ensures |results| == |small| && (forall i :: 0 <= i < |results| ==> results[i]) && (result != text1 ==> results != [])
  {
    hide Text1, Text2, Exact, Prepared, FitsWindow;
    var patches := PatchMake(text1, diffs, s);
    result, results, small := PatchApply(patches, text1, s, Text2(diffs));
  }
}
