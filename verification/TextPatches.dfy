/** Patches from two plain texts: diff_main, both clean-ups, and patch_make. */
module TextPatches {
  import opened DiffList
  import opened Strings
  import opened Scripts
  import opened LineMode
  import opened MergeCleanup
  import opened SmallEqualities
  import opened SemanticCleanup
  import opened EfficiencyCleanup
  import opened Diffing
  import opened Patches
  import opened PatchRecords
  import opened PatchMaking
  import opened PatchSplitting
  import opened PatchApplying

  /** patch_make from two texts: the list of diff_main, both clean-ups if it has more than two records, and the
      patches of what comes out.  They lead from one text to the other, each at its place, exactly if the records
      of the cleaned list that reach the patches amount to all of them. */
  method PatchMakeTexts(text1: Text, text2: Text, s: Settings, editCost: int, unlimited: bool, late: nat -> bool)
      returns (patches: seq<Patch>, diffs: seq<Diff>, ghost first: seq<Diff>, ghost score: (Text, Text) -> int, ghost mid: seq<Diff>)
    requires Usable(s) && LinesFit(text1, text2)
    ensures DiffOf(first, text1, text2, true, unlimited, late)
    ensures if |first| <= 2 then diffs == mid == first else SemanticOf(score, first, mid) && EfficiencyOf(editCost, mid, diffs)
    ensures Leads(diffs, text1, text2) && Made(text1, diffs, patches, s)
    ensures forall i, m :: CutOut(text1, text2, i, m) && Untouched(CutOutList(text1, text2, i, m), editCost) ==>
                             diffs == CutOutList(text1, text2, i, m)
  {
    hide Text1, Text2, LinesFit, Made, Tidy, NoneSmall, Way, Merged, OnlyByLines, FewLines, EditLen, CutOut, CutOutList, SemanticOf,
         EfficiencyOf, Unshiftable, SomethingKept, HalfKept, Minimal, MergesTo, Slides, Overlapped;
    diffs := DiffMain(text1, text2, true, unlimited, late);
    first, mid := diffs, diffs;
    var anyScore: (Text, Text) -> int := *;  // diff_cleanupSemanticScore
    score := anyScore;
    if |diffs| > 2 {
      ghost var kept, lists, merged;
      diffs, kept, lists, merged := CleanupSemantic(anyScore, diffs);
      mid := diffs;
      diffs, kept, lists := CleanupEfficiency(diffs, editCost);
    }
    patches := PatchMake(text1, diffs, s);
  }

  /** A list that neither clean-up changes. */
  ghost predicate Untouched(diffs: seq<Diff>, editCost: int) {
    Tidy(diffs) && NoneSmall(Semantic, diffs) && NoneSmall(Efficiency(editCost), diffs)
  }

  /** From two texts to the second one again, through diff, clean-ups, patches and their application: whenever
      no record inside a patch is mistaken for the last one. */
  method RoundTripTexts(text1: Text, text2: Text, s: Settings, editCost: int, unlimited: bool, late: nat -> bool)
      returns (safe: bool, result: Text, results: seq<bool>)
    requires Usable(s) && LinesFit(text1, text2)
    ensures safe ==> result == text2 && forall i :: 0 <= i < |results| ==> results[i]
    ensures safe && text1 != text2 ==> results != []
  {
    hide Text1, Text2, LinesFit, Exact, NothingDropped, Untouched, CutOut, CutOutList, Prepared, FitsWindow;
    var patches, diffs;
    ghost var first, score, mid;
    patches, diffs, first, score, mid := PatchMakeTexts(text1, text2, s, editCost, unlimited, late);
    safe, result, results := NothingDropped(diffs, s.margin), text1, [];
    if safe {
      ExactIfNothingDropped(diffs, s.margin);
      ghost var small;
      result, results, small := PatchApply(patches, text1, s, text2);
    }
  }

  // ----- two texts whose patch does not apply -----

  /** a bbbb c bbbb, and what is left without a and c. */
  const WITH: Text := [97, 98, 98, 98, 98, 99, 98, 98, 98, 98]
  const WITHOUT: Text := [98, 98, 98, 98, 98, 98, 98, 98]

  /** For every margin of at least 3, every edit cost and every behaviour of the clock, the patch made from these
      two texts does not lead from one to the other. */
  method LostFromTexts(s: Settings, editCost: int, unlimited: bool, late: nat -> bool) returns (patches: seq<Patch>)
    requires Usable(s) && 3 <= s.margin
    ensures !Applies(patches, WITH, WITHOUT)
  {
    hide Applies, Exact, FirstOk, CutOut, CutOutList, Untouched, LinesFit, Text1, Text2;
    ShortTextsFit(WITH, WITHOUT);
    LostList(editCost, s.margin);
    var diffs;
    ghost var first, score, mid;
    patches, diffs, first, score, mid := PatchMakeTexts(WITH, WITHOUT, s, editCost, unlimited, late);
    assert CutOut(WITH, WITHOUT, 1, 4);
  }

  lemma LostList(editCost: int, margin: int)
    requires 3 <= margin
    ensures CutOut(WITH, WITHOUT, 1, 4) && Untouched(CutOutList(WITH, WITHOUT, 1, 4), editCost)
    ensures !Exact(CutOutList(WITH, WITHOUT, 1, 4), margin)
  {
    ListIs();
    var b := Diff(Equal, [98, 98, 98, 98]);
    var diffs := [TWIN_A, b, TWIN_C, b];
    ListUntouched(b, diffs, editCost);
    LostRecord(b, diffs, margin);
  }

  lemma ListIs()
    ensures CutOut(WITH, WITHOUT, 1, 4)
    ensures var b := Diff(Equal, [98, 98, 98, 98]); CutOutList(WITH, WITHOUT, 1, 4) == [TWIN_A, b, TWIN_C, b]
  {
    hide FirstAt, IsCommonSuffix;
    var front, four: Text := [97, 98, 98, 98, 98, 99], [98, 98, 98, 98];
    assert WITH == front + four && WITHOUT == four + four;
    assert WITH[..6] == front && WITHOUT[..4] == four && WITH[6..] == four;
    FourEnd(front, four);
    FourFirst(front, four);
    assert front[..1] == [97] && front[5..] == [99];
  }

  lemma FourEnd(front: Text, four: Text)
    requires front == [97, 98, 98, 98, 98, 99] && four == [98, 98, 98, 98]
    ensures IsCommonSuffix(front + four, four + four, 4)
  {
    assert (front + four)[6..] == four == (four + four)[4..];
    assert (front + four)[5] == 99 && (four + four)[3] == 98;
  }

  lemma FourFirst(front: Text, four: Text)
    requires front == [97, 98, 98, 98, 98, 99] && four == [98, 98, 98, 98]
    ensures FirstAt(front, four, 1)
  {
    assert front[1..5] == four;
    assert front[0..4][0] == 97 != four[0];
  }

  /** A deletion of one character, four characters kept, and the same again. */
  ghost predicate FourAndOne(diffs: seq<Diff>) {
    && |diffs| == 4 && (forall i :: 0 <= i < 4 && i % 2 == 0 ==> diffs[i].op == Delete && |diffs[i].text| == 1)
    && forall i :: 0 <= i < 4 && i % 2 == 1 ==> diffs[i].op == Equal && |diffs[i].text| == 4
  }

  lemma ListUntouched(b: Diff, diffs: seq<Diff>, editCost: int)
    requires b == Diff(Equal, [98, 98, 98, 98]) && diffs == [TWIN_A, b, TWIN_C, b]
    ensures Untouched(diffs, editCost)
  {
    assert FourAndOne(diffs) && Tidy(diffs);
    hide SmallAt, FourAndOne;
    forall rule, e, n ensures !SmallAt(rule, diffs, e, n) {
      NothingSmallAt(rule, diffs, e, n);
    }
  }

  lemma NothingSmallAt(rule: Rule, diffs: seq<Diff>, e: int, n: int)
    requires FourAndOne(diffs)
    ensures !SmallAt(rule, diffs, e, n)
  {
    hide Small, Trailing;
    if 0 <= e < n <= 4 && diffs[e].op == Equal && AllEdits(diffs[e + 1..n]) {
      OnlyEdits(diffs, e, n);
      assert e % 2 == 1;
      assert n <= e + 2 by {
        if e + 2 < 4 {
          assert (e + 2) % 2 == 1 && diffs[e + 2].op == Equal;
        }
      }
      var before, behind := diffs[e - 1..e], diffs[e + 1..n];
      OneTrailing(diffs[..e]);
      assert diffs[..e][e - 1..] == before;
      assert behind != [] ==> behind[0] == diffs[e + 1];
      NotSmall(rule, diffs[e].text, before, behind);
    }
  }

  lemma OnlyEdits(diffs: seq<Diff>, e: int, n: int)
    requires 0 <= e < n <= |diffs| && AllEdits(diffs[e + 1..n])
    ensures forall k :: e < k < n ==> diffs[k].op != Equal
  {
    forall k | e < k < n ensures diffs[k].op != Equal {
      assert diffs[k] == diffs[e + 1..n][k - e - 1];
    }
  }

  /** The edits at the end are the last record, if an equality or nothing comes before it. */
  lemma OneTrailing(d: seq<Diff>)
    requires d != [] && d[|d| - 1].op != Equal && (|d| > 1 ==> d[|d| - 2].op == Equal)
    ensures Trailing(d) == d[|d| - 1..]
  {
    assert Trailing(d[..|d| - 1]) == [];
  }

  /** Four characters are not small against one deletion of a single character on either side. */
  lemma NotSmall(rule: Rule, text: Text, before: seq<Diff>, behind: seq<Diff>)
    requires |text| == 4 && LoneDeletion(before) && LoneDeletion(behind)
    ensures !Small(rule, text, before, behind)
  {
    hide Has, Amount, LoneDeletion;
    LoneIs(before);
    LoneIs(behind);
  }

  /** At most one record, a deletion of one character. */
  ghost predicate LoneDeletion(d: seq<Diff>) {
    |d| <= 1 && forall k :: 0 <= k < |d| ==> d[k].op == Delete && |d[k].text| == 1
  }

  lemma LoneIs(d: seq<Diff>)
    requires LoneDeletion(d)
    ensures !Has(Insert, d) && Amount(Insert, d) == 0 && Amount(Delete, d) <= 1
  {
    if d != [] {
      assert d == [] + [d[0]];
      OneMoreRecord([], d[0]);
    }
  }

  lemma LostRecord(b: Diff, diffs: seq<Diff>, margin: int)
    requires b == Diff(Equal, [98, 98, 98, 98]) && diffs == [TWIN_A, b, TWIN_C, b] && 3 <= margin
    ensures !Exact(diffs, margin)
  {
    hide Exact;
    assert Kept(diffs, 1, margin) == [TWIN_A];
    assert Dropped(diffs, 1, margin) && !Dropped(diffs, 0, margin);
    LostRecordBreaks(diffs, 1, margin);
  }
}
