/** patch_make and patch_addContext. */
module PatchMaking {
  import opened Helpers
  import opened DiffList
  import opened Strings
  import opened Patches
  import opened PatchRecords

  // ----- context -----

  ghost function Context(text: Text): seq<Diff> {
    if text == [] then [] else [Diff(Equal, text)]
  }

  lemma ContextTexts(text: Text)
    ensures Text1(Context(text)) == text && Text2(Context(text)) == text
  {
    Single(Diff(Equal, text));
  }

  /** A patch with context texts before and after it. */
  ghost function WithContext(p: Patch, prefix: Text, suffix: Text): Patch {
    Patch(Context(prefix) + p.diffs + Context(suffix), p.start1 - |prefix|, p.start2 - |prefix|,
          p.length1 + |prefix| + |suffix|, p.length2 + |prefix| + |suffix|)
  }

  lemma ContextApplies(p: Patch, text: Text, lo: int, hi: int)
    requires AppliesAt(p, text) && 0 <= lo <= p.start2 && p.start2 + p.length1 <= hi <= |text|
    ensures var q := WithContext(p, text[lo..p.start2], text[p.start2 + p.length1..hi]);
            AppliesAt(q, text) && ApplyOne(q, text) == ApplyOne(p, text)
  {
    var prefix, suffix := text[lo..p.start2], text[p.start2 + p.length1..hi];
    hide Text1, Text2, AppliesAt, ApplyOne, Extended;
    PatchLengths(p, text);
    WithContextExtends(p, prefix, suffix);
    hide WithContext;
    ExtendApplies(p, WithContext(p, prefix, suffix), text, prefix, suffix);
  }

  lemma WithContextExtends(p: Patch, prefix: Text, suffix: Text)
    ensures Extended(p, WithContext(p, prefix, suffix), prefix, suffix)
  {
    hide Text1, Text2, Context;
    ContextTexts(prefix);
    ContextTexts(suffix);
    Concat3(Context(prefix), p.diffs, Context(suffix));
  }

  /** The stretch of a patch in its text, with w characters around it. */
  function Around(p: Patch, text: Text, w: int): Text
    requires Roomy(p, text) && 0 <= w
  {
    text[Max(0, p.start2 - w)..Min(|text|, p.start2 + p.length1 + w)]
  }

  /** The patch lies inside its text. */
  predicate Roomy(p: Patch, text: Text) {
    0 <= p.start2 && 0 <= p.length1 && p.start2 + p.length1 <= |text|
  }

  ghost predicate OccursOnce(text: Text, pattern: Text) {
    forall i, j :: Occurs(text, pattern, i) && Occurs(text, pattern, j) ==> i == j
  }

  /** With k margins around it, the stretch occurs only once in the text, or is as long as it may be. */
  ghost predicate WideEnough(p: Patch, text: Text, s: Settings, k: nat)
    requires Roomy(p, text) && 0 <= s.margin
  {
    var pattern := Around(p, text, s.margin * k);
    OccursOnce(text, pattern) || s.maxBits - 2 * s.margin <= |pattern|
  }

  /** The fewest margins that are enough. */
  ghost predicate Width(p: Patch, text: Text, s: Settings, k: nat)
    requires Roomy(p, text) && 0 <= s.margin
  {
    WideEnough(p, text, s, k) && forall j: nat :: j < k ==> !WideEnough(p, text, s, j)
  }

  lemma OneWidth(p: Patch, text: Text, s: Settings, j: nat, k: nat)
    requires Roomy(p, text) && 0 <= s.margin && Width(p, text, s, j) && Width(p, text, s, k)
    ensures j == k
  {
    hide WideEnough;
  }

  /** The patch with as much context on both sides as it takes, and one margin more. */
  ghost predicate Contexted(patch: Patch, text: Text, s: Settings, p: Patch)
    requires Roomy(patch, text) && 0 <= s.margin
  {
    if text == [] then p == patch
    else exists k: nat :: Width(patch, text, s, k) && p == WithContext(patch, Before(patch, text, s.margin * (k + 1)),
                                                                       Behind(patch, text, s.margin * (k + 1)))
  }

  /** The characters of the text before and behind the patch, w of each or as many as there are. */
  function Before(p: Patch, text: Text, w: int): Text
    requires Roomy(p, text) && 0 <= w
  {
    text[Max(0, p.start2 - w)..p.start2]
  }

  function Behind(p: Patch, text: Text, w: int): Text
    requires Roomy(p, text) && 0 <= w
  {
    text[p.start2 + p.length1..Min(|text|, p.start2 + p.length1 + w)]
  }

  lemma OnceIff(text: Text, pattern: Text, first: int, last: int)
    requires (exists i :: Occurs(text, pattern, i)) && (first == -1 || Occurs(text, pattern, first))
    requires last == -1 || Occurs(text, pattern, last)
    requires forall j :: 0 <= j && Occurs(text, pattern, j) ==> 0 <= first <= j
    requires forall j :: Occurs(text, pattern, j) ==> j <= last
    ensures first == last <==> OccursOnce(text, pattern)
  {
  }

  lemma StretchOccurs(p: Patch, text: Text, w: int)
    requires Roomy(p, text) && 0 <= w
    ensures Occurs(text, Around(p, text, w), Max(0, p.start2 - w))
  {
  }

  /** The test of the loop asks whether the context is wide enough. */
  lemma TestIs(p: Patch, text: Text, s: Settings, k: nat, pattern: Text, first: int, last: int)
    requires Roomy(p, text) && 0 <= s.margin && pattern == Around(p, text, s.margin * k)
    requires first == -1 || Occurs(text, pattern, first)
    requires last == -1 || Occurs(text, pattern, last)
    requires forall j :: 0 <= j && Occurs(text, pattern, j) ==> 0 <= first <= j
    requires forall j :: Occurs(text, pattern, j) ==> j <= last
    ensures first == last || |pattern| >= s.maxBits - s.margin - s.margin <==> WideEnough(p, text, s, k)
    ensures |text| <= s.margin * k ==> first == last
  {
    hide OccursOnce, Occurs;
    StretchOccurs(p, text, s.margin * k);
    OnceIff(text, pattern, first, last);
    if |text| <= s.margin * k {
      assert pattern == text;
      WholeOnce(text);
    }
  }

  lemma NextMultiple(margin: int, k: nat)
    ensures margin * (k + 1) == margin * k + margin
  {
  }

  /** How far the context must reach until the pattern is unique in the text, or too long: a multiple of the
      margin, the least one that is enough, and one margin more. */
  method ContextWidth(p: Patch, text: Text, s: Settings) returns (padding: int, ghost k: nat)
    requires Usable(s) && Roomy(p, text)
    ensures Width(p, text, s, k) && padding == s.margin * (k + 1)
    ensures exists j: nat :: Width(p, text, s, j) && padding == s.margin * (j + 1)
  {
    hide OccursOnce, Occurs, WideEnough;
    var pattern := text[p.start2..p.start2 + p.length1];
    padding, k := 0, 0;
    var first := Find(text, pattern, 0);
    var last := FindLast(text, pattern);
    assert pattern == Around(p, text, 0) && s.margin * 0 == 0;
    TestIs(p, text, s, 0, pattern, first, last);
    while first != last && |pattern| < s.maxBits - s.margin - s.margin
      invariant 0 <= padding == s.margin * k
      invariant first == last || |pattern| >= s.maxBits - s.margin - s.margin <==> WideEnough(p, text, s, k)
      invariant forall j: nat :: j < k ==> !WideEnough(p, text, s, j)
      invariant |text| <= padding ==> first == last
      decreases |text| - padding
    {
      NextMultiple(s.margin, k);
      padding, k := padding + s.margin, k + 1;
      pattern := text[Max(0, p.start2 - padding)..Min(|text|, p.start2 + p.length1 + padding)];
      first := Find(text, pattern, 0);
      last := FindLast(text, pattern);
      TestIs(p, text, s, k, pattern, first, last);
    }
    NextMultiple(s.margin, k);
    // One margin more than needed.
    padding := padding + s.margin;
  }

  lemma WholeOnce(text: Text)
    ensures OccursOnce(text, text)
  {
  }

  /** patch_addContext: the patch gains the context it takes on both sides; one that applies keeps its meaning. */
  method AddContext(patch: Patch, text: Text, s: Settings) returns (p: Patch, ghost prefix: Text, ghost suffix: Text)
    requires Usable(s) && Roomy(patch, text)
    ensures Contexted(patch, text, s, p)
    ensures p == WithContext(patch, prefix, suffix)
    ensures |prefix| <= patch.start2 && prefix == text[patch.start2 - |prefix|..patch.start2]
    ensures AppliesAt(patch, text) ==> AppliesAt(p, text) && ApplyOne(p, text) == ApplyOne(patch, text)
    ensures StartOk(p, s.margin) && EndOk(p, text, s.margin)
  {
    hide Text1, Text2, AppliesAt, ApplyOne, Applies, WithContext, Context, StartOk, EndOk, Width;
    prefix, suffix := [], [];
    if text == [] {
      ContextShape(patch, prefix, suffix, patch.diffs, patch);
      ContextEnds(patch, prefix, suffix, 0, 0, text, s.margin);
      return patch, [], [];
    }
    var padding; ghost var k;
    padding, k := ContextWidth(patch, text, s);
    AtLeastOne(s.margin, k);
    var lo, hi := Max(0, patch.start2 - padding), Min(|text|, patch.start2 + patch.length1 + padding);
    var pre, suf := text[lo..patch.start2], text[patch.start2 + patch.length1..hi];
    prefix, suffix := pre, suf;
    var diffs := patch.diffs;
    if pre != [] {
      diffs := [Diff(Equal, pre)] + diffs;
    }
    if suf != [] {
      diffs := diffs + [Diff(Equal, suf)];
    }
    // The patch now covers the context as well.
    p := Patch(diffs, patch.start1 - |pre|, patch.start2 - |pre|,
               patch.length1 + |pre| + |suf|, patch.length2 + |pre| + |suf|);
    ContextShape(patch, prefix, suffix, diffs, p);
    ContextEnds(patch, prefix, suffix, lo, hi, text, s.margin);
    if AppliesAt(patch, text) {
      ContextApplies(patch, text, lo, hi);
    }
  }

  lemma AtLeastOne(margin: int, k: nat)
    requires 1 <= margin
    ensures margin <= margin * (k + 1)
  {
    assert margin * (k + 1) == margin * k + margin;
  }

  /** Context as wide as the margin, or up to the border of the text. */
  lemma ContextEnds(patch: Patch, prefix: Text, suffix: Text, lo: int, hi: int, text: Text, margin: int)
    requires 0 <= lo <= patch.start2 && 0 <= patch.length1 && patch.start2 + patch.length1 <= hi <= |text| && 1 <= margin
    requires prefix == text[lo..patch.start2] && suffix == text[patch.start2 + patch.length1..hi]
    requires (lo == 0 || lo <= patch.start2 - margin) && (hi == |text| || patch.start2 + patch.length1 + margin <= hi)
    ensures var p := WithContext(patch, prefix, suffix); StartOk(p, margin) && EndOk(p, text, margin)
  {
    var p := WithContext(patch, prefix, suffix);
    if lo != 0 {
      assert p.diffs[0] == Diff(Equal, prefix);
    }
    if hi != |text| {
      assert p.diffs[|p.diffs| - 1] == Diff(Equal, suffix);
    }
  }

  lemma ContextShape(patch: Patch, prefix: Text, suffix: Text, r: seq<Diff>, p: Patch)
    requires r == (if suffix == [] then (if prefix == [] then patch.diffs else [Diff(Equal, prefix)] + patch.diffs)
                   else (if prefix == [] then patch.diffs else [Diff(Equal, prefix)] + patch.diffs)
                        + [Diff(Equal, suffix)])
    requires p == Patch(r, patch.start1 - |prefix|, patch.start2 - |prefix|,
                        patch.length1 + |prefix| + |suffix|, patch.length2 + |prefix| + |suffix|)
    ensures p == WithContext(patch, prefix, suffix)
  {
  }

  // ----- the walk over the diffs -----

  /** The patch with these records, n characters into the text. */
  ghost function PatchOf(kept: seq<Diff>, n: int): Patch {
    if kept == [] then EMPTY_PATCH else Patch(kept, n, n, |Text1(kept)|, |Text2(kept)|)
  }

  /** The variables of the walk in front of record i. */
  ghost predicate Walking(diffs: seq<Diff>, i: int, patch: Patch, prepatch: Text, postpatch: Text, margin: int) {
    && 0 <= i <= |diffs| && postpatch == At(diffs, i)
    && var b := Begin(diffs, i, margin);
       prepatch == At(diffs, b) && patch == PatchOf(Kept(diffs, i, margin), |Text2(diffs[..b])|)
  }

  /** Two texts of the same length differ before position n. */
  ghost predicate Differ(x: Text, y: Text, n: int) {
    |x| == |y| && exists q :: 0 <= q < n && q < |x| && x[q] != y[q]
  }

  /** The patches so far lead to the text after the first b records, if all of them amount to their records;
      otherwise, if they apply at all, they lead to a text that is wrong before the place reached. */
  ghost predicate Leading(patches: seq<Patch>, text1: Text, exact: bool, diffs: seq<Diff>, b: int)
    requires 0 <= b <= |diffs|
  {
    if exact then Applies(patches, text1, At(diffs, b))
    else forall z :: Applies(patches, text1, z) ==> Differ(z, At(diffs, b), |Text2(diffs[..b])|)
  }

  /** Everything the walk maintains in front of record i. */
  ghost predicate MakeInv(text1: Text, diffs: seq<Diff>, i: int, patches: seq<Patch>, patch: Patch,
                          prepatch: Text, postpatch: Text, s: Settings) {
    && Walking(diffs, i, patch, prepatch, postpatch, s.margin)
    && Leading(patches, text1, ExactBefore(diffs, i, s.margin), diffs, Begin(diffs, i, s.margin))
    && Stamped(patches, text1, prepatch, s.margin)
  }

  ghost predicate Stamped(patches: seq<Patch>, text1: Text, prepatch: Text, margin: int) {
    && (forall k :: 0 <= k < |patches| ==> patches[k].start1 == patches[k].start2)
    && FirstOk(patches, text1, margin) && (patches == [] ==> prepatch == text1)
  }

  /** What patch_make promises about its result: what the patches do, and which patches they are. */
  ghost predicate Made(text1: Text, diffs: seq<Diff>, patches: seq<Patch>, s: Settings) {
    Promised(text1, diffs, patches, s) && AllListed(diffs, s, patches)
  }

  ghost predicate Promised(text1: Text, diffs: seq<Diff>, patches: seq<Patch>, s: Settings) {
    && (Applies(patches, text1, Text2(diffs)) <==> Exact(diffs, s.margin))
    && FirstOk(patches, text1, s.margin)
    && (forall k :: 0 <= k < |patches| ==> patches[k].start1 == patches[k].start2)
  }

  // ----- exactly these patches -----

  /** The patch of the records kept up to some record, before it gets its context, and the text it is for. */
  ghost predicate PatchFrom(diffs: seq<Diff>, b: int, kept: seq<Diff>, s: Settings, p: Patch)
    requires 0 <= b <= |diffs| && 0 <= s.margin
  {
    var bare, text := PatchOf(kept, |Text2(diffs[..b])|), At(diffs, b);
    Roomy(bare, text) && Contexted(bare, text, s, p)
  }

  /** One patch for every long equality before record i that closes one, in order. */
  ghost predicate Listed(diffs: seq<Diff>, i: int, s: Settings, patches: seq<Patch>)
    requires 0 <= i <= |diffs| && 0 <= s.margin
    decreases i
  {
    if i == 0 then patches == []
    else if Closes(diffs[i - 1], s.margin) && Kept(diffs, i - 1, s.margin) != [] then
      && patches != [] && Listed(diffs, i - 1, s, patches[..|patches| - 1])
      && PatchFrom(diffs, Begin(diffs, i - 1, s.margin), KeptWith(diffs, i - 1, s.margin), s, patches[|patches| - 1])
    else Listed(diffs, i - 1, s, patches)
  }

  /** And one for what is open at the end. */
  ghost predicate AllListed(diffs: seq<Diff>, s: Settings, patches: seq<Patch>) {
    && 0 <= s.margin
    && var n := |diffs|;
       if Kept(diffs, n, s.margin) == [] then Listed(diffs, n, s, patches)
       else && patches != [] && Listed(diffs, n, s, patches[..|patches| - 1])
            && PatchFrom(diffs, Begin(diffs, n, s.margin), Kept(diffs, n, s.margin), s, patches[|patches| - 1])
  }

  lemma ListedOn(diffs: seq<Diff>, i: int, s: Settings, patches: seq<Patch>)
    requires 0 <= i < |diffs| && 0 <= s.margin && Listed(diffs, i, s, patches)
    requires !Closes(diffs[i], s.margin) || Kept(diffs, i, s.margin) == []
    ensures Listed(diffs, i + 1, s, patches)
  {
  }

  lemma ListedClose(diffs: seq<Diff>, i: int, s: Settings, patches: seq<Patch>, bare: Patch, text: Text, p: Patch)
    requires 0 <= i < |diffs| && 0 <= s.margin && Listed(diffs, i, s, patches)
    requires Closes(diffs[i], s.margin) && Kept(diffs, i, s.margin) != []
    requires text == At(diffs, Begin(diffs, i, s.margin)) && Roomy(bare, text) && Contexted(bare, text, s, p)
    requires bare == PatchOf(KeptWith(diffs, i, s.margin), |Text2(diffs[..Begin(diffs, i, s.margin)])|)
    ensures Listed(diffs, i + 1, s, patches + [p])
  {
    hide Text1, Text2, Kept, KeptWith, Begin, PatchOf, At, Contexted, Closes;
    assert (patches + [p])[..|patches|] == patches;
  }

  lemma ListedLast(diffs: seq<Diff>, s: Settings, patches: seq<Patch>, bare: Patch, text: Text, p: Patch)
    requires 0 <= s.margin && Listed(diffs, |diffs|, s, patches) && Kept(diffs, |diffs|, s.margin) != []
    requires text == At(diffs, Begin(diffs, |diffs|, s.margin)) && Roomy(bare, text) && Contexted(bare, text, s, p)
    requires bare == PatchOf(Kept(diffs, |diffs|, s.margin), |Text2(diffs[..Begin(diffs, |diffs|, s.margin)])|)
    ensures AllListed(diffs, s, patches + [p])
  {
    hide Text1, Text2, Kept, Begin, PatchOf, At, Contexted, Listed;
    assert (patches + [p])[..|patches|] == patches;
  }

  // ----- moving along -----

  /** One more record behind the cursor. */
  lemma Advance(diffs: seq<Diff>, i: int)
    requires 0 <= i < |diffs|
    ensures Text2(diffs[..i + 1]) == Text2(diffs[..i]) + Destination(diffs[i])
    ensures Text1(diffs[i..]) == Source(diffs[i]) + Text1(diffs[i + 1..])
    ensures diffs[i].op == Equal ==> At(diffs, i + 1) == At(diffs, i)
  {
    hide Text1, Text2;
    assert diffs[..i + 1] == diffs[..i] + [diffs[i]];
    Concat(diffs[..i], [diffs[i]]);
    Single(diffs[i]);
    SourceAhead(diffs, i);
    Assoc(Text2(diffs[..i]), diffs[i].text, Text1(diffs[i + 1..]));
  }

  lemma SourceAhead(diffs: seq<Diff>, i: int)
    requires 0 <= i < |diffs|
    ensures Text1(diffs[i..]) == Source(diffs[i]) + Text1(diffs[i + 1..])
  {
    assert diffs[i..][0] == diffs[i] && diffs[i..][1..] == diffs[i + 1..];
  }

  /** Where record i stands in the partly patched text. */
  lemma Position(diffs: seq<Diff>, i: int)
    requires 0 <= i < |diffs|
    ensures var n, t := |Text2(diffs[..i])|, At(diffs, i);
            && n + |Source(diffs[i])| <= |t| && t[..n] == Text2(diffs[..i]) && t[n..] == Text1(diffs[i..])
            && t[n + |Source(diffs[i])|..] == Text1(diffs[i + 1..])
            && |Text2(diffs[..i + 1])| == n + |Destination(diffs[i])|
  {
    hide Text1, Text2, Source, Destination;
    Advance(diffs, i);
    ThreeParts(Text2(diffs[..i]), Source(diffs[i]), Text1(diffs[i + 1..]));
  }

  lemma ThreeParts(x: Text, y: Text, z: Text)
    ensures (x + (y + z))[..|x|] == x && (x + (y + z))[|x|..] == y + z && (x + (y + z))[|x| + |y|..] == z
  {
  }

  /** The text after one more record. */
  lemma PostpatchAfter(diffs: seq<Diff>, i: int, before: Text, after: Text)
    requires 0 <= i < |diffs| && before == At(diffs, i)
    requires var n, d := |Text2(diffs[..i])|, diffs[i];
             && n + |Source(d)| <= |before|
             && after == match d.op {
                  case Insert => before[..n] + d.text + before[n..]
                  case Delete => before[..n] + before[n + |d.text|..]
                  case Equal => before }
    ensures after == At(diffs, i + 1)
  {
    hide Text1, Text2;
    Position(diffs, i);
    Advance(diffs, i);
    assert Text2(diffs[..i]) + [] == Text2(diffs[..i]) && [] + Text1(diffs[i + 1..]) == Text1(diffs[i + 1..]);
  }

  /** The open patch with record i looked at. */
  lemma PatchWith(diffs: seq<Diff>, i: int, patch: Patch, margin: int)
    requires 0 <= i < |diffs|
    requires patch == PatchOf(Kept(diffs, i, margin), |Text2(diffs[..Begin(diffs, i, margin)])|)
    ensures patch.diffs == Kept(diffs, i, margin)
    ensures var d := diffs[i];
            var n := if patch.diffs == [] then |Text2(diffs[..i])| else patch.start2;
            PatchOf(KeptWith(diffs, i, margin), n)
            == if Keeps(diffs, i, patch.diffs != [], margin)
               then Patch(patch.diffs + [d], n, n, patch.length1 + |Source(d)|, patch.length2 + |Destination(d)|)
               else patch
  {
    hide Text1, Text2;
    var kept := Kept(diffs, i, margin);
    Concat(kept, [diffs[i]]);
    Single(diffs[i]);
    Nothing();
  }

  /** A record that closes no patch. */
  lemma StepOn(text1: Text, diffs: seq<Diff>, i: int, patches: seq<Patch>, patch: Patch, prepatch: Text, postpatch: Text,
               s: Settings, patch': Patch, postpatch': Text, n: int)
    requires MakeInv(text1, diffs, i, patches, patch, prepatch, postpatch, s) && i < |diffs|
    requires !Closes(diffs[i], s.margin) || patch.diffs == []
    requires n == if patch.diffs == [] then |Text2(diffs[..i])| else patch.start2
    requires patch' == PatchOf(KeptWith(diffs, i, s.margin), n) && postpatch' == At(diffs, i + 1)
    ensures MakeInv(text1, diffs, i + 1, patches, patch', if patch'.diffs == [] then postpatch' else prepatch, postpatch', s)
    ensures patch.diffs == patch'.diffs == [] ==> postpatch' == prepatch == postpatch
  {
    hide Text1, Text2, Leading, Applies, FirstOk, Amounts, ExactBefore, Kept, KeptWith, Begin, At;
    var m := s.margin;
    assert Kept(diffs, i, m) == patch.diffs;
    NextKept(diffs, i, m);
    ExactStep(diffs, i, m);
    if patch.diffs == [] {
      Advance(diffs, i);
      if diffs[i].op == Equal {
        LeadingOn(patches, text1, ExactBefore(diffs, i, m), diffs, i);
      }
    }
  }

  /** The open patch behind a record that closes none. */
  lemma NextKept(diffs: seq<Diff>, i: int, margin: int)
    requires 0 <= i < |diffs| && (!Closes(diffs[i], margin) || Kept(diffs, i, margin) == [])
    ensures Kept(diffs, i + 1, margin) == KeptWith(diffs, i, margin)
    ensures Begin(diffs, i + 1, margin) == if KeptWith(diffs, i, margin) == [] then i + 1 else Begin(diffs, i, margin)
    ensures Kept(diffs, i, margin) == [] ==> Begin(diffs, i, margin) == i && (KeptWith(diffs, i, margin) == [] <==> diffs[i].op == Equal)
    ensures Kept(diffs, i, margin) != [] ==> KeptWith(diffs, i, margin) != []
  {
  }

  lemma ExactStep(diffs: seq<Diff>, i: int, margin: int)
    requires 0 <= i < |diffs| && (!Closes(diffs[i], margin) || Kept(diffs, i, margin) == [])
    ensures ExactBefore(diffs, i + 1, margin) == ExactBefore(diffs, i, margin)
  {
  }

  /** The place reached moves on over an equality. */
  lemma LeadingOn(patches: seq<Patch>, text1: Text, exact: bool, diffs: seq<Diff>, i: int)
    requires 0 <= i < |diffs| && diffs[i].op == Equal && Leading(patches, text1, exact, diffs, i)
    ensures Leading(patches, text1, exact, diffs, i + 1)
  {
    hide Text1, Text2, Applies, At;
    Advance(diffs, i);
  }

  // ----- closing a patch -----

  /** The patch of the kept records applies to its text exactly if they claim what stands there; and then it
      gives the text after all records, or a text that is wrong before the place reached. */
  lemma ClosedApplies(diffs: seq<Diff>, b: int, j: int, kept: seq<Diff>)
    requires 0 <= b <= j <= |diffs| && kept != [] && LeftOut(kept, diffs[b..j])
    ensures var p, t := PatchOf(kept, |Text2(diffs[..b])|), At(diffs, b);
            if Amounts(diffs, b, j, kept) then AppliesAt(p, t) && ApplyOne(p, t) == At(diffs, j)
            else AppliesAt(p, t) ==> Differ(ApplyOne(p, t), At(diffs, j), |Text2(diffs[..j])|)
  {
    hide Text1, Text2, LeftOut;
    var u, from, t1, t2 := Text2(diffs[..b]), Text1(diffs[b..]), Text1(kept), Text2(kept);
    var p, t := PatchOf(kept, |u|), At(diffs, b);
    SplitAt(diffs, b, j);
    Claims(u, from, t1);
    if t1 <= from {
      var mid, rest := Text2(diffs[b..j]), Text1(diffs[j..]);
      LengthsOf(diffs, b, j, kept);
      assert ApplyOne(p, t) == u + t2 + from[|t1|..];
      Assoc(u, t2, from[|t1|..]);
      Assoc(u, mid, rest);
      Wrong(u, t2 + from[|t1|..], mid, rest, Text1(diffs[b..j]), t1, t2);
    }
  }

  lemma LengthsOf(diffs: seq<Diff>, b: int, j: int, kept: seq<Diff>)
    requires 0 <= b <= j <= |diffs| && LeftOut(kept, diffs[b..j])
    ensures |Text1(kept)| <= |Text1(diffs[b..j])|
    ensures |Text2(kept)| - |Text1(kept)| == |Text2(diffs[b..j])| - |Text1(diffs[b..j])|
  {
  }

  /** A claim stands at its place exactly if the text goes on with it. */
  lemma Claims(u: Text, from: Text, claim: Text)
    ensures claim <= from <==> |u| + |claim| <= |u + from| && (u + from)[|u|..|u| + |claim|] == claim
    ensures claim <= from ==> (u + from)[..|u|] == u && (u + from)[|u| + |claim|..] == from[|claim|..]
  {
    if |claim| <= |from| {
      assert (u + from)[|u|..|u| + |claim|] == from[..|claim|];
    }
  }

  /** Two texts that end alike and are not equal differ before their common end. */
  lemma Wrong(u: Text, got: Text, mid: Text, rest: Text, source: Text, t1: Text, t2: Text)
    requires t1 <= source + rest && |t1| <= |source| && |t2| - |t1| == |mid| - |source|
    requires got == t2 + (source + rest)[|t1|..]
    ensures got == mid + rest || Differ(u + got, u + (mid + rest), |u + mid|)
  {
    var want := mid + rest;
    assert |got| == |want|;
    assert got[|mid|..] == rest by {
      assert (source + rest)[|source|..] == rest;
      var k := |source| - |t1|;
      assert (source + rest)[|t1|..][k..] == (source + rest)[|source|..];
      assert got == (t2 + (source + rest)[|t1|..][..k]) + rest;
    }
    forall q | |mid| <= q < |got| ensures got[q] == want[q] {
      assert got[q] == got[|mid|..][q - |mid|] == rest[q - |mid|] == want[q];
    }
    if got != want {
      var q :| 0 <= q < |got| && got[q] != want[q];
      assert (u + got)[|u| + q] == got[q] && (u + want)[|u| + q] == want[q];
    }
  }

  /** A patch with context that applies claims its context, and what is inside applies as well. */
  lemma InsideApplies(p: Patch, q: Patch, prefix: Text, suffix: Text, text: Text)
    requires q == WithContext(p, prefix, suffix) && AppliesAt(q, text)
    requires p.length1 == |Text1(p.diffs)| && p.length2 == |Text2(p.diffs)|
    ensures AppliesAt(p, text) && ApplyOne(q, text) == ApplyOne(p, text)
    ensures |prefix| <= p.start2 && text[p.start2 - |prefix|..p.start2] == prefix
  {
    hide Text1, Text2, AppliesAt, ApplyOne, Context;
    ContextTexts(prefix);
    ContextTexts(suffix);
    Concat3(Context(prefix), p.diffs, Context(suffix));
    var u, v := AppliesSplits(q, text);
    var t1, t2 := Text1(p.diffs), Text2(p.diffs);
    assert q.start2 == |u|;
    hide WithContext;
    Regrouped(u, prefix, t1, suffix, v);
    Regrouped(u, prefix, t2, suffix, v);
    AppliesInside(p, u + prefix, suffix + v);
  }

  lemma Regrouped(u: Text, prefix: Text, t: Text, suffix: Text, v: Text)
    ensures u + (prefix + t + suffix) + v == (u + prefix) + t + (suffix + v)
    ensures ((u + prefix) + t + (suffix + v))[|u|..|u| + |prefix|] == prefix
  {
  }

  lemma {:induction false} AppliesUnique(patches: seq<Patch>, from: Text, x: Text, y: Text)
    requires Applies(patches, from, x) && Applies(patches, from, y)
    ensures x == y
    decreases |patches|
  {
    if patches != [] {
      AppliesUnique(patches[1..], ApplyOne(patches[0], from), x, y);
    }
  }

  lemma {:induction false} AppliesSnoc(patches: seq<Patch>, p: Patch, from: Text, z: Text) returns (y: Text)
    requires Applies(patches + [p], from, z)
    ensures Applies(patches, from, y) && AppliesAt(p, y) && ApplyOne(p, y) == z
    decreases |patches|
  {
    if patches == [] {
      assert patches + [p] == [p];
      y := from;
    } else {
      assert (patches + [p])[1..] == patches[1..] + [p];
      y := AppliesSnoc(patches[1..], p, ApplyOne(patches[0], from), z);
    }
  }

  /** A text that is wrong before the patch stays wrong there, and the patch cannot have claimed that place. */
  lemma StaysWrong(y: Text, w: Text, goal: Text, p: Patch, q: Patch, prefix: Text, suffix: Text, n': int)
    requires q == WithContext(p, prefix, suffix) && AppliesAt(q, y)
    requires p.length1 == |Text1(p.diffs)| && p.length2 == |Text2(p.diffs)|
    requires Differ(y, w, p.start2) && |prefix| <= p.start2 <= |w| && prefix == w[p.start2 - |prefix|..p.start2]
    requires p.start2 <= n' <= |goal| && goal[..p.start2] == w[..p.start2] && |goal| == |w| + p.length2 - p.length1
    ensures Differ(ApplyOne(q, y), goal, n')
  {
    hide Text1, Text2, WithContext;
    InsideApplies(p, q, prefix, suffix, y);
    var x :| 0 <= x < p.start2 && x < |y| && y[x] != w[x];
    var z := ApplyOne(p, y);
    assert z[x] == y[..p.start2][x] == y[x];
    assert goal[x] == goal[..p.start2][x] == w[..p.start2][x] == w[x];
  }

  /** Closing the patch at record j with context from the text before it. */
  lemma LeadingClosed(patches: seq<Patch>, text1: Text, exact: bool, diffs: seq<Diff>, b: int, j: int, kept: seq<Diff>,
                      q: Patch, prefix: Text, suffix: Text)
    requires 0 <= b <= j <= |diffs| && kept != [] && LeftOut(kept, diffs[b..j]) && Leading(patches, text1, exact, diffs, b)
    requires var p, t := PatchOf(kept, |Text2(diffs[..b])|), At(diffs, b);
             && q == WithContext(p, prefix, suffix)
             && |prefix| <= p.start2 <= |t| && prefix == t[p.start2 - |prefix|..p.start2]
             && (AppliesAt(p, t) ==> AppliesAt(q, t) && ApplyOne(q, t) == ApplyOne(p, t))
    ensures Leading(patches + [q], text1, exact && Amounts(diffs, b, j, kept), diffs, j)
  {
    hide Text1, Text2, Applies, AppliesAt, ApplyOne, Amounts, LeftOut, Differ, WithContext;
    var p, t, goal := PatchOf(kept, |Text2(diffs[..b])|), At(diffs, b), At(diffs, j);
    ClosedApplies(diffs, b, j, kept);
    if exact && Amounts(diffs, b, j, kept) {
      AppliesAppend(patches, text1, t, q);
    } else {
      forall z | Applies(patches + [q], text1, z) ensures Differ(z, goal, |Text2(diffs[..j])|) {
        var y := AppliesSnoc(patches, q, text1, z);
        if exact {
          AppliesUnique(patches, text1, y, t);
          InsideApplies(p, q, prefix, suffix, t);
        } else {
          GoalShape(diffs, b, j, kept);
          StaysWrong(y, t, goal, p, q, prefix, suffix, |Text2(diffs[..j])|);
        }
      }
    }
  }

  lemma GoalShape(diffs: seq<Diff>, b: int, j: int, kept: seq<Diff>)
    requires 0 <= b <= j <= |diffs| && LeftOut(kept, diffs[b..j])
    ensures var n, t, goal := |Text2(diffs[..b])|, At(diffs, b), At(diffs, j);
            && n <= |t| && n <= |Text2(diffs[..j])| <= |goal| && goal[..n] == t[..n]
            && |goal| == |t| + |Text2(kept)| - |Text1(kept)|
  {
    hide Text1, Text2, LeftOut;
    SplitAt(diffs, b, j);
    LengthsOf(diffs, b, j, kept);
    var u := Text2(diffs[..b]);
    assert At(diffs, b)[..|u|] == u;
    assert (u + Text2(diffs[b..j]) + Text1(diffs[j..]))[..|u|] == u;
  }

  /** The walk closes the open patch at record i. */
  lemma StepClose(text1: Text, diffs: seq<Diff>, i: int, patches: seq<Patch>, patch: Patch, prepatch: Text, postpatch: Text,
                  s: Settings, patch': Patch, p: Patch, prefix: Text, suffix: Text)
    requires MakeInv(text1, diffs, i, patches, patch, prepatch, postpatch, s) && i < |diffs|
    requires Closes(diffs[i], s.margin) && patch.diffs != []
    requires patch' == PatchOf(KeptWith(diffs, i, s.margin), patch.start2) && p == WithContext(patch', prefix, suffix)
    requires |prefix| <= patch'.start2 <= |prepatch| && prefix == prepatch[patch'.start2 - |prefix|..patch'.start2]
    requires AppliesAt(patch', prepatch) ==> AppliesAt(p, prepatch) && ApplyOne(p, prepatch) == ApplyOne(patch', prepatch)
    requires StartOk(p, s.margin) && EndOk(p, prepatch, s.margin)
    ensures MakeInv(text1, diffs, i + 1, patches + [p], EMPTY_PATCH, postpatch, postpatch, s)
  {
    hide Text1, Text2, Leading, AppliesAt, ApplyOne, Amounts, LeftOut, StartOk, EndOk, Kept, KeptWith, At, ExactBefore, PatchOf, Begin;
    var m := s.margin;
    var b, kept := Begin(diffs, i, m), KeptWith(diffs, i, m);
    KeptIsWell(diffs, i, m);
    ClosingFacts(diffs, i, patch, m);
    LeadingClosed(patches, text1, ExactBefore(diffs, i, m), diffs, b, i + 1, kept, p, prefix, suffix);
  }

  lemma ClosingFacts(diffs: seq<Diff>, i: int, patch: Patch, m: int)
    requires 0 <= i < |diffs| && Closes(diffs[i], m) && patch.diffs != []
    requires patch == PatchOf(Kept(diffs, i, m), |Text2(diffs[..Begin(diffs, i, m)])|)
    ensures At(diffs, i + 1) == At(diffs, i) && KeptWith(diffs, i, m) != [] && patch.start2 == |Text2(diffs[..Begin(diffs, i, m)])|
    ensures PatchOf(KeptWith(diffs, i, m), patch.start2).start2 == patch.start2
    ensures PatchOf(KeptWith(diffs, i, m), patch.start2).start1 == patch.start2
    ensures Kept(diffs, i + 1, m) == [] && Begin(diffs, i + 1, m) == i + 1 && forall n :: PatchOf([], n) == EMPTY_PATCH
    ensures ExactBefore(diffs, i + 1, m)
         == (ExactBefore(diffs, i, m) && Amounts(diffs, Begin(diffs, i, m), i + 1, KeptWith(diffs, i, m)))
  {
    hide Text1, Text2, Amounts, At;
    Advance(diffs, i);
  }

  /** The last patch, closed at the end of the list. */
  lemma StepLast(text1: Text, diffs: seq<Diff>, patches: seq<Patch>, patch: Patch, prepatch: Text, postpatch: Text,
                 s: Settings, p: Patch, prefix: Text, suffix: Text)
    requires MakeInv(text1, diffs, |diffs|, patches, patch, prepatch, postpatch, s) && patch.diffs != []
    requires p == WithContext(patch, prefix, suffix)
    requires |prefix| <= patch.start2 <= |prepatch| && prefix == prepatch[patch.start2 - |prefix|..patch.start2]
    requires AppliesAt(patch, prepatch) ==> AppliesAt(p, prepatch) && ApplyOne(p, prepatch) == ApplyOne(patch, prepatch)
    requires StartOk(p, s.margin) && EndOk(p, prepatch, s.margin)
    ensures Promised(text1, diffs, patches + [p], s)
  {
    hide Text1, Text2, Leading, Applies, AppliesAt, ApplyOne, Amounts, LeftOut, StartOk, EndOk, ExactBefore;
    var m, n := s.margin, |diffs|;
    var b := Begin(diffs, n, m);
    KeptIsWell(diffs, n, m);
    assert Kept(diffs, n, m) == patch.diffs && patch.start2 == |Text2(diffs[..b])|;
    LeadingClosed(patches, text1, ExactBefore(diffs, n, m), diffs, b, n, patch.diffs, p, prefix, suffix);
    AtEnd(patches + [p], text1, Exact(diffs, m), diffs);
  }

  lemma AtEnd(patches: seq<Patch>, text1: Text, exact: bool, diffs: seq<Diff>)
    requires Leading(patches, text1, exact, diffs, |diffs|)
    ensures Applies(patches, text1, Text2(diffs)) <==> exact
  {
    hide Text2, Applies;
    assert diffs[..|diffs|] == diffs && diffs[|diffs|..] == [];
    assert At(diffs, |diffs|) == Text2(diffs) by { Nothing(); assert Text2(diffs) + [] == Text2(diffs); }
    NeverDiffers(Text2(diffs), |Text2(diffs[..|diffs|])|);
  }

  lemma NeverDiffers(x: Text, n: int)
    ensures !Differ(x, x, n)
  {
  }

  lemma MadeWithoutLast(text1: Text, diffs: seq<Diff>, patches: seq<Patch>, patch: Patch, prepatch: Text,
                        postpatch: Text, s: Settings)
    requires MakeInv(text1, diffs, |diffs|, patches, patch, prepatch, postpatch, s) && patch.diffs == []
    ensures Promised(text1, diffs, patches, s)
  {
    hide Text1, Text2, Leading, Applies, FirstOk, ExactBefore;
    AtEnd(patches, text1, Exact(diffs, s.margin), diffs);
  }

  lemma MakeStart(text1: Text, diffs: seq<Diff>, s: Settings)
    requires text1 == Text1(diffs)
    ensures MakeInv(text1, diffs, 0, [], EMPTY_PATCH, text1, text1, s) && |Text2(diffs[..0])| == 0
    ensures 0 <= s.margin ==> Listed(diffs, 0, s, [])
  {
    assert diffs[..0] == [] && diffs[0..] == diffs && [] + text1 == text1;
  }

  lemma MakeFacts(text1: Text, diffs: seq<Diff>, i: int, patches: seq<Patch>, patch: Patch, prepatch: Text,
                  postpatch: Text, s: Settings)
    requires MakeInv(text1, diffs, i, patches, patch, prepatch, postpatch, s)
    ensures patch.diffs == Kept(diffs, i, s.margin) && patch.start1 == patch.start2
    ensures prepatch == At(diffs, Begin(diffs, i, s.margin))
    ensures patch.diffs != [] ==> patch.start2 == |Text2(diffs[..Begin(diffs, i, s.margin)])|
    ensures postpatch == At(diffs, i) && (patch.diffs == [] ==> patch == EMPTY_PATCH && prepatch == postpatch)
    ensures patch == PatchOf(Kept(diffs, i, s.margin), |Text2(diffs[..Begin(diffs, i, s.margin)])|)
    ensures patch.diffs != [] ==> Roomy(patch, prepatch)
    ensures i < |diffs| && patch.diffs != [] ==> Roomy(PatchOf(KeptWith(diffs, i, s.margin), patch.start2), prepatch)
  {
    hide Text1, Text2, Leading, FirstOk, ExactBefore, LeftOut;
    var m := s.margin;
    var b := Begin(diffs, i, m);
    KeptIsWell(diffs, i, m);
    if patch.diffs != [] {
      Room(diffs, b, i, patch.diffs);
      if i < |diffs| {
        Room(diffs, b, i + 1, KeptWith(diffs, i, m));
      }
    }
  }

  lemma Room(diffs: seq<Diff>, b: int, j: int, kept: seq<Diff>)
    requires 0 <= b <= j <= |diffs| && LeftOut(kept, diffs[b..j])
    ensures kept != [] ==> Roomy(PatchOf(kept, |Text2(diffs[..b])|), At(diffs, b))
  {
    hide Text1, Text2;
    SplitAt(diffs, b, j);
  }

  // ----- patch_make -----

  /** patch_make from the source text and an edit list: the patches apply one after the other, each at its
      place, and lead to the destination text, if and only if the records kept amount to all records. */
  method PatchMake(text1: Text, diffs: seq<Diff>, s: Settings) returns (patches: seq<Patch>)
    requires Usable(s) && text1 == Text1(diffs)
    ensures Made(text1, diffs, patches, s)
  {
    hide Text1, Text2, MakeInv, Made, AppliesAt, ApplyOne, At, Kept, KeptWith, Begin, PatchOf, StartOk, EndOk, WithContext,
         Contexted, Listed, AllListed, Promised;
    patches := [];
    var patch := EMPTY_PATCH;
    var charCount1, charCount2 := 0, 0;
    var prepatch, postpatch := text1, text1;
    MakeStart(text1, diffs, s);
    for i := 0 to |diffs|
      invariant MakeInv(text1, diffs, i, patches, patch, prepatch, postpatch, s) && Listed(diffs, i, s, patches)
      invariant charCount2 == |Text2(diffs[..i])| && (patch.diffs == [] ==> charCount1 == charCount2)
    {
      var d := diffs[i];
      MakeFacts(text1, diffs, i, patches, patch, prepatch, postpatch, s);
      ghost var before, beforePost := patch, postpatch;
      ghost var n := if patch.diffs == [] then charCount2 else patch.start2;
      Position(diffs, i);
      patch, postpatch := AddRecord(diffs, i, patch, postpatch, charCount1, charCount2, s);
      if d.op == Equal && |d.text| >= 2 * s.margin && patch.diffs != [] {
        // Long enough to end the patch.
        var p; ghost var prefix, suffix;
        p, prefix, suffix := AddContext(patch, prepatch, s);
        StepClose(text1, diffs, i, patches, before, prepatch, beforePost, s, patch, p, prefix, suffix);
        ListedClose(diffs, i, s, patches, patch, prepatch, p);
        patches := patches + [p];
        patch := EMPTY_PATCH;
        // The next patch is relative to the text with this one applied.
        prepatch := postpatch;
        charCount1 := charCount2;
      } else {
        StepOn(text1, diffs, i, patches, before, prepatch, beforePost, s, patch, postpatch, n);
        ListedOn(diffs, i, s, patches);
      }
      // Characters passed in both texts.
      if d.op != Insert {
        charCount1 := charCount1 + |d.text|;
      }
      if d.op != Delete {
        charCount2 := charCount2 + |d.text|;
      }
    }
    patches := CloseLast(text1, diffs, patches, patch, prepatch, postpatch, s);
  }

  /** One record: it joins the patch, opening one if need be, unless it is an equality that no patch takes up. */
  method AddRecord(diffs: seq<Diff>, i: int, patch0: Patch, postpatch0: Text, charCount1: int, charCount2: int, s: Settings)
      returns (patch: Patch, postpatch: Text)
    requires Usable(s) && 0 <= i < |diffs| && postpatch0 == At(diffs, i) && charCount2 == |Text2(diffs[..i])|
    requires patch0 == PatchOf(Kept(diffs, i, s.margin), |Text2(diffs[..Begin(diffs, i, s.margin)])|)
    requires patch0.start1 == patch0.start2 && (patch0.diffs == [] ==> charCount1 == charCount2 && patch0 == EMPTY_PATCH)
    ensures diffs[i].op == Equal ==> postpatch == postpatch0
    ensures if patch0.diffs == [] && diffs[i].op == Equal then patch == EMPTY_PATCH else patch.diffs != []
    ensures postpatch == At(diffs, i + 1)
    ensures patch == PatchOf(KeptWith(diffs, i, s.margin), if patch0.diffs == [] then charCount2 else patch0.start2)
  {
    hide Text1, Text2, At, Kept, KeptWith, Begin, PatchOf;
    patch, postpatch := patch0, postpatch0;
    var d := diffs[i];
    PatchWith(diffs, i, patch, s.margin);
    Position(diffs, i);
    if patch.diffs == [] && d.op != Equal {
      // No patch was open.
      patch := patch.(start1 := charCount1, start2 := charCount2);
    }
    match d.op {
      case Insert =>
        patch := patch.(diffs := patch.diffs + [d], length2 := patch.length2 + |d.text|);
        postpatch := postpatch[..charCount2] + d.text + postpatch[charCount2..];
      case Delete =>
        patch := patch.(diffs := patch.diffs + [d], length1 := patch.length1 + |d.text|);
        postpatch := postpatch[..charCount2] + postpatch[charCount2 + |d.text|..];
      case Equal =>
        if |d.text| <= 2 * s.margin && patch.diffs != [] && d != diffs[|diffs| - 1] {
          // Too short to end the patch.
          patch := patch.(diffs := patch.diffs + [d], length1 := patch.length1 + |d.text|,
                          length2 := patch.length2 + |d.text|);
        }
    }
    PostpatchAfter(diffs, i, postpatch0, postpatch);
  }

  /** The patch still open at the end. */
  method CloseLast(text1: Text, diffs: seq<Diff>, patches0: seq<Patch>, patch: Patch, prepatch: Text, ghost postpatch: Text, s: Settings)
      returns (patches: seq<Patch>)
    requires Usable(s) && MakeInv(text1, diffs, |diffs|, patches0, patch, prepatch, postpatch, s) && Listed(diffs, |diffs|, s, patches0)
    ensures Made(text1, diffs, patches, s)
  {
    hide Text1, Text2, MakeInv, Made, AppliesAt, ApplyOne, At, Kept, Begin, PatchOf, StartOk, EndOk, WithContext,
         Contexted, Listed, AllListed, Promised;
    patches := patches0;
    MakeFacts(text1, diffs, |diffs|, patches, patch, prepatch, postpatch, s);
    if patch.diffs != [] {
      var p; ghost var prefix, suffix;
      p, prefix, suffix := AddContext(patch, prepatch, s);
      StepLast(text1, diffs, patches, patch, prepatch, postpatch, s, p, prefix, suffix);
      ListedLast(diffs, s, patches, patch, prepatch, p);
      patches := patches + [p];
    } else {
      MadeWithoutLast(text1, diffs, patches, patch, prepatch, postpatch, s);
      ListedEnd(diffs, s, patches);
    }
    MadeIs(text1, diffs, patches, s);
  }

  lemma ListedEnd(diffs: seq<Diff>, s: Settings, patches: seq<Patch>)
    requires 0 <= s.margin && Listed(diffs, |diffs|, s, patches) && Kept(diffs, |diffs|, s.margin) == []
    ensures AllListed(diffs, s, patches)
  {
  }

  lemma MadeIs(text1: Text, diffs: seq<Diff>, patches: seq<Patch>, s: Settings)
    requires Promised(text1, diffs, patches, s) && AllListed(diffs, s, patches)
    ensures Made(text1, diffs, patches, s)
  {
  }
}
