/** patch_addPadding: null padding on both sides of the text, and of the first patch. */
module PatchPadding {
  import opened Helpers
  import opened DiffList
  import opened Patches

  ghost function Shift(p: Patch, m: int): Patch {
    p.(start1 := p.start1 + m, start2 := p.start2 + m)
  }

  ghost function ShiftAll(patches: seq<Patch>, m: int): (r: seq<Patch>)
    ensures |r| == |patches| && forall i :: 0 <= i < |patches| ==> r[i] == Shift(patches[i], m)
  {
    seq(|patches|, i requires 0 <= i < |patches| => Shift(patches[i], m))
  }

  lemma ShiftOne(p: Patch, text: Text, pad: Text)
    requires AppliesAt(p, text)
    ensures AppliesAt(Shift(p, |pad|), pad + text + pad)
    ensures ApplyOne(Shift(p, |pad|), pad + text + pad) == pad + ApplyOne(p, text) + pad
  {
    hide Text1, Text2, AppliesAt, ApplyOne;
    PatchLengths(p, text);
    var u, v := AppliesSplits(p, text);
    AppliesInside(Shift(p, |pad|), pad + u, v + pad);
    Regroup(pad, u, Text1(p.diffs), v, pad);
    Regroup(pad, u, Text2(p.diffs), v, pad);
  }

  lemma {:induction false} ShiftedApply(patches: seq<Patch>, a: Text, b: Text, pad: Text)
    requires Applies(patches, a, b)
    ensures Applies(ShiftAll(patches, |pad|), pad + a + pad, pad + b + pad)
  {
    if patches != [] {
      ShiftOne(patches[0], a, pad);
      ShiftedApply(patches[1..], ApplyOne(patches[0], a), b, pad);
      assert ShiftAll(patches, |pad|)[1..] == ShiftAll(patches[1..], |pad|);
    }
  }

  /** The code units 1 to m. */
  function NullPadding(m: int): Text
    requires m < 0x1_0000
  {
    seq(if m < 0 then 0 else m, i requires 0 <= i < m => i + 1)
  }

  /** The missing part of the padding, at the end of it, goes in front of the first equality, or all of it makes a
      new one; afterwards the patch begins with an equality as long as the padding. */
  ghost predicate FrontPadded(p: Patch, q: Patch, pad: Text) {
    var first := if p.diffs != [] && p.diffs[0].op == Equal then p.diffs[0].text else [];
    var pre := pad[Min(|first|, |pad|)..];
    && q.diffs == [Diff(Equal, pre + first)] + (if p.diffs != [] && p.diffs[0].op == Equal then p.diffs[1..] else p.diffs)
    && q.start1 == p.start1 - |pre| && q.start2 == p.start2 - |pre|
    && q.length1 == p.length1 + |pre| && q.length2 == p.length2 + |pre|
  }

  /** The same behind the last equality, with the beginning of the padding. */
  ghost predicate BackPadded(p: Patch, q: Patch, pad: Text) {
    var n := |p.diffs| - 1;
    var last := if n >= 0 && p.diffs[n].op == Equal then p.diffs[n].text else [];
    var suf := pad[..Max(0, |pad| - |last|)];
    && q.diffs == (if n >= 0 && p.diffs[n].op == Equal then p.diffs[..n] else p.diffs) + [Diff(Equal, last + suf)]
    && q.start1 == p.start1 && q.start2 == p.start2
    && q.length1 == p.length1 + |suf| && q.length2 == p.length2 + |suf|
  }

  /** What patch_addPadding makes of a list of patches: all are moved, and the first one is padded on both sides. */
  ghost predicate PaddedAll(patches: seq<Patch>, padded: seq<Patch>, m: int) {
    && 0 <= m < 0x1_0000 && |padded| == |patches| != 0 && padded[1..] == ShiftAll(patches, m)[1..]
    && exists front :: FrontPadded(Shift(patches[0], m), front, NullPadding(m)) && BackPadded(front, padded[0], NullPadding(m))
  }

  lemma FrontNew(p: Patch, pad: Text, q: Patch)
    requires p.diffs == [] || p.diffs[0].op != Equal
    requires q == Patch([Diff(Equal, pad)] + p.diffs, p.start1 - |pad|, p.start2 - |pad|, p.length1 + |pad|, p.length2 + |pad|)
    ensures FrontPadded(p, q, pad) && Extended(p, q, pad, [])
  {
    hide Text1, Text2;
    assert pad[0..] == pad && pad + [] == pad;
    Concat([Diff(Equal, pad)], p.diffs);
    Single(Diff(Equal, pad));
    Trailing(pad, Text1(p.diffs));
    Trailing(pad, Text2(p.diffs));
  }

  lemma FrontGrown(p: Patch, pad: Text, pre: Text, q: Patch)
    requires p.diffs != [] && p.diffs[0].op == Equal && |p.diffs[0].text| <= |pad| && pre == pad[|p.diffs[0].text|..]
    requires q == Patch(p.diffs[0 := Diff(Equal, pre + p.diffs[0].text)], p.start1 - |pre|, p.start2 - |pre|,
                        p.length1 + |pre|, p.length2 + |pre|)
    ensures FrontPadded(p, q, pad) && Extended(p, q, pre, [])
  {
    hide Text1, Text2;
    GrowFirst(p.diffs, pre);
    Trailing(pre, Text1(p.diffs));
    Trailing(pre, Text2(p.diffs));
    assert q.diffs == [Diff(Equal, pre + p.diffs[0].text)] + p.diffs[1..];
  }

  lemma FrontKept(p: Patch, pad: Text)
    requires p.diffs != [] && p.diffs[0].op == Equal && |pad| <= |p.diffs[0].text|
    ensures FrontPadded(p, p, pad) && Extended(p, p, [], [])
  {
    hide Text1, Text2;
    Trailing([], Text1(p.diffs));
    Trailing([], Text2(p.diffs));
    assert pad[|pad|..] + p.diffs[0].text == p.diffs[0].text && p.diffs == [p.diffs[0]] + p.diffs[1..];
  }

  /** Growing the first record, or adding one in front. */
  method PadFront(p: Patch, pad: Text) returns (q: Patch, ghost pre: Text)
    ensures FrontPadded(p, q, pad)
    ensures Extended(p, q, pre, []) && |pre| <= |pad| && pre == pad[|pad| - |pre|..]
    ensures pre == [] || p.diffs == [] || p.diffs[0].op != Equal || |p.diffs[0].text| < |pad|
    ensures q.diffs != [] && q.diffs[|q.diffs| - 1].op == (if p.diffs == [] then Equal else p.diffs[|p.diffs| - 1].op)
    ensures p.diffs != [] ==> |q.diffs[|q.diffs| - 1].text| >= |p.diffs[|p.diffs| - 1].text|
    ensures p.diffs == [] ==> |q.diffs[|q.diffs| - 1].text| == |pad|
  {
    hide Extended, FrontPadded;
    q, pre := p, [];
    if p.diffs == [] || p.diffs[0].op != Equal {
      // The padding becomes an equality of its own.
      pre := pad;
      q := Patch([Diff(Equal, pad)] + p.diffs, p.start1 - |pad|, p.start2 - |pad|, p.length1 + |pad|, p.length2 + |pad|);
      FrontNew(p, pad, q);
    } else if |pad| > |p.diffs[0].text| {
      // The first equality takes up what is missing of the padding.
      var first := p.diffs[0];
      var extra := |pad| - |first.text|;
      pre := pad[|first.text|..];
      q := Patch(p.diffs[0 := Diff(first.op, pad[|first.text|..] + first.text)],
                 p.start1 - extra, p.start2 - extra, p.length1 + extra, p.length2 + extra);
      FrontGrown(p, pad, pre, q);
    } else {
      FrontKept(p, pad);
    }
  }

  lemma Trailing(a: Text, b: Text)
    ensures a + b + [] == a + b && [] + b == b
  {
  }

  lemma GrowFirst(diffs: seq<Diff>, t: Text)
    requires diffs != [] && diffs[0].op == Equal
    ensures var r := diffs[0 := Diff(diffs[0].op, t + diffs[0].text)];
            Text1(r) == t + Text1(diffs) && Text2(r) == t + Text2(diffs)
  {
    var r := diffs[0 := Diff(diffs[0].op, t + diffs[0].text)];
    assert r[1..] == diffs[1..];
    Assoc(t, diffs[0].text, Text1(diffs[1..]));
    Assoc(t, diffs[0].text, Text2(diffs[1..]));
  }

  lemma BackNew(p: Patch, pad: Text, q: Patch)
    requires p.diffs == [] || p.diffs[|p.diffs| - 1].op != Equal
    requires q == Patch(p.diffs + [Diff(Equal, pad)], p.start1, p.start2, p.length1 + |pad|, p.length2 + |pad|)
    ensures BackPadded(p, q, pad) && Extended(p, q, [], pad)
  {
    hide Text1, Text2;
    assert pad[..|pad|] == pad && [] + pad == pad;
    Concat(p.diffs, [Diff(Equal, pad)]);
    Single(Diff(Equal, pad));
    Leading(Text1(p.diffs), pad);
    Leading(Text2(p.diffs), pad);
  }

  lemma BackGrown(p: Patch, pad: Text, suf: Text, q: Patch)
    requires p.diffs != [] && p.diffs[|p.diffs| - 1].op == Equal
    requires suf == pad[..Max(0, |pad| - |p.diffs[|p.diffs| - 1].text|)]
    requires var n := |p.diffs| - 1;
             q == Patch(p.diffs[n := Diff(Equal, p.diffs[n].text + suf)], p.start1, p.start2, p.length1 + |suf|, p.length2 + |suf|)
    ensures BackPadded(p, q, pad) && Extended(p, q, [], suf)
  {
    hide Text1, Text2;
    var n := |p.diffs| - 1;
    GrowLast(p.diffs, suf);
    Leading(Text1(p.diffs), suf);
    Leading(Text2(p.diffs), suf);
    assert q.diffs == p.diffs[..n] + [Diff(Equal, p.diffs[n].text + suf)];
  }

  lemma BackKept(p: Patch, pad: Text)
    requires p.diffs != [] && p.diffs[|p.diffs| - 1].op == Equal && |pad| <= |p.diffs[|p.diffs| - 1].text|
    ensures BackPadded(p, p, pad) && Extended(p, p, [], [])
  {
    var n := |p.diffs| - 1;
    assert pad[..0] == [] && p.diffs[n].text + [] == p.diffs[n].text;
    assert p.diffs[n := Diff(Equal, p.diffs[n].text)] == p.diffs;
    BackGrown(p, pad, [], p);
  }

  lemma Leading(a: Text, b: Text)
    ensures [] + a + b == a + b
  {
  }

  /** Growing the last record, or adding one behind. */
  method PadBack(p: Patch, pad: Text) returns (q: Patch, ghost suf: Text)
    ensures BackPadded(p, q, pad)
    ensures Extended(p, q, [], suf) && |suf| <= |pad| && suf == pad[..|suf|]
    ensures suf == [] || p.diffs == [] || p.diffs[|p.diffs| - 1].op != Equal || |p.diffs[|p.diffs| - 1].text| < |pad|
  {
    hide Extended, BackPadded;
    q, suf := p, [];
    if p.diffs == [] || p.diffs[|p.diffs| - 1].op != Equal {
      // The padding becomes an equality of its own.
      suf := pad;
      q := Patch(p.diffs + [Diff(Equal, pad)], p.start1, p.start2, p.length1 + |pad|, p.length2 + |pad|);
      BackNew(p, pad, q);
    } else if |pad| > |p.diffs[|p.diffs| - 1].text| {
      // The last equality takes up what is missing of the padding.
      var last := p.diffs[|p.diffs| - 1];
      var extra := |pad| - |last.text|;
      suf := pad[..extra];
      q := Patch(p.diffs[|p.diffs| - 1 := Diff(last.op, last.text + pad[..extra])],
                 p.start1, p.start2, p.length1 + extra, p.length2 + extra);
      BackGrown(p, pad, suf, q);
    } else {
      BackKept(p, pad);
    }
  }

  lemma GrowLast(diffs: seq<Diff>, t: Text)
    requires diffs != [] && diffs[|diffs| - 1].op == Equal
    ensures var r := diffs[|diffs| - 1 := Diff(diffs[|diffs| - 1].op, diffs[|diffs| - 1].text + t)];
            Text1(r) == Text1(diffs) + t && Text2(r) == Text2(diffs) + t
  {
    hide Text1, Text2;
    var head, last := diffs[..|diffs| - 1], diffs[|diffs| - 1];
    var grown := Diff(last.op, last.text + t);
    assert diffs == head + [last] && diffs[|diffs| - 1 := grown] == head + [grown];
    Concat(head, [last]);
    Concat(head, [grown]);
    Single(last);
    Single(grown);
    Assoc(Text1(head), last.text, t);
    Assoc(Text2(head), last.text, t);
  }

  /** patch_addPadding.  Front and back padding both go to the first patch, as in the source; this
      is enough, because a later patch whose context is cut short already ends with the text. */
  method AddPadding(patches0: seq<Patch>, s: Settings, ghost a: Text, ghost b: Text)
      returns (patches: seq<Patch>, nullPadding: Text)
    requires Usable(s) && patches0 != []
    requires Applies(patches0, a, b) && FirstOk(patches0, a, s.margin)
    ensures nullPadding == NullPadding(s.margin) && PaddedAll(patches0, patches, s.margin)
    ensures Applies(patches, nullPadding + a + nullPadding, nullPadding + b + nullPadding)
  {
    hide Text1, Text2, Applies, AppliesAt, ApplyOne, FrontPadded, BackPadded;
    nullPadding := [];
    for x := 1 to s.margin + 1
      invariant nullPadding == NullPadding(x - 1)
    {
      nullPadding := nullPadding + [x];
    }
    // Every patch moves on by the padding in front.
    patches := patches0;
    for i := 0 to |patches|
      invariant |patches| == |patches0|
      invariant forall j :: 0 <= j < i ==> patches[j] == Shift(patches0[j], s.margin)
      invariant forall j :: i <= j < |patches| ==> patches[j] == patches0[j]
    {
      patches := patches[i := patches[i].(start1 := patches[i].start1 + s.margin, start2 := patches[i].start2 + s.margin)];
    }
    assert patches == ShiftAll(patches0, s.margin);
    ShiftedApply(patches0, a, b, nullPadding);
    ghost var text := nullPadding + a + nullPadding;
    ghost var shifted := patches;
    // Both ends of the first patch get padding.
    var first, pre := PadFront(patches[0], nullPadding);
    var second, suf := PadBack(first, nullPadding);
    PaddedFirst(patches0[0], a, nullPadding, first, pre, second, suf);
    patches := patches[0 := second];
    assert FrontPadded(Shift(patches0[0], s.margin), first, nullPadding) && BackPadded(first, patches[0], nullPadding);
    FirstReplaced(shifted, patches, text, nullPadding + b + nullPadding);
  }

  lemma FirstReplaced(x: seq<Patch>, y: seq<Patch>, a: Text, b: Text)
    requires Applies(x, a, b) && |x| == |y| != 0 && x[1..] == y[1..]
    requires AppliesAt(x[0], a) ==> AppliesAt(y[0], a) && ApplyOne(y[0], a) == ApplyOne(x[0], a)
    ensures Applies(y, a, b)
  {
  }

  lemma PaddedFirst(p: Patch, a: Text, pad: Text, q: Patch, pre: Text, r: Patch, suf: Text)
    requires StartOk(p, |pad|) && EndOk(p, a, |pad|)
    requires var s := Shift(p, |pad|);
             && Extended(s, q, pre, []) && |pre| <= |pad| && pre == pad[|pad| - |pre|..]
             && (pre == [] || s.diffs == [] || s.diffs[0].op != Equal || |s.diffs[0].text| < |pad|)
    requires Extended(q, r, [], suf) && |suf| <= |pad| && suf == pad[..|suf|]
    requires suf == [] || p.start2 + p.length1 == |a|
    ensures var t := pad + a + pad;
            AppliesAt(Shift(p, |pad|), t) ==> AppliesAt(r, t) && ApplyOne(r, t) == ApplyOne(Shift(p, |pad|), t)
  {
    hide Text1, Text2, AppliesAt, ApplyOne;
    var s, t := Shift(p, |pad|), pad + a + pad;
    if AppliesAt(s, t) {
      PatchLengths(s, t);
      assert pre == t[s.start2 - |pre|..s.start2];
      var e := s.start2 + s.length1;
      assert [] == t[e..e];
      ExtendApplies(s, q, t, pre, []);
      PatchLengths(q, t);
      assert suf == t[e..e + |suf|];
      assert [] == t[q.start2..q.start2];
      ExtendApplies(q, r, t, [], suf);
    }
  }
}
