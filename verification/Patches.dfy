/** Patches and what it means that they apply exactly. */
module Patches {
  import opened DiffList

  datatype Patch = Patch(diffs: seq<Diff>, start1: int, start2: int, length1: int, length2: int)

  const EMPTY_PATCH := Patch([], 0, 0, 0, 0)

  /** Patch_Margin and Match_MaxBits. */
  datatype Settings = Settings(margin: int, maxBits: int)

  /** The context must grow at every step, and two margins must leave room in a split patch. */
  ghost predicate Usable(s: Settings) {
    1 <= s.margin < 0x8000 && 2 * s.margin < s.maxBits
  }

  /** The patch says truly what stands at its place in the text. */
  ghost predicate AppliesAt(p: Patch, text: Text) {
    && 0 <= p.start2 && p.start2 + |Text1(p.diffs)| <= |text|
    && text[p.start2..p.start2 + |Text1(p.diffs)|] == Text1(p.diffs)
    && p.length1 == |Text1(p.diffs)| && p.length2 == |Text2(p.diffs)|
  }

  ghost function ApplyOne(p: Patch, text: Text): Text
    requires AppliesAt(p, text)
  {
    text[..p.start2] + Text2(p.diffs) + text[p.start2 + p.length1..]
  }

  /** Applying the patches one after the other, each at its exact place, leads from one text to the other. */
  ghost predicate Applies(patches: seq<Patch>, from: Text, to: Text) {
    if patches == [] then from == to
    else AppliesAt(patches[0], from) && Applies(patches[1..], ApplyOne(patches[0], from), to)
  }

  lemma {:induction false} AppliesAppend(patches: seq<Patch>, from: Text, mid: Text, p: Patch)
    requires Applies(patches, from, mid) && AppliesAt(p, mid)
    ensures Applies(patches + [p], from, ApplyOne(p, mid))
  {
    if patches == [] {
      assert patches + [p] == [p];
    } else {
      AppliesAppend(patches[1..], ApplyOne(patches[0], from), mid, p);
      assert (patches + [p])[1..] == patches[1..] + [p];
    }
  }

  lemma {:induction false} AppliesConcat(x: seq<Patch>, y: seq<Patch>, from: Text, mid: Text, to: Text)
    requires Applies(x, from, mid) && Applies(y, mid, to)
    ensures Applies(x + y, from, to)
  {
    if x == [] {
      assert x + y == y;
    } else {
      AppliesConcat(x[1..], y, ApplyOne(x[0], from), mid, to);
      assert (x + y)[1..] == x[1..] + y;
    }
  }

  /** A patch cut out of a text u + Text1 + v turns it into u + Text2 + v. */
  lemma AppliesInside(p: Patch, u: Text, v: Text)
    requires p.start2 == |u| && p.length1 == |Text1(p.diffs)| && p.length2 == |Text2(p.diffs)|
    ensures AppliesAt(p, u + Text1(p.diffs) + v)
    ensures ApplyOne(p, u + Text1(p.diffs) + v) == u + Text2(p.diffs) + v
  {
    hide Text1, Text2;
    var t := u + Text1(p.diffs) + v;
    assert t[|u|..|u| + |Text1(p.diffs)|] == Text1(p.diffs);
    assert t[..|u|] == u && t[|u| + |Text1(p.diffs)|..] == v;
  }

  /** The other way round: where a patch applies, the text is u + Text1 + v. */
  lemma AppliesSplits(p: Patch, text: Text) returns (u: Text, v: Text)
    requires AppliesAt(p, text)
    ensures |u| == p.start2 && text == u + Text1(p.diffs) + v
    ensures ApplyOne(p, text) == u + Text2(p.diffs) + v
    ensures u == text[..p.start2] && v == text[p.start2 + p.length1..]
  {
    hide Text1, Text2;
    u, v := text[..p.start2], text[p.start2 + p.length1..];
  }

  lemma PatchLengths(p: Patch, text: Text)
    requires AppliesAt(p, text)
    ensures p.length1 == |Text1(p.diffs)| && p.length2 == |Text2(p.diffs)|
    ensures 0 <= p.start2 && p.start2 + p.length1 <= |text|
  {
  }

  /** q is p with more unchanged text on either side. */
  ghost predicate Extended(p: Patch, q: Patch, pre: Text, suf: Text) {
    && Text1(q.diffs) == pre + Text1(p.diffs) + suf && Text2(q.diffs) == pre + Text2(p.diffs) + suf
    && q.start1 == p.start1 - |pre| && q.start2 == p.start2 - |pre|
    && q.length1 == p.length1 + |pre| + |suf| && q.length2 == p.length2 + |pre| + |suf|
  }

  /** Unchanged text that really stands around the patch changes nothing. */
  lemma ExtendApplies(p: Patch, q: Patch, text: Text, pre: Text, suf: Text)
    requires AppliesAt(p, text) && Extended(p, q, pre, suf)
    requires |pre| <= p.start2 && pre == text[p.start2 - |pre|..p.start2]
    requires var e := p.start2 + p.length1; e + |suf| <= |text| && suf == text[e..e + |suf|]
    ensures AppliesAt(q, text) && ApplyOne(q, text) == ApplyOne(p, text)
  {
    hide Text1, Text2, AppliesAt, ApplyOne;
    PatchLengths(p, text);
    var u, v := AppliesSplits(p, text);
    var u0, v0 := u[..|u| - |pre|], v[|suf|..];
    assert u == u0 + pre && v == suf + v0 by {
      assert u[|u| - |pre|..] == pre;
      assert v[..|suf|] == suf;
    }
    AppliesInside(q, u0, v0);
    Regroup(u0, pre, Text1(p.diffs), suf, v0);
    Regroup(u0, pre, Text2(p.diffs), suf, v0);
  }

  lemma Regroup(a: Text, b: Text, c: Text, d: Text, e: Text)
    ensures (a + b) + c + (d + e) == a + (b + c + d) + e
  {
  }

  /** The first record is context of full length, or the patch starts with the text. */
  ghost predicate StartOk(p: Patch, margin: int) {
    p.start2 == 0 || (p.diffs != [] && p.diffs[0].op == Equal && margin <= |p.diffs[0].text|)
  }

  /** The last record is context of full length, or the patch ends with the text. */
  ghost predicate EndOk(p: Patch, text: Text, margin: int) {
    || p.start2 + p.length1 == |text|
    || (p.diffs != [] && p.diffs[|p.diffs| - 1].op == Equal && margin <= |p.diffs[|p.diffs| - 1].text|)
  }

  /** Contexts as patch_addPadding relies on them: only the first patch is looked at. */
  ghost predicate FirstOk(patches: seq<Patch>, text: Text, margin: int) {
    patches != [] ==> StartOk(patches[0], margin) && EndOk(patches[0], text, margin)
  }
}
