/** patch_splitMax: patches longer than the match window are cut into small ones that share context. */
module PatchSplitting {
  import opened Helpers
  import opened DiffList
  import opened Patches
  import opened PatchPadding

  /** Characters and records still to be handed out. */
  ghost function Load(diffs: seq<Diff>): nat {
    if diffs == [] then 0 else 1 + |diffs[0].text| + Load(diffs[1..])
  }

  /** The small patch being filled: context, then what was taken; the rest is still in the big patch. */
  ghost predicate Taking(patch: Patch, pre: Text, taken: seq<Diff>, rest: seq<Diff>, all: seq<Diff>, from2: int) {
    && Text1(patch.diffs) == pre + Text1(taken) && Text2(patch.diffs) == pre + Text2(taken)
    && patch.length1 == |pre| + |Text1(taken)| && patch.length2 == |pre| + |Text2(taken)|
    && patch.start2 == from2 - |pre|
    && Text1(taken) + Text1(rest) == Text1(all) && Text2(taken) + Text2(rest) == Text2(all)
  }

  /** Moving the first n characters of the first record of the rest into the small patch. */
  lemma Take(patch: Patch, pre: Text, taken: seq<Diff>, rest: seq<Diff>, all: seq<Diff>, from2: int,
             n: int, d: Diff, rest': seq<Diff>, patch': Patch)
    requires Taking(patch, pre, taken, rest, all, from2) && rest != [] && 0 <= n <= |rest[0].text|
    requires d == Diff(rest[0].op, rest[0].text[..n])
    requires rest' == if n == |rest[0].text| then rest[1..] else [Diff(rest[0].op, rest[0].text[n..])] + rest[1..]
    requires patch' == Patch(patch.diffs + [d], patch.start1, patch.start2,
                             patch.length1 + |Source(d)|, patch.length2 + |Destination(d)|)
    ensures Taking(patch', pre, taken + [d], rest', all, from2)
  {
    hide Load;
    var t := rest[0].text;
    Concat(patch.diffs, [d]);
    Concat(taken, [d]);
    Single(d);
    TakeRest(rest, n, d, rest');
    hide Text1, Text2;
    Assoc(pre, Text1(taken), Source(d));
    Assoc(pre, Text2(taken), Destination(d));
    Assoc(Text1(taken), Source(d), Text1(rest'));
    Assoc(Text2(taken), Destination(d), Text2(rest'));
  }

  lemma TakeRest(rest: seq<Diff>, n: int, d: Diff, rest': seq<Diff>)
    requires rest != [] && 0 <= n <= |rest[0].text| && d == Diff(rest[0].op, rest[0].text[..n])
    requires rest' == if n == |rest[0].text| then rest[1..] else [Diff(rest[0].op, rest[0].text[n..])] + rest[1..]
    ensures Text1(rest) == Source(d) + Text1(rest') && Text2(rest) == Destination(d) + Text2(rest')
    ensures n > 0 || n == |rest[0].text| ==> Load(rest') < Load(rest)
  {
    var t, tail := rest[0].text, rest[1..];
    assert rest == [rest[0]] + tail;
    if n == |t| {
      assert t[..n] == t;
    } else {
      var r := Diff(rest[0].op, t[n..]);
      assert rest'[0] == r && rest'[1..] == tail;
      Cut(t, n);
      Assoc(Source(d), Source(r), Text1(tail));
      Assoc(Destination(d), Destination(r), Text2(tail));
    }
  }

  /** Only a deletion of more than two windows may make a small patch longer than the window. */
  ghost predicate FitsWindow(p: Patch, limit: int, s: Settings) {
    p.length1 <= limit || exists i :: 0 <= i < |p.diffs| && p.diffs[i].op == Delete && |p.diffs[i].text| > 2 * s.maxBits
  }

  lemma FitsLonger(p: Patch, q: Patch, limit: int, limit': int, s: Settings)
    requires FitsWindow(p, limit, s) && |p.diffs| <= |q.diffs|
    requires forall i :: 0 <= i < |p.diffs| && p.diffs[i].op == Delete ==> q.diffs[i] == p.diffs[i]
    requires p.length1 <= limit ==> q.length1 <= limit'
    ensures FitsWindow(q, limit', s)
  {
    if limit < p.length1 {
      var i :| 0 <= i < |p.diffs| && p.diffs[i].op == Delete && |p.diffs[i].text| > 2 * s.maxBits;
      assert q.diffs[i] == p.diffs[i];
    }
  }

  /** A deletion too long for any window, behind nothing but context. */
  ghost predicate GoesWhole(context: seq<Diff>, d: Diff, s: Settings) {
    d.op == Delete && |context| == 1 && context[0].op == Equal && |d.text| > 2 * s.maxBits
  }

  /** One turn of the inner loop: the first record of the rest, or as much of it as fits, moves into the small
      patch.  Equalities alone leave the patch empty of edits. */
  method TakeOne(patch0: Patch, rest0: seq<Diff>, s: Settings)
      returns (patch: Patch, rest: seq<Diff>, count1: int, count2: int, edit: bool, ghost n: int)
    requires Usable(s) && rest0 != [] && patch0.length1 < s.maxBits - s.margin
    ensures 0 <= n <= |rest0[0].text| && (n > 0 || n == |rest0[0].text|)
    ensures rest == if n == |rest0[0].text| then rest0[1..] else [Diff(rest0[0].op, rest0[0].text[n..])] + rest0[1..]
    ensures var d := Diff(rest0[0].op, rest0[0].text[..n]);
            && count1 == |Source(d)| && count2 == |Destination(d)| && edit == (d.op != Equal)
            && patch == Patch(patch0.diffs + [d], patch0.start1, patch0.start2, patch0.length1 + count1, patch0.length2 + count2)
    ensures FitsWindow(patch, s.maxBits - s.margin, s)
    ensures n == |rest0[0].text| || patch.length1 == s.maxBits - s.margin
    ensures rest0[0].op == Insert || GoesWhole(patch0.diffs, rest0[0], s) || patch.length1 <= s.maxBits - s.margin
    ensures rest0[0].op == Insert || GoesWhole(patch0.diffs, rest0[0], s) ==> n == |rest0[0].text|
  {
    var op, text := rest0[0].op, rest0[0].text;
    patch, rest, count1, count2, edit, n := patch0, rest0, 0, 0, true, |text|;
    if op == Insert {
      // An insertion needs no room in the source.
      patch := patch.(length2 := patch.length2 + |text|, diffs := patch.diffs + [rest[0]]);
      count2 := |text|;
      rest := rest[1..];
    } else if op == Delete && |patch.diffs| == 1 && patch.diffs[0].op == Equal && |text| > 2 * s.maxBits {
      // A deletion this long goes whole.
      patch := patch.(length1 := patch.length1 + |text|, diffs := patch.diffs + [Diff(op, text)]);
      count1 := |text|;
      rest := rest[1..];
      assert patch.diffs[1].op == Delete;
    } else {
      // Of anything else, as much as the window holds.
      if s.maxBits - patch.length1 - s.margin < |text| {
        text := text[..s.maxBits - patch.length1 - s.margin];
      }
      n := |text|;
      patch := patch.(length1 := patch.length1 + |text|);
      count1 := |text|;
      if op == Equal {
        patch := patch.(length2 := patch.length2 + |text|);
        count2, edit := |text|, false;
      }
      patch := patch.(diffs := patch.diffs + [Diff(op, text)]);
      if text == rest[0].text {
        rest := rest[1..];
      } else {
        rest := rest[0 := Diff(op, rest[0].text[|text|..])];
      }
    }
    TookPrefix(rest0, n, rest);
  }

  /** The records taken are the first k of all, and perhaps the first n characters of the next one. */
  ghost predicate Handed(all: seq<Diff>, taken: seq<Diff>, rest: seq<Diff>, k: nat, n: nat) {
    && k <= |all|
    && if n == 0 then taken == all[..k] && rest == all[k..]
       else && k < |all| && n < |all[k].text| && taken == all[..k] + [Diff(all[k].op, all[k].text[..n])]
            && rest == [Diff(all[k].op, all[k].text[n..])] + all[k + 1..]
  }

  /** What stands in front of the records taken. */
  ghost function Head(pre: Text): seq<Diff> {
    if pre == [] then [] else [Diff(Equal, pre)]
  }

  /** Room was left in front of the j-th record taken, and it fits, unless it needs none or goes whole. */
  ghost predicate FitsIn(pre: Text, taken: seq<Diff>, j: int, s: Settings)
    requires 0 <= j < |taken|
  {
    && |pre| + |Text1(taken[..j])| < s.maxBits - s.margin
    && (taken[j].op == Insert || GoesWhole(Head(pre) + taken[..j], taken[j], s)
        || |pre| + |Text1(taken[..j + 1])| <= s.maxBits - s.margin)
  }

  ghost predicate AllFit(pre: Text, taken: seq<Diff>, s: Settings) {
    forall j :: 0 <= j < |taken| ==> FitsIn(pre, taken, j, s)
  }

  /** The small patch holds the context and what was taken, as much as fits. */
  ghost predicate Filled(patch: Patch, pre: Text, taken: seq<Diff>, rest: seq<Diff>, all: seq<Diff>, s: Settings) {
    && patch.diffs == Head(pre) + taken && (exists k: nat, n: nat :: Handed(all, taken, rest, k, n))
    && patch.length1 == |pre| + |Text1(taken)| && patch.length2 == |pre| + |Text2(taken)|
    && (rest == [] || s.maxBits - s.margin <= patch.length1)
    && AllFit(pre, taken, s)
  }

  ghost predicate HasEdit(taken: seq<Diff>) {
    exists j :: 0 <= j < |taken| && taken[j].op != Equal
  }

  lemma HandedOn(all: seq<Diff>, taken: seq<Diff>, rest: seq<Diff>, k: nat, n: nat, rest': seq<Diff>)
    requires Handed(all, taken, rest, k, 0) && rest != [] && n <= |rest[0].text|
    requires rest' == if n == |rest[0].text| then rest[1..] else [Diff(rest[0].op, rest[0].text[n..])] + rest[1..]
    requires n > 0 || n == |rest[0].text|
    ensures var taken' := taken + [Diff(rest[0].op, rest[0].text[..n])];
            if n == |rest[0].text| then Handed(all, taken', rest', k + 1, 0) else Handed(all, taken', rest', k, n)
  {
    assert rest[0] == all[k] && rest[1..] == all[k + 1..];
    if n == |rest[0].text| {
      assert rest[0].text[..n] == rest[0].text;
      assert all[..k + 1] == all[..k] + [all[k]];
    }
  }

  lemma FitsStill(pre: Text, taken: seq<Diff>, d: Diff, s: Settings)
    requires AllFit(pre, taken, s)
    requires |pre| + |Text1(taken)| < s.maxBits - s.margin
    requires d.op == Insert || GoesWhole(Head(pre) + taken, d, s) || |pre| + |Text1(taken + [d])| <= s.maxBits - s.margin
    ensures AllFit(pre, taken + [d], s)
  {
    hide Text1, Head, GoesWhole;
    var more := taken + [d];
    assert more[..|taken|] == taken && more[..|taken| + 1] == more;
    forall j | 0 <= j < |more| ensures FitsIn(pre, more, j, s) {
      if j < |taken| {
        assert more[..j] == taken[..j] && more[..j + 1] == taken[..j + 1];
        assert FitsIn(pre, taken, j, s);
      }
    }
  }

  /** The inner loop: moves records, or parts of them, into the small patch until it is full. */
  method Fill(patch0: Patch, rest0: seq<Diff>, s: Settings, ghost pre: Text, ghost from2: int)
      returns (patch: Patch, rest: seq<Diff>, count1: int, count2: int, empty: bool, ghost taken: seq<Diff>)
    requires Usable(s) && Taking(patch0, pre, [], rest0, rest0, from2) && patch0.diffs == Head(pre)
    ensures Taking(patch, pre, taken, rest, rest0, from2)
    ensures patch.start1 == patch0.start1 && patch.start2 == patch0.start2
    ensures Filled(patch, pre, taken, rest, rest0, s) && (empty <==> !HasEdit(taken))
    ensures count1 == |Text1(taken)| && count2 == |Text2(taken)|
    ensures empty ==> Text1(taken) == Text2(taken)
    ensures empty || FitsWindow(patch, s.maxBits - s.margin, s)
    ensures |pre| < s.maxBits - s.margin && rest0 != [] ==> Load(rest) < Load(rest0)
    ensures s.maxBits - s.margin <= |pre| ==> rest == rest0 && Text2(taken) == []
  {
    hide Text1, Text2, Load, Taking, FitsWindow, FitsIn, AllFit, Handed, HasEdit, Head, GoesWhole;
    patch, rest, count1, count2, empty, taken := patch0, rest0, 0, 0, true, [];
    ghost var k: nat, m: nat := 0, 0;
    Nothing();
    TakingLength(patch, pre, taken, rest, rest0, from2);
    HandedNothing(rest0, pre, s);
    assert Head(pre) + [] == Head(pre);
    while rest != [] && patch.length1 < s.maxBits - s.margin
      invariant Taking(patch, pre, taken, rest, rest0, from2)
      invariant patch.start1 == patch0.start1 && patch.start2 == patch0.start2
      invariant count1 == |Text1(taken)| && count2 == |Text2(taken)| && patch.length1 == |pre| + count1
      invariant empty ==> Text1(taken) == Text2(taken)
      invariant taken == [] ==> empty
      invariant taken == [] || FitsWindow(patch, s.maxBits - s.margin, s)
      invariant (rest == rest0 && taken == []) || Load(rest) < Load(rest0)
      invariant s.maxBits - s.margin <= |pre| ==> rest == rest0 && taken == []
      invariant Handed(rest0, taken, rest, k, m) && (m == 0 || s.maxBits - s.margin <= patch.length1)
      invariant patch.diffs == Head(pre) + taken && (empty <==> !HasEdit(taken))
      invariant AllFit(pre, taken, s)
      decreases Load(rest)
    {
      ghost var before, restBefore, n := patch, rest, 0;
      var c1, c2, edit;
      patch, rest, c1, c2, edit, n := TakeOne(patch, rest, s);
      count1, count2, empty := count1 + c1, count2 + c2, empty && !edit;
      ghost var d := Diff(restBefore[0].op, restBefore[0].text[..n]);
      Take(before, pre, taken, restBefore, rest0, from2, n, d, rest, patch);
      TakeRest(restBefore, n, d, rest);
      TakenGrows(before, pre, taken, d);
      HandedOn(rest0, taken, restBefore, k, n, rest);
      if n == |restBefore[0].text| {
        k := k + 1;
        WholeRecord(restBefore[0]);
      } else {
        m := n;
      }
      FitsStill(pre, taken, d, s);
      taken := taken + [d];
    }
    TakingLengths(patch, pre, taken, rest, rest0, from2);
  }

  lemma TakenGrows(patch: Patch, pre: Text, taken: seq<Diff>, d: Diff)
    ensures Text1(taken + [d]) == Text1(taken) + Source(d) && Text2(taken + [d]) == Text2(taken) + Destination(d)
    ensures HasEdit(taken + [d]) <==> HasEdit(taken) || d.op != Equal
    ensures patch.diffs == Head(pre) + taken ==> patch.diffs + [d] == Head(pre) + (taken + [d])
  {
    hide Text1, Text2, HasEdit, Head;
    Concat(taken, [d]);
    Single(d);
    EditTaken(taken, d);
    assert patch.diffs == Head(pre) + taken ==> patch.diffs + [d] == Head(pre) + (taken + [d]);
  }

  lemma HandedNothing(all: seq<Diff>, pre: Text, s: Settings)
    ensures Handed(all, [], all, 0, 0) && !HasEdit([]) && AllFit(pre, [], s)
  {
  }

  lemma WholeRecord(d: Diff)
    ensures Diff(d.op, d.text[..|d.text|]) == d
  {
  }

  lemma EditTaken(taken: seq<Diff>, d: Diff)
    ensures HasEdit(taken + [d]) <==> HasEdit(taken) || d.op != Equal
  {
    var more := taken + [d];
    if HasEdit(taken) {
      var j :| 0 <= j < |taken| && taken[j].op != Equal;
      assert more[j].op != Equal;
    }
    if d.op != Equal {
      assert more[|taken|].op != Equal;
    }
  }

  lemma TakingLengths(patch: Patch, pre: Text, taken: seq<Diff>, rest: seq<Diff>, all: seq<Diff>, from2: int)
    requires Taking(patch, pre, taken, rest, all, from2)
    ensures patch.length1 == |pre| + |Text1(taken)| && patch.length2 == |pre| + |Text2(taken)|
  {
  }

  lemma TookPrefix(rest: seq<Diff>, n: int, rest': seq<Diff>)
    requires rest != [] && 0 <= n <= |rest[0].text|
    requires rest' == if n == |rest[0].text| then rest[1..] else rest[0 := Diff(rest[0].op, rest[0].text[n..])]
    ensures rest' == if n == |rest[0].text| then rest[1..] else [Diff(rest[0].op, rest[0].text[n..])] + rest[1..]
    ensures rest[0].text[..|rest[0].text|] == rest[0].text
  {
  }

  lemma TakingLength(patch: Patch, pre: Text, taken: seq<Diff>, rest: seq<Diff>, all: seq<Diff>, from2: int)
    requires Taking(patch, pre, taken, rest, all, from2)
    ensures patch.length1 == |pre| + |Text1(taken)|
  {
  }

  /** The big patch half handed out: the text so far is x + source of the rest + y. */
  ghost predicate Splitting(big: Patch, t: Text, small: seq<Patch>, x: Text, rest: seq<Diff>, y: Text, pre: Text) {
    && AppliesAt(big, t)
    && Applies(small, t, x + Text1(rest) + y)
    && x + Text2(rest) + y == ApplyOne(big, t)
    && |pre| <= |x| && pre == x[|x| - |pre|..]
  }

  lemma SplitStart(big: Patch, t: Text) returns (x: Text, y: Text)
    requires AppliesAt(big, t)
    ensures Splitting(big, t, [], x, big.diffs, y, []) && |x| == big.start2
  {
    hide Text1, Text2, AppliesAt, ApplyOne;
    x, y := AppliesSplits(big, t);
  }

  lemma TakingStart(patch: Patch, pre: Text, rest: seq<Diff>, from2: int)
    requires patch.diffs == (if pre == [] then [] else [Diff(Equal, pre)])
    requires patch.start2 == from2 - |pre| && patch.length1 == patch.length2 == |pre|
    ensures Taking(patch, pre, [], rest, rest, from2)
  {
    Single(Diff(Equal, pre));
    assert pre + [] == pre && [] + Text1(rest) == Text1(rest) && [] + Text2(rest) == Text2(rest);
  }

  /** A filled patch with trailing context applies, and moves the border between done and rest. */
  lemma SmallApplies(big: Patch, t: Text, small: seq<Patch>, x: Text, rest: seq<Diff>, y: Text, pre: Text,
                     patch: Patch, taken: seq<Diff>, rest': seq<Diff>, q: Patch, post: Text)
    requires Splitting(big, t, small, x, rest, y, pre) && Taking(patch, pre, taken, rest', rest, |x|)
    requires Extended(patch, q, [], post) && |post| <= |Text1(rest')| && post == Text1(rest')[..|post|]
    ensures Applies(small + [q], t, x + Text2(taken) + Text1(rest') + y)
  {
    hide Text1, Text2, AppliesAt, ApplyOne, Applies;
    var x0, r := x[..|x| - |pre|], Text1(rest')[|post|..];
    Cut(Text1(rest'), |post|);
    Cut(x, |x| - |pre|);
    assert [] + (pre + Text1(taken)) + post == pre + Text1(taken) + post;
    assert [] + (pre + Text2(taken)) + post == pre + Text2(taken) + post;
    AppliesInside(q, x0, r + y);
    Regroup(x0, pre, Text1(taken), post, r + y);
    Regroup(x0, pre, Text2(taken), post, r + y);
    Assoc(post, r, y);
    Assoc(x, Text1(taken), Text1(rest'));
    assert x + Text1(taken) + (post + (r + y)) == x + Text1(rest) + y;
    assert x + Text2(taken) + (post + (r + y)) == x + Text2(taken) + Text1(rest') + y;
    AppliesAppend(small, t, x + Text1(rest) + y, q);
  }

  lemma SplitNext(big: Patch, t: Text, small: seq<Patch>, x: Text, rest: seq<Diff>, y: Text, pre: Text,
                  patch: Patch, taken: seq<Diff>, rest': seq<Diff>, small': seq<Patch>, n: int)
    requires Splitting(big, t, small, x, rest, y, pre) && Taking(patch, pre, taken, rest', rest, |x|)
    requires Applies(small', t, x + Text2(taken) + Text1(rest') + y)
             || (small' == small && Text1(taken) == Text2(taken))
    requires 0 <= n <= |pre|
    ensures n <= |Text2(patch.diffs)|
    ensures Splitting(big, t, small', x + Text2(taken), rest', y, Text2(patch.diffs)[n..])
  {
    hide Text1, Text2, AppliesAt, ApplyOne, Applies;
    Assoc(x, Text2(taken), Text2(rest'));
    Assoc(x, Text1(taken), Text1(rest'));
    var x0 := x[..|x| - |pre|];
    Cut(x, |x| - |pre|);
    Assoc(x0, pre, Text2(taken));
    var made := pre + Text2(taken);
    assert x + Text2(taken) == x0 + made;
    assert (x0 + made)[|x0| + n..] == made[n..];
  }

  /** The patch with the text behind it: a trailing equality grows, and otherwise a new one is made. */
  ghost predicate Ended(patch: Patch, q: Patch, post: Text) {
    var n := |patch.diffs| - 1;
    && q == patch.(length1 := patch.length1 + |post|, length2 := patch.length2 + |post|, diffs := q.diffs)
    && if post == [] then q.diffs == patch.diffs
       else if n >= 0 && patch.diffs[n].op == Equal
         then q.diffs == patch.diffs[..n] + [Diff(Equal, patch.diffs[n].text + post)]
         else q.diffs == patch.diffs + [Diff(Equal, post)]
  }

  /** Trailing context is merged into a trailing equality. */
  method AddPostcontext(patch: Patch, postcontext: Text) returns (q: Patch)
    ensures Ended(patch, q, postcontext) && Extended(patch, q, [], postcontext) && |patch.diffs| <= |q.diffs|
    ensures forall i :: 0 <= i < |patch.diffs| && patch.diffs[i].op == Delete ==> q.diffs[i] == patch.diffs[i]
  {
    hide Text1, Text2;
    q := patch;
    if postcontext != [] {
      q := q.(length1 := q.length1 + |postcontext|, length2 := q.length2 + |postcontext|);
      if q.diffs != [] && q.diffs[|q.diffs| - 1].op == Equal {
        var last := q.diffs[|q.diffs| - 1];
        GrowLast(q.diffs, postcontext);
        q := q.(diffs := q.diffs[|q.diffs| - 1 := Diff(last.op, last.text + postcontext)]);
      } else {
        Concat(q.diffs, [Diff(Equal, postcontext)]);
        Single(Diff(Equal, postcontext));
        q := q.(diffs := q.diffs + [Diff(Equal, postcontext)]);
      }
    }
    assert [] + Text1(patch.diffs) + postcontext == Text1(patch.diffs) + postcontext;
    assert [] + Text2(patch.diffs) + postcontext == Text2(patch.diffs) + postcontext;
    assert Text1(patch.diffs) + [] == Text1(patch.diffs) && Text2(patch.diffs) + [] == Text2(patch.diffs);
  }

  /** One turn of the outer loop: the context in front, the records there were, those taken and those left, and the
      small patch with the context behind it. */
  datatype Turn = Turn(pre: Text, all: seq<Diff>, taken: seq<Diff>, rest: seq<Diff>, small: Patch)

  /** A turn fills a small patch, and ends it with the margin of the source that is left. */
  ghost predicate Turned(u: Turn, s: Settings) {
    var behind := Text1(u.rest);
    exists patch :: Filled(patch, u.pre, u.taken, u.rest, u.all, s)
      && Ended(patch, u.small, behind[..Max(0, Min(s.margin, |behind|))])
  }

  /** The next turn begins behind the last one.  Its context ends the destination so far; as much is cut off as the
      old context was longer than the margin. */
  ghost predicate Follows(u: Turn, v: Turn, s: Settings) {
    && v.all == u.rest
    && Max(0, |u.pre| - s.margin) <= |u.pre| && v.pre == (u.pre + Text2(u.taken))[Max(0, |u.pre| - s.margin)..]
    && v.small.start1 + |v.pre| == u.small.start1 + |u.pre| + |Text1(u.taken)|
    && v.small.start2 + |v.pre| == u.small.start2 + |u.pre| + |Text2(u.taken)|
  }

  /** The turns of the loop on one patch, so far. */
  ghost predicate Turns(us: seq<Turn>, big: Patch, s: Settings) {
    && (us != [] ==> us[0].pre == [] && us[0].all == big.diffs
                     && us[0].small.start1 == big.start1 && us[0].small.start2 == big.start2)
    && (forall i :: 0 <= i < |us| ==> Turned(us[i], s))
    && (forall i :: 0 <= i < |us| - 1 ==> Follows(us[i], us[i + 1], s))
  }

  ghost function Left(us: seq<Turn>, big: Patch): seq<Diff> {
    if us == [] then big.diffs else us[|us| - 1].rest
  }

  /** The small patches: those of the turns that took an edit. */
  ghost function Smalls(us: seq<Turn>): seq<Patch> {
    if us == [] then []
    else
      var u := us[|us| - 1];
      Smalls(us[..|us| - 1]) + (if HasEdit(u.taken) then [u.small] else [])
  }

  /** What the loop makes of one long patch. */
  ghost predicate SplitInto(big: Patch, small: seq<Patch>, s: Settings) {
    exists us :: Turns(us, big, s) && Left(us, big) == [] && small == Smalls(us)
  }

  /** Where the next turn begins. */
  ghost predicate Begins(us: seq<Turn>, big: Patch, pre: Text, start1: int, start2: int, s: Settings) {
    if us == [] then pre == [] && start1 == big.start1 && start2 == big.start2
    else
      var u := us[|us| - 1];
      && Max(0, |u.pre| - s.margin) <= |u.pre| && pre == (u.pre + Text2(u.taken))[Max(0, |u.pre| - s.margin)..]
      && start1 == u.small.start1 + |u.pre| + |Text1(u.taken)|
      && start2 == u.small.start2 + |u.pre| + |Text2(u.taken)|
  }

  lemma OneTurnMore(us: seq<Turn>, big: Patch, s: Settings, patch: Patch, pre: Text, start1: int, start2: int, u: Turn,
                    n: int)
    requires Turns(us, big, s) && Begins(us, big, pre, start1, start2, s) && u.pre == pre && u.all == Left(us, big)
    requires Filled(patch, pre, u.taken, u.rest, u.all, s)
    requires patch.start1 == start1 - |pre| && patch.start2 == start2 - |pre|
    requires Ended(patch, u.small, Text1(u.rest)[..Max(0, Min(s.margin, |Text1(u.rest)|))])
    requires n == Max(0, |pre| - s.margin) && n <= |pre|
    ensures Turns(us + [u], big, s) && Left(us + [u], big) == u.rest
    ensures Smalls(us + [u]) == Smalls(us) + (if HasEdit(u.taken) then [u.small] else [])
    ensures Begins(us + [u], big, (pre + Text2(u.taken))[n..], start1 + |Text1(u.taken)|, start2 + |Text2(u.taken)|, s)
  {
    hide Text1, Text2, Filled, Ended, HasEdit, Turns;
    var more := us + [u];
    assert more[..|us|] == us && more[|us|] == u;
    assert Turned(u, s);
    ShapeKept(patch, u.small, Text1(u.rest)[..Max(0, Min(s.margin, |Text1(u.rest)|))]);
    TurnsOn(us, big, s, u);
  }

  lemma ShapeKept(patch: Patch, q: Patch, post: Text)
    requires Ended(patch, q, post)
    ensures q.start1 == patch.start1 && q.start2 == patch.start2
  {
  }

  lemma TurnsOn(us: seq<Turn>, big: Patch, s: Settings, u: Turn)
    requires Turns(us, big, s) && Turned(u, s)
    requires us == [] ==> u.pre == [] && u.all == big.diffs && u.small.start1 == big.start1 && u.small.start2 == big.start2
    requires us != [] ==> Follows(us[|us| - 1], u, s)
    ensures Turns(us + [u], big, s)
  {
    hide Follows, Turned;
    var more := us + [u];
    forall i | 0 <= i < |more| - 1 ensures Follows(more[i], more[i + 1], s) {
      if i < |us| - 1 {
        assert Follows(us[i], us[i + 1], s);
      }
    }
  }

  /** Cuts one long patch.  The context kept for the next patch is measured by the old context, so it
      can be too long once; the round in which nothing fits then shortens it to the margin. */
  method SplitPatch(big: Patch, s: Settings, ghost t: Text) returns (small: seq<Patch>)
    requires Usable(s) && AppliesAt(big, t)
    ensures Applies(small, t, ApplyOne(big, t)) && SplitInto(big, small, s)
    ensures forall i :: 0 <= i < |small| ==> FitsWindow(small[i], s.maxBits, s)
  {
    hide Text1, Text2, FitsWindow, Load, Taking, Splitting, AppliesAt, ApplyOne, Applies;
    hide Turns, Smalls, Filled, Ended, HasEdit, Begins, Left;
    ghost var us: seq<Turn> := [];
    small := [];
    var start1, start2 := big.start1, big.start2;
    var precontext: Text := [];
    var rest := big.diffs;
    ghost var x, y := SplitStart(big, t);
    NoTurn(big, s);
    while rest != []
      invariant Splitting(big, t, small, x, rest, y, precontext) && start2 == |x|
      invariant forall i :: 0 <= i < |small| ==> FitsWindow(small[i], s.maxBits, s)
      invariant Turns(us, big, s) && Left(us, big) == rest && small == Smalls(us)
      invariant Begins(us, big, precontext, start1, start2, s)
      decreases Load(rest), if s.maxBits - s.margin <= |precontext| then 1 else 0
    {
      // The next small patch.
      var patch := Patch([], start1 - |precontext|, start2 - |precontext|, 0, 0);
      if precontext != [] {
        patch := patch.(length1 := |precontext|, length2 := |precontext|, diffs := [Diff(Equal, precontext)]);
      }
      TakingStart(patch, precontext, rest, |x|);
      ghost var before1, before2 := start1, start2;
      ghost var pre, all := precontext, rest;
      var count1, count2, empty;
      ghost var taken;
      patch, rest, count1, count2, empty, taken := Fill(patch, rest, s, pre, |x|);
      start1, start2 := start1 + count1, start2 + count2;
      // What the next small patch begins with.
      var text2 := DiffText2(patch.diffs);
      var n := if |precontext| < s.margin then 0 else |precontext| - s.margin;
      TakingTexts(patch, pre, taken, rest, all, |x|);
      precontext := text2[n..];
      // What this small patch ends with.
      var postcontext := DiffText1(rest);
      if |postcontext| > s.margin {
        postcontext := postcontext[..s.margin];
      }
      var done := AddPostcontext(patch, postcontext);
      Whole(Text1(rest));
      ghost var turn := Turn(pre, all, taken, rest, done);
      OneTurnMore(us, big, s, patch, pre, before1, before2, turn, n);
      us := us + [turn];
      ghost var small0 := small;
      if !empty {
        FitsLonger(patch, done, s.maxBits - s.margin, s.maxBits, s);
        SmallApplies(big, t, small, x, all, y, pre, patch, taken, rest, done, postcontext);
        small := small + [done];
      }
      SplitNext(big, t, small0, x, all, y, pre, patch, taken, rest, small, n);
      x := x + Text2(taken);
    }
    SplitEnd(big, t, small, x, y, precontext);
  }

  lemma Whole(t: Text)
    ensures t[..|t|] == t
  {
  }

  lemma NoTurn(big: Patch, s: Settings)
    ensures Turns([], big, s) && Left([], big) == big.diffs && Smalls([]) == []
    ensures Begins([], big, [], big.start1, big.start2, s)
  {
  }

  lemma TakingTexts(patch: Patch, pre: Text, taken: seq<Diff>, rest: seq<Diff>, all: seq<Diff>, from2: int)
    requires Taking(patch, pre, taken, rest, all, from2)
    ensures Text2(patch.diffs) == pre + Text2(taken)
  {
  }

  lemma SplitEnd(big: Patch, t: Text, small: seq<Patch>, x: Text, y: Text, pre: Text)
    requires Splitting(big, t, small, x, [], y, pre)
    ensures Applies(small, t, ApplyOne(big, t))
  {
  }

  lemma ShortFits(p: Patch, s: Settings)
    requires p.length1 <= s.maxBits
    ensures FitsWindow(p, s.maxBits, s)
  {
  }

  /** The patches in turn: a short one stays, and the pieces of a long one take its place. */
  ghost predicate SplitAll(patches0: seq<Patch>, patches: seq<Patch>, s: Settings) {
    if patches0 == [] then patches == []
    else
      var n, p := |patches0| - 1, patches0[|patches0| - 1];
      exists i | 0 <= i <= |patches| ::
        && SplitAll(patches0[..n], patches[..i], s)
        && if p.length1 <= s.maxBits then patches[i..] == [p] else SplitInto(p, patches[i..], s)
  }

  lemma OneMoreSplit(patches0: seq<Patch>, n: nat, done: seq<Patch>, small: seq<Patch>, s: Settings)
    requires n < |patches0| && SplitAll(patches0[..n], done, s)
    requires if patches0[n].length1 <= s.maxBits then small == [patches0[n]] else SplitInto(patches0[n], small, s)
    ensures SplitAll(patches0[..n + 1], done + small, s)
  {
    hide SplitInto;
    var some, all := patches0[..n + 1], done + small;
    assert some[..n] == patches0[..n] && all[..|done|] == done && all[|done|..] == small;
  }

  /** patch_splitMax. */
  method SplitMax(patches0: seq<Patch>, s: Settings, ghost a: Text, ghost b: Text) returns (patches: seq<Patch>)
    requires Usable(s) && Applies(patches0, a, b)
    ensures Applies(patches, a, b) && SplitAll(patches0, patches, s)
    ensures forall i :: 0 <= i < |patches| ==> FitsWindow(patches[i], s.maxBits, s)
  {
    hide Text1, Text2, AppliesAt, ApplyOne, FitsWindow, SplitInto, SplitAll;
    patches := patches0;
    var cur := 0;
    ghost var mid, n := a, 0;
    assert patches[..0] == [] == patches0[..0] && patches[0..] == patches0[0..] == patches;
    NothingSplit(s);
    while cur < |patches|
      invariant 0 <= cur <= |patches| && 0 <= n <= |patches0|
      invariant Applies(patches[..cur], a, mid) && Applies(patches[cur..], mid, b)
      invariant SplitAll(patches0[..n], patches[..cur], s) && patches[cur..] == patches0[n..]
      invariant forall i :: 0 <= i < cur ==> FitsWindow(patches[i], s.maxBits, s)
      decreases |patches| - cur
    {
      var p := patches[cur];
      ghost var done, next := patches[..cur], patches[cur + 1..];
      assert patches[cur..][0] == p && patches[cur..][1..] == next;
      assert patches0[n..][0] == p == patches0[n] && patches0[n..][1..] == next == patches0[n + 1..];
      if p.length1 <= s.maxBits {
        AppliesAppend(done, a, mid, p);
        ShortFits(p, s);
        OneMoreSplit(patches0, n, done, [p], s);
        assert patches[..cur + 1] == done + [p];
        mid := ApplyOne(p, mid);
        cur := cur + 1;
      } else {
        // The small patches take the place of the long one.
        var small := SplitPatch(p, s, mid);
        OneMoreSplit(patches0, n, done, small, s);
        AppliesConcat(done, small, a, mid, ApplyOne(p, mid));
        patches := patches[..cur] + small + patches[cur + 1..];
        cur := cur + |small|;
        assert patches[..cur] == done + small && patches[cur..] == next;
        mid := ApplyOne(p, mid);
      }
      n := n + 1;
    }
    assert patches[..cur] == patches && patches[cur..] == [] && patches0[..n] == patches0;
  }

  lemma NothingSplit(s: Settings)
    ensures SplitAll([], [], s)
  {
  }
}
