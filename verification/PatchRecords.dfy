/** Which records patch_make puts into a patch, and when they are enough.  The walk compares an equality
    with the last record by value, so an earlier record that looks the same is left out of its patch. */
module PatchRecords {
  import opened DiffList
  import opened Patches

  /** An equality long enough to end a patch. */
  predicate Closes(d: Diff, margin: int) {
    d.op == Equal && 2 * margin <= |d.text|
  }

  /** Whether the walk records the record at i, given that a patch is open or not. */
  predicate Keeps(diffs: seq<Diff>, i: int, open: bool, margin: int)
    requires 0 <= i < |diffs|
  {
    diffs[i].op != Equal || (|diffs[i].text| <= 2 * margin && open && diffs[i] != diffs[|diffs| - 1])
  }

  /** The records of the patch that is open in front of record i; none if no patch is open. */
  function Kept(diffs: seq<Diff>, i: int, margin: int): seq<Diff>
    requires 0 <= i <= |diffs|
    decreases i, 0
  {
    if i == 0 || Closes(diffs[i - 1], margin) then [] else KeptWith(diffs, i - 1, margin)
  }

  /** The same with record i looked at, before the patch is closed. */
  function KeptWith(diffs: seq<Diff>, i: int, margin: int): seq<Diff>
    requires 0 <= i < |diffs|
    decreases i, 1
  {
    var k := Kept(diffs, i, margin);
    if Keeps(diffs, i, k != [], margin) then k + [diffs[i]] else k
  }

  /** Where the patch began that is open in front of record i; i itself if none is. */
  function Begin(diffs: seq<Diff>, i: int, margin: int): (b: int)
    requires 0 <= i <= |diffs|
    ensures 0 <= b <= i
    decreases i
  {
    if Kept(diffs, i, margin) == [] then i else Begin(diffs, i - 1, margin)
  }

  /** A patch is open exactly behind an edit that no long equality has followed. */
  lemma {:induction false} OpenIff(diffs: seq<Diff>, i: int, margin: int)
    requires 0 <= i <= |diffs|
    ensures Kept(diffs, i, margin) != []
       <==> exists j :: 0 <= j < i && diffs[j].op != Equal && forall k :: j < k < i ==> !Closes(diffs[k], margin)
    decreases i
  {
    if i > 0 {
      OpenIff(diffs, i - 1, margin);
      if Kept(diffs, i - 1, margin) != [] && !Closes(diffs[i - 1], margin) {
        var j :| 0 <= j < i - 1 && diffs[j].op != Equal && forall k :: j < k < i - 1 ==> !Closes(diffs[k], margin);
        assert forall k :: j < k < i ==> !Closes(diffs[k], margin);
      }
    }
  }

  // ----- when the records kept are enough -----

  /** The text after the first i records are applied. */
  ghost function At(diffs: seq<Diff>, i: int): Text
    requires 0 <= i <= |diffs|
  {
    Text2(diffs[..i]) + Text1(diffs[i..])
  }

  /** The kept records claim what stands from record b on, and turn it into what all records before j do. */
  ghost predicate Amounts(diffs: seq<Diff>, b: int, j: int, kept: seq<Diff>)
    requires 0 <= b <= j <= |diffs|
  {
    && Text1(kept) <= Text1(diffs[b..])
    && Text2(kept) + Text1(diffs[b..])[|Text1(kept)|..] == Text2(diffs[b..j]) + Text1(diffs[j..])
  }

  /** Every patch closed before record i amounts to all of its records. */
  ghost predicate ExactBefore(diffs: seq<Diff>, i: int, margin: int)
    requires 0 <= i <= |diffs|
    decreases i
  {
    i == 0 || (ExactBefore(diffs, i - 1, margin)
               && (Closes(diffs[i - 1], margin) && Kept(diffs, i - 1, margin) != [] ==>
                     Amounts(diffs, Begin(diffs, i - 1, margin), i, KeptWith(diffs, i - 1, margin))))
  }

  /** So does every patch, with the one that is open at the end. */
  ghost predicate Exact(diffs: seq<Diff>, margin: int) {
    && ExactBefore(diffs, |diffs|, margin)
    && (Kept(diffs, |diffs|, margin) != [] ==>
          Amounts(diffs, Begin(diffs, |diffs|, margin), |diffs|, Kept(diffs, |diffs|, margin)))
  }

  /** An equality that is left out of an open patch that goes on: too short to end the patch, not blank,
      and equal by value to the last record. */
  predicate Dropped(diffs: seq<Diff>, i: int, margin: int)
    requires 0 <= i < |diffs|
  {
    var d := diffs[i];
    && d.op == Equal && d == diffs[|diffs| - 1] && d.text != [] && |d.text| < 2 * margin
    && Kept(diffs, i, margin) != []
  }

  /** No record inside a patch is mistaken for the last one. */
  predicate NothingDropped(diffs: seq<Diff>, margin: int) {
    forall i :: 0 <= i < |diffs| - 1 ==> !Dropped(diffs, i, margin)
  }

  // ----- lengths -----

  /** What is left out are equalities. */
  ghost predicate LeftOut(kept: seq<Diff>, all: seq<Diff>) {
    |Text1(kept)| <= |Text1(all)| && |Text2(kept)| - |Text1(kept)| == |Text2(all)| - |Text1(all)|
  }

  ghost predicate SameTexts(kept: seq<Diff>, all: seq<Diff>) {
    Text1(kept) == Text1(all) && Text2(kept) == Text2(all)
  }

  lemma OneMore(kept: seq<Diff>, all: seq<Diff>, d: Diff)
    requires LeftOut(kept, all)
    ensures LeftOut(kept + [d], all + [d]) && (d.op == Equal ==> LeftOut(kept, all + [d]))
    ensures SameTexts(kept, all) ==> SameTexts(kept + [d], all + [d])
    ensures SameTexts(kept, all) && d == Diff(Equal, []) ==> SameTexts(kept, all + [d])
  {
    hide Text1, Text2;
    Concat(kept, [d]);
    Concat(all, [d]);
    Single(d);
    if d == Diff(Equal, []) {
      assert Text1(all) + [] == Text1(all) && Text2(all) + [] == Text2(all);
    }
  }

  lemma NoneKept()
    ensures LeftOut([], []) && SameTexts([], [])
  {
  }

  lemma {:induction false} KeptIsWell(diffs: seq<Diff>, i: int, margin: int)
    requires 0 <= i <= |diffs|
    ensures LeftOut(Kept(diffs, i, margin), diffs[Begin(diffs, i, margin)..i])
    ensures NothingDropped(diffs, margin) && i < |diffs| ==> SameTexts(Kept(diffs, i, margin), diffs[Begin(diffs, i, margin)..i])
    ensures i < |diffs| ==> LeftOut(KeptWith(diffs, i, margin), diffs[Begin(diffs, i, margin)..i + 1])
    decreases i
  {
    hide LeftOut, SameTexts, NothingDropped;
    var b := Begin(diffs, i, margin);
    if Kept(diffs, i, margin) == [] {
      assert diffs[b..i] == [];
      NoneKept();
    } else {
      KeptIsWell(diffs, i - 1, margin);
      KeptStep(diffs, i - 1, margin);
      assert b == Begin(diffs, i - 1, margin);
    }
    if i < |diffs| {
      assert diffs[b..i + 1] == diffs[b..i] + [diffs[i]];
      OneMore(Kept(diffs, i, margin), diffs[b..i], diffs[i]);
    }
  }

  lemma NotDropped(diffs: seq<Diff>, i: int, margin: int)
    requires 0 <= i < |diffs|
    ensures NothingDropped(diffs, margin) && i < |diffs| - 1 ==> !Dropped(diffs, i, margin)
  {
  }

  lemma KeptStep(diffs: seq<Diff>, i: int, margin: int)
    requires 0 <= i < |diffs| && !Closes(diffs[i], margin)
    requires var b := Begin(diffs, i, margin);
             && LeftOut(Kept(diffs, i, margin), diffs[b..i])
             && (NothingDropped(diffs, margin) ==> SameTexts(Kept(diffs, i, margin), diffs[b..i]))
    ensures KeptWith(diffs, i, margin) != [] && NothingDropped(diffs, margin) && i < |diffs| - 1 ==>
              SameTexts(KeptWith(diffs, i, margin), diffs[Begin(diffs, i, margin)..i + 1])
  {
    hide LeftOut, SameTexts, Begin, Kept, NothingDropped;
    var b := Begin(diffs, i, margin);
    assert diffs[b..i + 1] == diffs[b..i] + [diffs[i]];
    OneMore(Kept(diffs, i, margin), diffs[b..i], diffs[i]);
    assert NothingDropped(diffs, margin) && i < |diffs| - 1 ==> !Dropped(diffs, i, margin) by { NotDropped(diffs, i, margin); }
  }

  // ----- nothing dropped is enough -----

  lemma SplitAt(diffs: seq<Diff>, b: int, j: int)
    requires 0 <= b <= j <= |diffs|
    ensures Text1(diffs[b..]) == Text1(diffs[b..j]) + Text1(diffs[j..])
    ensures Text2(diffs[..j]) == Text2(diffs[..b]) + Text2(diffs[b..j])
  {
    hide Text1, Text2;
    assert diffs[b..] == diffs[b..j] + diffs[j..] && diffs[..j] == diffs[..b] + diffs[b..j];
    Concat(diffs[b..j], diffs[j..]);
    Concat(diffs[..b], diffs[b..j]);
  }

  lemma WholeAmounts(diffs: seq<Diff>, b: int, j: int, kept: seq<Diff>)
    requires 0 <= b <= j <= |diffs| && SameTexts(kept, diffs[b..j])
    ensures Amounts(diffs, b, j, kept)
  {
    hide Text1, Text2;
    SplitAt(diffs, b, j);
  }

  /** Looking at one more equality changes nothing, whether it is kept or not. */
  lemma EqualityAmounts(diffs: seq<Diff>, b: int, i: int, kept: seq<Diff>)
    requires 0 <= b <= i < |diffs| && diffs[i].op == Equal && SameTexts(kept, diffs[b..i])
    ensures Amounts(diffs, b, i + 1, kept) && Amounts(diffs, b, i + 1, kept + [diffs[i]])
  {
    hide Text1, Text2;
    var d := diffs[i];
    assert diffs[b..i + 1] == diffs[b..i] + [d];
    Concat(diffs[b..i], [d]);
    Concat(kept, [d]);
    Single(d);
    WholeAmounts(diffs, b, i + 1, kept + [d]);
    SplitAt(diffs, b, i);
    SplitAt(diffs, i, i + 1);
    assert diffs[i..i + 1] == [d];
    assert (Text2(diffs[b..i]) + d.text) + Text1(diffs[i + 1..]) == Text2(diffs[b..i]) + (d.text + Text1(diffs[i + 1..]));
  }

  lemma {:induction false} ExactIfNothingDroppedBefore(diffs: seq<Diff>, i: int, margin: int)
    requires NothingDropped(diffs, margin) && 0 <= i <= |diffs|
    ensures ExactBefore(diffs, i, margin)
    decreases i
  {
    hide NothingDropped, Amounts, SameTexts, LeftOut;
    if i > 0 {
      ExactIfNothingDroppedBefore(diffs, i - 1, margin);
      if Closes(diffs[i - 1], margin) {
        KeptIsWell(diffs, i - 1, margin);
        EqualityAmounts(diffs, Begin(diffs, i - 1, margin), i - 1, Kept(diffs, i - 1, margin));
      }
    }
  }

  /** If no record inside a patch is mistaken for the last one, the patches amount to all records. */
  lemma ExactIfNothingDropped(diffs: seq<Diff>, margin: int)
    requires NothingDropped(diffs, margin)
    ensures Exact(diffs, margin)
  {
    hide NothingDropped, Amounts, SameTexts, LeftOut, ExactBefore;
    ExactIfNothingDroppedBefore(diffs, |diffs|, margin);
    var n := |diffs|;
    if Kept(diffs, n, margin) != [] {
      var b, kept, d := Begin(diffs, n - 1, margin), Kept(diffs, n - 1, margin), diffs[n - 1];
      assert Begin(diffs, n, margin) == b;
      KeptIsWell(diffs, n - 1, margin);
      if d.op == Equal {
        EqualityAmounts(diffs, b, n - 1, kept);
      } else {
        assert diffs[b..n] == diffs[b..n - 1] + [d];
        OneMore(kept, diffs[b..n - 1], d);
        WholeAmounts(diffs, b, n, kept + [d]);
      }
    }
  }

  // ----- records that are lost -----

  lemma {:induction false} ExactEarlier(diffs: seq<Diff>, i: int, margin: int)
    requires 0 <= i <= |diffs|
    ensures ExactBefore(diffs, |diffs|, margin) ==> ExactBefore(diffs, i, margin)
    decreases |diffs| - i
  {
    if i < |diffs| {
      ExactEarlier(diffs, i + 1, margin);
    }
  }

  /** The open patch goes on until it is closed, and claims what its records so far claim. */
  lemma {:induction false} ClaimStays(diffs: seq<Diff>, i: int, margin: int, claim: Text)
    requires 0 <= i <= |diffs| && Kept(diffs, i, margin) != []
    requires claim <= Text1(Kept(diffs, i, margin)) && !(claim <= Text1(diffs[Begin(diffs, i, margin)..]))
    ensures !Exact(diffs, margin)
    decreases |diffs| - i
  {
    hide Text1, Text2, ExactBefore;
    if i < |diffs| {
      var kept, d := Kept(diffs, i, margin), diffs[i];
      Concat(kept, [d]);
      assert claim <= Text1(KeptWith(diffs, i, margin));
      if Closes(d, margin) {
        ClosedPatch(diffs, i, margin);
      } else {
        ClaimStays(diffs, i + 1, margin, claim);
      }
    }
  }

  lemma ClosedPatch(diffs: seq<Diff>, i: int, margin: int)
    requires 0 <= i < |diffs| && Kept(diffs, i, margin) != [] && Closes(diffs[i], margin)
    ensures Exact(diffs, margin) ==> Amounts(diffs, Begin(diffs, i, margin), i + 1, KeptWith(diffs, i, margin))
  {
    ExactEarlier(diffs, i + 1, margin);
  }

  /** The record at i is lost, and the next one, which is kept, has text that begins with another character:
      then the patch does not amount to its records. */
  lemma LostRecordBreaks(diffs: seq<Diff>, i: int, margin: int)
    requires 0 <= i && i + 1 < |diffs| && Dropped(diffs, i, margin) && (forall j :: 0 <= j < i ==> !Dropped(diffs, j, margin))
    requires Keeps(diffs, i + 1, true, margin) && diffs[i + 1].text != [] && diffs[i + 1].text[0] != diffs[i].text[0]
    ensures !Exact(diffs, margin)
  {
    hide Exact, Keeps, Dropped, Text1, Text2, Kept, KeptWith;
    if diffs[i + 1].op == Insert {
      LostBeforeInsertion(diffs, i, margin);
    } else {
      LostBeforeSource(diffs, i, margin);
    }
  }

  /** A record that claims source text claims it at the place of the lost one. */
  lemma LostBeforeSource(diffs: seq<Diff>, i: int, margin: int)
    requires 0 <= i && i + 1 < |diffs| && Dropped(diffs, i, margin) && (forall j :: 0 <= j < i ==> !Dropped(diffs, j, margin))
    requires Keeps(diffs, i + 1, true, margin) && Source(diffs[i + 1]) != []
    requires Source(diffs[i + 1])[0] != diffs[i].text[0]
    ensures !Exact(diffs, margin)
  {
    hide Text1, Text2, Exact, SameTexts, LeftOut, Kept, KeptWith, Begin, Keeps, Dropped;
    var b, kept, d := Begin(diffs, i, margin), Kept(diffs, i, margin), diffs[i + 1];
    var there := diffs[i].text + Text1(diffs[i + 1..]);
    KeptSoFar(diffs, i, margin);
    KeptSource(diffs, i, margin);
    PastLost(diffs, i, margin);
    Concat(kept, [d]);
    Single(d);
    Single(diffs[i]);
    DifferentClaims(Text1(kept), Source(d), there);
    if Closes(d, margin) {
      ClosedPatch(diffs, i + 1, margin);
      ClaimFails(diffs, b, i + 2, kept + [d], margin);
    } else {
      ClaimStays(diffs, i + 2, margin, Text1(kept) + Source(d));
    }
  }

  /** An insertion comes where the lost record should be. */
  lemma LostBeforeInsertion(diffs: seq<Diff>, i: int, margin: int)
    requires 0 <= i && i + 1 < |diffs| && Dropped(diffs, i, margin) && (forall j :: 0 <= j < i ==> !Dropped(diffs, j, margin))
    requires diffs[i + 1].op == Insert && diffs[i + 1].text != [] && diffs[i + 1].text[0] != diffs[i].text[0]
    ensures !Exact(diffs, margin)
  {
    hide Text1, Text2, Exact, SameTexts, LeftOut, Kept, KeptWith, Begin, Dropped;
    var b, kept, d := Begin(diffs, i, margin), Kept(diffs, i, margin), diffs[i + 1];
    KeptSoFar(diffs, i, margin);
    assert Text2(kept) == Text2(diffs[b..i]) by { SameTextsAre(kept, diffs[b..i]); }
    PastLost(diffs, i, margin);
    Concat(kept, [d]);
    Single(d);
    assert diffs[b..i + 2] == diffs[b..i] + [diffs[i]] + [d];
    Concat(diffs[b..i] + [diffs[i]], [d]);
    Concat(diffs[b..i], [diffs[i]]);
    Single(diffs[i]);
    ResultStays(diffs, i + 2, margin, |Text2(kept)|);
  }

  lemma SameTextsAre(kept: seq<Diff>, all: seq<Diff>)
    requires SameTexts(kept, all)
    ensures Text1(kept) == Text1(all) && Text2(kept) == Text2(all)
  {
  }

  /** The open patch gives another character at place n than all of its records, and goes on doing so. */
  lemma {:induction false} ResultStays(diffs: seq<Diff>, i: int, margin: int, n: nat)
    requires 0 <= i <= |diffs| && Kept(diffs, i, margin) != []
    requires var x, y := Text2(Kept(diffs, i, margin)), Text2(diffs[Begin(diffs, i, margin)..i]);
             n < |x| && n < |y| && x[n] != y[n]
    ensures !Exact(diffs, margin)
    decreases |diffs| - i
  {
    hide Text1, Text2, Exact, Amounts, Kept, KeptWith, Begin;
    var b, kept := Begin(diffs, i, margin), Kept(diffs, i, margin);
    if i < |diffs| {
      PatchGoesOn(diffs, i, margin);
      Concat(kept, [diffs[i]]);
      assert diffs[b..i + 1] == diffs[b..i] + [diffs[i]];
      Concat(diffs[b..i], [diffs[i]]);
      if Closes(diffs[i], margin) {
        ClosedPatch(diffs, i, margin);
        ResultFails(diffs, b, i + 1, KeptWith(diffs, i, margin), n);
      } else {
        ResultStays(diffs, i + 1, margin, n);
      }
    } else {
      ResultFails(diffs, b, i, kept, n);
      if Exact(diffs, margin) {
        ExactAtEnd(diffs, margin);
      }
    }
  }

  lemma ResultFails(diffs: seq<Diff>, b: int, j: int, kept: seq<Diff>, n: nat)
    requires 0 <= b <= j <= |diffs| && n < |Text2(kept)| && n < |Text2(diffs[b..j])| && Text2(kept)[n] != Text2(diffs[b..j])[n]
    ensures !Amounts(diffs, b, j, kept)
  {
    hide Text1, Text2;
    if Text1(kept) <= Text1(diffs[b..]) {
      DifferentResults(Text2(kept), Text1(diffs[b..])[|Text1(kept)|..], Text2(diffs[b..j]), Text1(diffs[j..]), n);
    }
  }

  lemma DifferentResults(x: Text, u: Text, y: Text, v: Text, n: nat)
    requires n < |x| && n < |y| && x[n] != y[n]
    ensures x + u != y + v
  {
    assert (x + u)[n] == x[n] && (y + v)[n] == y[n];
  }

  /** One more record behind an open patch that it does not close. */
  lemma PatchGoesOn(diffs: seq<Diff>, i: int, margin: int)
    requires 0 <= i < |diffs| && Kept(diffs, i, margin) != []
    ensures KeptWith(diffs, i, margin) == Kept(diffs, i, margin) || KeptWith(diffs, i, margin) == Kept(diffs, i, margin) + [diffs[i]]
    ensures !Closes(diffs[i], margin) ==>
              Kept(diffs, i + 1, margin) == KeptWith(diffs, i, margin) && Begin(diffs, i + 1, margin) == Begin(diffs, i, margin)
  {
  }

  lemma ExactAtEnd(diffs: seq<Diff>, margin: int)
    requires Exact(diffs, margin) && Kept(diffs, |diffs|, margin) != []
    ensures Amounts(diffs, Begin(diffs, |diffs|, margin), |diffs|, Kept(diffs, |diffs|, margin))
  {
  }

  lemma DifferentClaims(front: Text, x: Text, y: Text)
    requires x != [] && y != [] && x[0] != y[0]
    ensures !(front + x <= front + y)
  {
    assert (front + x)[|front|] == x[0] && (front + y)[|front|] == y[0];
  }

  lemma ClaimFails(diffs: seq<Diff>, b: int, j: int, kept: seq<Diff>, margin: int)
    requires 0 <= b <= j <= |diffs| && !(Text1(kept) <= Text1(diffs[b..]))
    ensures !Amounts(diffs, b, j, kept)
  {
  }

  /** The patch skips the lost record and takes the next one. */
  lemma PastLost(diffs: seq<Diff>, i: int, margin: int)
    requires 0 <= i && i + 1 < |diffs| && Dropped(diffs, i, margin) && Keeps(diffs, i + 1, true, margin)
    ensures diffs[i].op == Equal && diffs[i].text != []
    ensures var b, kept := Begin(diffs, i, margin), Kept(diffs, i, margin) + [diffs[i + 1]];
            && Kept(diffs, i + 1, margin) != [] && Begin(diffs, i + 1, margin) == b && KeptWith(diffs, i + 1, margin) == kept
            && (!Closes(diffs[i + 1], margin) ==> Kept(diffs, i + 2, margin) == kept && Begin(diffs, i + 2, margin) == b)
  {
    var kept := Kept(diffs, i, margin);
    assert KeptWith(diffs, i, margin) == kept;
    assert Kept(diffs, i + 1, margin) == kept;
    assert KeptWith(diffs, i + 1, margin) == kept + [diffs[i + 1]];
  }

  /** Up to the first lost record, what is kept has the texts of all. */
  lemma {:induction false} KeptSoFar(diffs: seq<Diff>, i: int, margin: int)
    requires 0 <= i < |diffs| && forall j :: 0 <= j < i ==> !Dropped(diffs, j, margin)
    ensures SameTexts(Kept(diffs, i, margin), diffs[Begin(diffs, i, margin)..i])
    decreases i
  {
    hide SameTexts, LeftOut;
    var b := Begin(diffs, i, margin);
    if Kept(diffs, i, margin) == [] {
      assert diffs[b..i] == [];
      NoneKept();
    } else {
      KeptSoFar(diffs, i - 1, margin);
      KeptIsWell(diffs, i - 1, margin);
      assert b == Begin(diffs, i - 1, margin) && diffs[b..i] == diffs[b..i - 1] + [diffs[i - 1]];
      OneMore(Kept(diffs, i - 1, margin), diffs[b..i - 1], diffs[i - 1]);
      assert !Dropped(diffs, i - 1, margin);
    }
  }

  lemma KeptSource(diffs: seq<Diff>, i: int, margin: int)
    requires 0 <= i < |diffs| && SameTexts(Kept(diffs, i, margin), diffs[Begin(diffs, i, margin)..i])
    ensures Text1(diffs[Begin(diffs, i, margin)..])
         == Text1(Kept(diffs, i, margin)) + (Source(diffs[i]) + Text1(diffs[i + 1..]))
  {
    hide Text1, Text2, Kept, Begin;
    var b := Begin(diffs, i, margin);
    SplitAt(diffs, b, i);
    SplitAt(diffs, i, i + 1);
    assert diffs[i..i + 1] == [diffs[i]];
    Single(diffs[i]);
  }

  /** Delete "a", keep "b", delete "c", keep "b": the first kept "b" equals the last record. */
  const TWIN_A := Diff(Delete, [97])
  const TWIN_B := Diff(Equal, [98])
  const TWIN_C := Diff(Delete, [99])

  lemma TwinIsDropped(margin: int)
    requires 1 <= margin
    ensures var diffs := [TWIN_A, TWIN_B, TWIN_C, TWIN_B];
            Dropped(diffs, 1, margin) && Kept(diffs, 4, margin) == [TWIN_A, TWIN_C] && Begin(diffs, 4, margin) == 0
  {
    var diffs := [TWIN_A, TWIN_B, TWIN_C, TWIN_B];
    assert Kept(diffs, 1, margin) == [] + [TWIN_A] == [TWIN_A];
    assert Kept(diffs, 2, margin) == [TWIN_A];
    assert Kept(diffs, 3, margin) == [TWIN_A] + [TWIN_C];
  }

  lemma TwinBreaks(margin: int)
    requires 1 <= margin
    ensures !Exact([TWIN_A, TWIN_B, TWIN_C, TWIN_B], margin)
  {
    var diffs := [TWIN_A, TWIN_B, TWIN_C, TWIN_B];
    TwinIsDropped(margin);
    LostRecordBreaks(diffs, 1, margin);
  }

  /** Losing a record is not always harmful: delete "a", keep "a", delete "a", keep "a" loses one as
      well, but what is kept claims the same text and does the same. */
  lemma DropMayBeHarmless(margin: int)
    requires 1 <= margin
    ensures var d, e := Diff(Delete, [97]), Diff(Equal, [97]);
            !NothingDropped([d, e, d, e], margin) && Exact([d, e, d, e], margin)
  {
    var d, e := Diff(Delete, [97]), Diff(Equal, [97]);
    var diffs := [d, e, d, e];
    HarmlessKept(d, e, margin);
    NoneCloses(diffs, 4, margin);
    hide Text1, Text2, Kept, ExactBefore;
    assert Amounts(diffs, 0, 4, [d, d]) by {
      FourTexts(d, e);
      TwoTexts(d, d);
      Single(d);
      Nothing();
      assert diffs[0..] == diffs && diffs[0..4] == diffs && diffs[4..] == [];
      var two: Text := [97, 97];
      assert ([97] + [97] + [97] + [97]) == two + two && [97] + [97] == two && two + [] == two && [] + two == two;
    }
  }

  lemma HarmlessKept(d: Diff, e: Diff, margin: int)
    requires 1 <= margin && d.op == Delete && e.op == Equal && |e.text| == 1
    ensures var diffs := [d, e, d, e]; Dropped(diffs, 1, margin) && Kept(diffs, 4, margin) == [d, d] && Begin(diffs, 4, margin) == 0
  {
    var diffs := [d, e, d, e];
    assert Kept(diffs, 1, margin) == [] + [d] == [d];
    assert Kept(diffs, 2, margin) == [d];
    assert Kept(diffs, 3, margin) == [d] + [d] == Kept(diffs, 4, margin);
    assert Begin(diffs, 1, margin) == 0;
  }

  lemma {:induction false} NoneCloses(diffs: seq<Diff>, i: int, margin: int)
    requires 0 <= i <= |diffs| && forall j :: 0 <= j < i ==> !Closes(diffs[j], margin)
    ensures ExactBefore(diffs, i, margin)
    decreases i
  {
    if i > 0 {
      NoneCloses(diffs, i - 1, margin);
    }
  }

  lemma FourTexts(d: Diff, e: Diff)
    requires d.op == Delete && e.op == Equal
    ensures Text1([d, e, d, e]) == d.text + e.text + d.text + e.text && Text2([d, e, d, e]) == e.text + e.text
  {
    hide Text1, Text2;
    assert [d, e, d, e] == [d, e] + [d, e];
    Concat([d, e], [d, e]);
    TwoTexts(d, e);
    Assoc(d.text + e.text, d.text, e.text);
  }

  /** Keep "b", insert "c", keep "b": no patch is open at the first record, so none is lost. */
  lemma OutsideIsHarmless(margin: int)
    ensures NothingDropped([TWIN_B, Diff(Insert, [99]), TWIN_B], margin)
  {
    var diffs := [TWIN_B, Diff(Insert, [99]), TWIN_B];
    assert Kept(diffs, 0, margin) == [];
  }
}
