/** The text form of a list of patches, and reading it back. */
module PatchText {
  import opened DiffList
  import opened Options
  import opened Patches
  import opened TextCoding
  import opened Numerals
  import opened DeltaText
  import opened PatchHeader

  const NEWLINE: Char16 := 10
  const ZERO: Char16 := 48

  // ----- writing -----

  ghost function CoordText(start: int, length: int): Text {
    if length == 0 then Decimal(start) + [COMMA, ZERO]
    else if length == 1 then Decimal(start + 1)
    else Decimal(start + 1) + [COMMA] + Decimal(length)
  }

  ghost function HeaderText(p: Patch): Text {
    OPENING + CoordText(p.start1, p.length1) + MIDDLE + CoordText(p.start2, p.length2) + CLOSING
  }

  function Sign(op: Operation): Char16 {
    match op case Insert => PLUS_SIGN case Delete => MINUS case Equal => SPACE
  }

  ghost function Line(d: Diff): Text {
    [Sign(d.op)] + Encode(d.text)
  }

  ghost function Body(diffs: seq<Diff>): Text {
    if diffs == [] then [] else Body(diffs[..|diffs| - 1]) + (Line(diffs[|diffs| - 1]) + [NEWLINE])
  }

  ghost function PatchLines(p: Patch): Text {
    HeaderText(p) + [NEWLINE] + Body(p.diffs)
  }

  ghost function PatchesText(patches: seq<Patch>): Text {
    if patches == [] then [] else PatchesText(patches[..|patches| - 1]) + PatchLines(patches[|patches| - 1])
  }

  /** A header from the description of the format, with lines of all three kinds: as in a unified diff, the sign says
      whether a line is only in the source, only in the destination, or in both. */
  lemma DocumentedPatch()
    ensures var p := Patch([Diff(Equal, Chars("a")), Diff(Delete, Chars("b")), Diff(Insert, Chars("c"))], 381, 480, 8, 9);
            PatchLines(p) == Chars("@@ -382,8 +481,9 @@\n a\n-b\n+c\n")
  {
    hide Chars;
    PatchChars();
    var a: Text, b: Text, c: Text := [97], [98], [99];
    var diffs := [Diff(Equal, a), Diff(Delete, b), Diff(Insert, c)];
    DocumentedHeader(diffs);
    EncodeSafe(a);
    EncodeSafe(b);
    EncodeSafe(c);
    hide Encode, HeaderText;
    assert diffs[..2][..1] == diffs[..1] && diffs[..1][..0] == [] && diffs[..2] == [Diff(Equal, a), Diff(Delete, b)];
    assert Body(diffs[..1]) == [32, 97, 10];
    assert Body(diffs[..2]) == [32, 97, 10] + [45, 98, 10];
    assert Body(diffs) == [32, 97, 10] + [45, 98, 10] + [43, 99, 10];
  }

  lemma PatchChars()
    ensures Chars("a") == [97] && Chars("b") == [98] && Chars("c") == [99]
    ensures Chars("@@ -382,8 +481,9 @@\n a\n-b\n+c\n")
            == Chars("@@ -382,8 +481,9 @@") + [10] + ([32, 97, 10] + [45, 98, 10] + [43, 99, 10])
  {
  }

  lemma DocumentedHeader(diffs: seq<Diff>)
    ensures HeaderText(Patch(diffs, 381, 480, 8, 9)) == Chars("@@ -382,8 +481,9 @@")
  {
    hide Chars;
    HeaderLineChars();
    DigitsOf(382);
    DigitsOf(481);
    assert CoordText(381, 8) == [51, 56, 50, 44, 56] && CoordText(480, 9) == [52, 56, 49, 44, 57];
  }

  lemma HeaderLineChars()
    ensures Chars("@@ -382,8 +481,9 @@") == [64, 64, 32, 45] + [51, 56, 50, 44, 56] + [32, 43] + [52, 56, 49, 44, 57] + [32, 64, 64]
  {
  }

  /** A number of three digits. */
  lemma DigitsOf(n: nat)
    requires 100 <= n < 1000
    ensures Digits(n) == [48 + n / 100, 48 + n / 10 % 10, 48 + n % 10]
  {
    assert n / 10 / 10 == n / 100;
    assert Digits(n / 10) == [48 + n / 100, 48 + n / 10 % 10];
  }

  /** The coordinates are within the range of int. */
  predicate Fits(p: Patch) {
    && -INT_MAX <= p.start1 < INT_MAX && -INT_MAX <= p.start2 < INT_MAX
    && -INT_MAX <= p.length1 <= INT_MAX && -INT_MAX <= p.length2 <= INT_MAX
  }

  method CoordToString(start: int, length: int) returns (t: Text)
    requires -INT_MAX <= start < INT_MAX && -INT_MAX <= length <= INT_MAX
    ensures t == CoordText(start, length)
  {
    hide Decimal;
    if length == 0 {
      t := ToString(start);
      t := t + [COMMA, ZERO];
    } else if length == 1 {
      t := ToString(start + 1);
    } else {
      t := ToString(start + 1);
      var n := ToString(length);
      t := t + [COMMA] + n;
    }
  }

  /** Patch::toString */
  method PatchToString(p: Patch) returns (text: Text)
    requires Fits(p)
    ensures text == PatchLines(p)
  {
    hide CoordText, Line;
    var coords1 := CoordToString(p.start1, p.length1);
    var coords2 := CoordToString(p.start2, p.length2);
    ghost var header := HeaderText(p) + [NEWLINE];
    text := OPENING + coords1 + MIDDLE + coords2 + CLOSING + [NEWLINE];
    for i := 0 to |p.diffs|
      invariant text == header + Body(p.diffs[..i])
    {
      assert p.diffs[..i + 1][..i] == p.diffs[..i];
      Assoc(header, Body(p.diffs[..i]), Line(p.diffs[i]) + [NEWLINE]);
      text := AppendLine(text, p.diffs[i]);
    }
    assert p.diffs[..|p.diffs|] == p.diffs;
  }

  method AppendLine(text0: Text, d: Diff) returns (text: Text)
    ensures text == text0 + (Line(d) + [NEWLINE])
  {
    hide Encode;
    text := text0 + [Sign(d.op)];
    text := AppendPercentEncoded(text, d.text);
    text := text + [NEWLINE];
  }

  /** patch_toText */
  method PatchToText(patches: seq<Patch>) returns (text: Text)
    requires forall i :: 0 <= i < |patches| ==> Fits(patches[i])
    ensures text == PatchesText(patches)
  {
    hide PatchLines;
    text := [];
    for i := 0 to |patches|
      invariant text == PatchesText(patches[..i])
    {
      assert patches[..i + 1][..i] == patches[..i];
      var s := PatchToString(patches[i]);
      text := text + s;
    }
    assert patches[..|patches|] == patches;
  }

  // ----- reading -----

  /** The coordinates that a pair of fields stands for: an empty length is 1, and only a length of 0
      leaves the start as it is written. */
  function StartOf(start: Text, length: Text): int {
    if length == [ZERO] then ToInt(start) else ToInt(start) - 1
  }

  function LengthOf(length: Text): int {
    if length == [] then 1 else if length == [ZERO] then 0 else ToInt(length)
  }

  function PatchOf(f: Fields, diffs: seq<Diff>): Patch {
    Patch(diffs, StartOf(f.start1, f.length1), StartOf(f.start2, f.length2), LengthOf(f.length1), LengthOf(f.length2))
  }

  function OperationOf(sign: Char16): Option<Operation> {
    if sign == MINUS then Some(Delete) else if sign == PLUS_SIGN then Some(Insert)
    else if sign == SPACE then Some(Equal) else None
  }

  /** The records up to the next header or the end, and what is left; None where reading throws. */
  ghost function ReadBody(rest: Text): (r: Option<(seq<Diff>, Text)>)
    ensures r.Some? ==> |r.value.1| <= |rest|
    decreases |rest|
  {
    if rest == [] then Some(([], []))
    else
      var n := TokenLen(rest, NEWLINE);
      if n == 0 then ReadBody(AfterToken(rest, NEWLINE))
      else if Decode(rest[1..n]).None? then None
      else if rest[0] == AT then Some(([], rest))
      else if OperationOf(rest[0]).None? then None
      else
        match ReadBody(AfterToken(rest, NEWLINE))
        case None => None
        case Some(b) => Some(([Diff(OperationOf(rest[0]).value, Decode(rest[1..n]).value)] + b.0, b.1))
  }

  /** The patches of a text; None where reading throws. */
  ghost function ReadPatches(rest: Text): Option<seq<Patch>>
    decreases |rest|
  {
    if rest == [] then Some([])
    else
      var n := TokenLen(rest, NEWLINE);
      if n == 0 then ReadPatches(rest[1..])
      else if Match(rest[..n]).None? then None
      else
        match ReadBody(AfterToken(rest, NEWLINE))
        case None => None
        case Some(b) => PushPatch(PatchOf(Match(rest[..n]).value, b.0), ReadPatches(b.1))
  }

  function PushPatch(p: Patch, rest: Option<seq<Patch>>): Option<seq<Patch>> {
    match rest
    case None => None
    case Some(ps) => Some([p] + ps)
  }

  function PushPatches(ps: seq<Patch>, rest: Option<seq<Patch>>): Option<seq<Patch>> {
    match rest
    case None => None
    case Some(qs) => Some(ps + qs)
  }

  function PushDiffs(ds: seq<Diff>, rest: Option<(seq<Diff>, Text)>): Option<(seq<Diff>, Text)> {
    match rest
    case None => None
    case Some(b) => Some((ds + b.0, b.1))
  }

  /** Where the body reader stands. */
  ghost predicate ReadingBody(textline: Text, from: nat, diffs: seq<Diff>, text: nat) {
    ReadBody(From(textline, from)) == PushDiffs(diffs, ReadBody(From(textline, text)))
  }

  /** The inner loop of patch_fromText: stops at the next header. */
  method ParseBody(textline: Text, from: nat) returns (r: Option<(seq<Diff>, nat)>)
    ensures r.None? <==> ReadBody(From(textline, from)).None?
    ensures r.Some? ==> from <= r.value.1 && ReadBody(From(textline, from)) == Some((r.value.0, From(textline, r.value.1)))
  {
    hide ReadBody, Decode, TokenLen, ReadingBody;
    var diffs: seq<Diff>, text := [], from;
    BodyStarts(textline, from);
    while text < |textline|
      invariant from <= text && ReadingBody(textline, from, diffs, text)
      decreases |textline| - text
    {
      BodyStep(textline, from, diffs, text);
      var textLen := NextToken(textline, NEWLINE, text);
      if textLen != 0 {
        var sign := textline[text];
        var line := DecodeText(textline[text + 1..text + textLen]);
        if line.None? {
          return None;
        }
        if sign == AT {
          break;
        }
        var op := OperationOf(sign);
        if op.None? {
          return None;
        }
        diffs := diffs + [Diff(op.value, line.value)];
      }
      text := text + textLen + 1;
    }
    BodyEnds(textline, from, diffs, text);
    r := Some((diffs, text));
  }

  lemma BodyStarts(textline: Text, from: nat)
    ensures ReadingBody(textline, from, [], from)
  {
    hide ReadBody;
    var r := ReadBody(From(textline, from));
    if r.Some? {
      assert [] + r.value.0 == r.value.0;
    }
  }

  /** At a header or at the end nothing more is read. */
  ghost predicate AtEnd(textline: Text, text: nat) {
    text >= |textline|
    || (textline[text] == AT && 0 < TokenLen(textline[text..], NEWLINE) <= |textline| - text && Decode(textline[text + 1..text + TokenLen(textline[text..], NEWLINE)]).Some?)
  }

  lemma SliceTail(s: Text, a: nat, c: nat, d: nat)
    requires a <= c <= d <= |s|
    ensures s[a..][c - a..d - a] == s[c..d]
  {
    forall i | 0 <= i < d - c ensures s[a..][c - a..d - a][i] == s[c..d][i] {
      assert s[a..][c - a + i] == s[c + i];
    }
  }

  lemma UnfoldBody(rest: Text)
    requires rest != []
    ensures var n := TokenLen(rest, NEWLINE);
            var next := ReadBody(AfterToken(rest, NEWLINE));
            ReadBody(rest)
            == if n == 0 then next
               else if Decode(rest[1..n]).None? then None
               else if rest[0] == AT then Some(([], rest))
               else if OperationOf(rest[0]).None? then None
               else PushDiffs([Diff(OperationOf(rest[0]).value, Decode(rest[1..n]).value)], next)
  {
    hide Decode, TokenLen, OperationOf, AfterToken;
  }

  lemma BodyAtEnd(textline: Text, text: nat)
    requires AtEnd(textline, text)
    ensures ReadBody(From(textline, text)) == Some(([], From(textline, text)))
  {
    hide Decode, TokenLen, ReadBody;
    if text < |textline| {
      var rest := textline[text..];
      var n := TokenLen(rest, NEWLINE);
      UnfoldBody(rest);
      TokenStarts(rest);
      SliceTail(textline, text, text + 1, text + n);
    } else {
      EmptyBody();
    }
  }

  lemma EmptyBody()
    ensures ReadBody([]) == Some(([], []))
  {
  }

  lemma TokenStarts(rest: Text)
    requires rest != [] && rest[0] == AT
    ensures TokenLen(rest, NEWLINE) != 0
  {
  }

  lemma BodyEnds(textline: Text, from: nat, diffs: seq<Diff>, text: nat)
    requires ReadingBody(textline, from, diffs, text) && AtEnd(textline, text)
    ensures ReadBody(From(textline, from)) == Some((diffs, From(textline, text)))
  {
    hide AtEnd, ReadBody, From;
    BodyAtEnd(textline, text);
    assert diffs + [] == diffs;
  }

  lemma BodyStep(textline: Text, from: nat, diffs: seq<Diff>, text: nat)
    requires ReadingBody(textline, from, diffs, text) && text < |textline|
    ensures var n := TokenLen(textline[text..], NEWLINE);
            && text + n <= |textline|
            && if n == 0 then ReadingBody(textline, from, diffs, text + 1)
               else
                 var line := Decode(textline[text + 1..text + n]);
                 if line.None? then ReadBody(From(textline, from)).None?
                 else if textline[text] == AT then AtEnd(textline, text)
                 else if OperationOf(textline[text]).None? then ReadBody(From(textline, from)).None?
                 else ReadingBody(textline, from, diffs + [Diff(OperationOf(textline[text]).value, line.value)], text + n + 1)
  {
    hide Decode, TokenLen, OperationOf, ReadBody;
    var rest := textline[text..];
    var n := TokenLen(rest, NEWLINE);
    AfterFrom(textline, text);
    UnfoldBody(rest);
    if n != 0 {
      SliceTail(textline, text, text + 1, text + n);
      var line, op := Decode(rest[1..n]), OperationOf(rest[0]);
      if line.Some? && op.Some? {
        PushDiffsMore(diffs, Diff(op.value, line.value), ReadBody(AfterToken(rest, NEWLINE)));
      }
    }
  }

  lemma PushDiffsMore(ds: seq<Diff>, d: Diff, r: Option<(seq<Diff>, Text)>)
    ensures PushDiffs(ds, PushDiffs([d], r)) == PushDiffs(ds + [d], r)
  {
    if r.Some? {
      Assoc(ds, [d], r.value.0);
    }
  }

  lemma AfterFrom(textline: Text, text: nat)
    requires text < |textline|
    ensures var n := TokenLen(textline[text..], NEWLINE);
            text + n <= |textline| && AfterToken(textline[text..], NEWLINE) == From(textline, text + n + 1)
  {
    var n := TokenLen(textline[text..], NEWLINE);
    if text + n < |textline| {
      assert textline[text..][n + 1..] == textline[text + n + 1..];
    }
  }

  /** Where the reader stands. */
  ghost predicate ReadingPatches(textline: Text, patches: seq<Patch>, text: nat) {
    ReadPatches(textline) == PushPatches(patches, ReadPatches(From(textline, text)))
  }

  lemma PatchesStart(textline: Text)
    ensures ReadingPatches(textline, [], 0)
  {
    hide ReadPatches;
    assert From(textline, 0) == textline;
    var r := ReadPatches(textline);
    assert r.Some? ==> [] + r.value == r.value;
  }

  lemma PatchesEnd(textline: Text, patches: seq<Patch>, text: nat)
    requires ReadingPatches(textline, patches, text) && text >= |textline|
    ensures ReadPatches(textline) == Some(patches)
  {
    assert ReadPatches([]) == Some([]);
    hide ReadPatches;
    assert patches + [] == patches;
  }

  lemma TokenEnds(textline: Text, text: nat)
    requires text < |textline| < SIZE_T / 2
    ensures Ends(textline, text + TokenLen(textline[text..], NEWLINE))
  {
    var rest := textline[text..];
    var n := TokenLen(rest, NEWLINE);
    hide TokenLen;
    assert n < |rest| ==> rest[n] == NEWLINE;
  }

  lemma SkipBlank(textline: Text, patches: seq<Patch>, text: nat)
    requires ReadingPatches(textline, patches, text) && text < |textline| && TokenLen(textline[text..], NEWLINE) == 0
    ensures ReadingPatches(textline, patches, text + 1)
  {
    hide TokenLen, ReadBody, Match, PatchOf;
    assert textline[text..][1..] == From(textline, text + 1);
  }

  /** A header and its body, at a place where a patch starts. */
  ghost function PatchAt(textline: Text, text: nat): Option<(Patch, Text)>
    requires text < |textline|
  {
    var n := TokenLen(textline[text..], NEWLINE);
    var header, body := Match(textline[text..][..n]), ReadBody(From(textline, text + n + 1));
    if header.None? || body.None? then None else Some((PatchOf(header.value, body.value.0), body.value.1))
  }

  lemma UnfoldPatches(rest: Text)
    requires rest != [] && TokenLen(rest, NEWLINE) != 0
    ensures var header, body := Match(rest[..TokenLen(rest, NEWLINE)]), ReadBody(AfterToken(rest, NEWLINE));
            ReadPatches(rest) == if header.None? || body.None? then None
                                 else PushPatch(PatchOf(header.value, body.value.0), ReadPatches(body.value.1))
  {
    hide TokenLen, Match, ReadBody, PatchOf, AfterToken;
  }

  lemma PatchStep(textline: Text, patches: seq<Patch>, text: nat)
    requires ReadingPatches(textline, patches, text) && text < |textline|
    requires TokenLen(textline[text..], NEWLINE) != 0
    ensures var p := PatchAt(textline, text);
            if p.None? then ReadPatches(textline).None?
            else ReadPatches(textline) == PushPatches(patches + [p.value.0], ReadPatches(p.value.1))
  {
    hide ReadBody, Match, TokenLen, PatchOf, ReadPatches, AfterToken;
    var rest := textline[text..];
    AfterFrom(textline, text);
    UnfoldPatches(rest);
    var p := PatchAt(textline, text);
    if p.Some? {
      PushPatchMore(patches, p.value.0, ReadPatches(p.value.1));
    }
  }

  lemma PushPatchMore(ps: seq<Patch>, p: Patch, r: Option<seq<Patch>>)
    ensures PushPatches(ps, PushPatch(p, r)) == PushPatches(ps + [p], r)
  {
    if r.Some? {
      Assoc(ps, [p], r.value);
    }
  }

  /** patch_fromText; None where it throws. */
  method PatchFromText(textline: Text) returns (r: Option<seq<Patch>>)
    requires |textline| <= INT_MAX
    ensures r == ReadPatches(textline)
  {
    hide ReadPatches, ReadBody, Match, TokenLen, Ends, PatchOf;
    var patches: seq<Patch>, text := [], 0;
    PatchesStart(textline);
    while text < |textline|
      invariant 0 <= text && ReadingPatches(textline, patches, text)
      decreases |textline| - text
    {
      var textLen := NextToken(textline, NEWLINE, text);
      if textLen == 0 {
        SkipBlank(textline, patches, text);
        text := text + 1;
      } else {
        TokenEnds(textline, text);
        PatchStep(textline, patches, text);
        assert textline[text..][..textLen] == textline[text..text + textLen];
        var fields := ParseHeader(textline, text, textLen);
        if fields.None? {
          return None;
        }
        var body := ParseBody(textline, text + textLen + 1);
        if body.None? {
          return None;
        }
        patches := patches + [PatchOf(fields.value, body.value.0)];
        text := body.value.1;
      }
    }
    PatchesEnd(textline, patches, text);
    r := Some(patches);
  }

  // ----- the round trip -----

  /** Coordinates that the header can express. */
  predicate CoordPrintable(start: int, length: int) {
    0 <= length && (if length == 0 then 0 <= start else -1 <= start)
  }

  predicate Printable(p: Patch) {
    CoordPrintable(p.start1, p.length1) && CoordPrintable(p.start2, p.length2)
  }

  ghost function ReturnedText(diffs: seq<Diff>): seq<Diff> {
    if diffs == [] then [] else [Diff(diffs[0].op, Normalized(diffs[0].text))] + ReturnedText(diffs[1..])
  }

  ghost function ReturnedPatch(p: Patch): Patch {
    p.(diffs := ReturnedText(p.diffs))
  }

  ghost predicate AllPaired(diffs: seq<Diff>) {
    forall i :: 0 <= i < |diffs| ==> Paired(diffs[i].text)
  }

  lemma {:induction false} ReturnedTextIff(diffs: seq<Diff>)
    ensures ReturnedText(diffs) == diffs <==> AllPaired(diffs)
    decreases |diffs|
  {
    hide Normalized, Paired;
    if diffs != [] {
      ReturnedTextIff(diffs[1..]);
      NormalizedIff(diffs[0].text);
      assert diffs == [diffs[0]] + diffs[1..];
      assert ReturnedText(diffs)[1..] == ReturnedText(diffs[1..]);
      if ReturnedText(diffs) == diffs {
        assert ReturnedText(diffs)[0] == diffs[0];
      }
    }
  }

  // ----- one header -----

  ghost predicate CoordReturns(start: int, length: int, rest: Text) {
    var c := ReadCoord(CoordText(start, length) + rest);
    if CoordPrintable(start, length)
    then c.Some? && c.value.rest == rest && StartOf(c.value.start, c.value.length) == start
         && LengthOf(c.value.length) == length
    else c.None? || (c.value.rest != [] && c.value.rest[0] == MINUS)
  }

  /** A pair of numbers reads back, or stops at its minus sign. */
  lemma CoordBack(start: int, length: int, rest: Text)
    requires -INT_MAX <= start < INT_MAX && -INT_MAX <= length <= INT_MAX && rest != [] && rest[0] == SPACE
    ensures CoordReturns(start, length, rest)
  {
    if (if length == 0 then start else start + 1) < 0 {
      MinusFirst(start, length, rest);
    } else if length == 1 {
      LoneCoord(start, rest);
    } else if length < 0 {
      MinusSecond(start, length, rest);
    } else {
      BothCoords(start, length, rest);
    }
  }

  lemma MinusFirst(start: int, length: int, rest: Text)
    requires (if length == 0 then start else start + 1) < 0
    ensures CoordReturns(start, length, rest)
  {
    hide ReadCoord, Digits, StartOf, LengthOf;
    var s := CoordText(start, length) + rest;
    CoordLength(s);
    assert s[0] == MINUS;
  }

  lemma LoneCoord(start: int, rest: Text)
    requires -1 <= start < INT_MAX && rest != [] && rest[0] == SPACE
    ensures CoordReturns(start, 1, rest)
  {
    hide ReadCoord, Digits, ToInt;
    CoordOfDigits(Digits(start + 1), rest);
    ToIntDigits(start + 1);
  }

  lemma MinusSecond(start: int, length: int, rest: Text)
    requires -1 <= start < INT_MAX && length < 0
    ensures CoordReturns(start, length, rest)
  {
    hide ReadCoord, Digits, StartOf, LengthOf;
    var tail: Text := [MINUS] + Digits(-length) + rest;
    assert CoordText(start, length) + rest == Digits(start + 1) + [COMMA] + [] + tail;
    CoordOfPair(Digits(start + 1), [], tail);
  }

  lemma BothCoords(start: int, length: int, rest: Text)
    requires -1 <= start < INT_MAX && 0 <= length <= INT_MAX && length != 1 && (length == 0 ==> 0 <= start)
    requires rest != [] && rest[0] == SPACE
    ensures CoordReturns(start, length, rest)
  {
    hide ReadCoord, Digits, ToInt;
    var first := if length == 0 then start else start + 1;
    var second: Text := if length == 0 then [ZERO] else Digits(length);
    assert CoordText(start, length) == Digits(first) + [COMMA] + second by {
      assert [COMMA, ZERO] == [COMMA] + [ZERO];
      Assoc(Digits(first), [COMMA], [ZERO]);
    }
    CoordOfPair(Digits(first), second, rest);
    ToIntDigits(first);
    if length > 1 {
      ToIntDigits(length);
      LongDigits(length);
    }
  }

  /** Only zero is written as the digit zero. */
  lemma LongDigits(n: nat)
    requires n > 1
    ensures Digits(n) != [ZERO] && Digits(n) != []
  {
    NumberDigits(n);
    assert Number([ZERO], 0) == 0 by {
      assert [ZERO][1..] == [];
    }
  }

  lemma CoordOfDigits(d: Text, rest: Text)
    requires d != [] && AllDigits(d) && rest != [] && rest[0] == SPACE
    ensures ReadCoord(d + rest) == Some(Coord(d, [], rest))
  {
    hide ReadCoord, DigitLen;
    assert DropComma(rest) == [] + rest;
    CoordOf(d, rest, [], rest);
  }

  lemma CoordOfPair(d: Text, e: Text, rest: Text)
    requires d != [] && AllDigits(d) && AllDigits(e) && rest != [] && !IsDigit(rest[0])
    ensures ReadCoord(d + [COMMA] + e + rest) == Some(Coord(d, e, rest))
  {
    hide ReadCoord, DigitLen;
    var w := [COMMA] + (e + rest);
    assert w[1..] == e + rest && d + [COMMA] + e + rest == d + w;
    CoordOf(d, w, e, rest);
  }

  /** A header reads back as its coordinates exactly when they can be expressed. */
  lemma HeaderBack(p: Patch, diffs: seq<Diff>)
    requires Fits(p)
    ensures if Printable(p) then Match(HeaderText(p)).Some? && PatchOf(Match(HeaderText(p)).value, diffs) == p.(diffs := diffs)
            else Match(HeaderText(p)).None?
  {
    hide ReadCoord, CoordText, StartOf, LengthOf;
    var h := HeaderText(p);
    var rest2 := CoordText(p.start2, p.length2) + CLOSING;
    var rest1 := MIDDLE + rest2;
    assert h == OPENING + (CoordText(p.start1, p.length1) + rest1);
    assert h[4..] == CoordText(p.start1, p.length1) + rest1 && OPENING <= h;
    CoordBack(p.start1, p.length1, rest1);
    assert rest1[2..] == rest2 && MIDDLE <= rest1;
    CoordBack(p.start2, p.length2, CLOSING);
  }

  // ----- the characters of a header -----

  /** No line end and no escape. */
  ghost predicate HeaderChars(s: Text) {
    forall i :: 0 <= i < |s| ==> s[i] != NEWLINE && s[i] != PERCENT
  }

  lemma CoordChars(start: int, length: int)
    ensures HeaderChars(CoordText(start, length)) && CoordText(start, length) != []
  {
    hide Digits;
  }

  lemma HeaderTextChars(p: Patch)
    ensures HeaderChars(HeaderText(p)) && 0 < |HeaderText(p)| && HeaderText(p)[0] == AT
  {
    hide CoordText;
    CoordChars(p.start1, p.length1);
    CoordChars(p.start2, p.length2);
  }

  /** Text without escapes is never malformed. */
  lemma {:induction false} PlainDecodes(s: Text)
    requires HeaderChars(s)
    ensures Decode(s).Some?
  {
    if s != [] {
      PlainDecodes(s[1..]);
    }
  }

  // ----- one body -----

  lemma {:induction false} BodyFront(diffs: seq<Diff>)
    requires diffs != []
    ensures Body(diffs) == Line(diffs[0]) + [NEWLINE] + Body(diffs[1..])
    decreases |diffs|
  {
    hide Line;
    var n := |diffs| - 1;
    if n == 0 {
      assert diffs[..0] == [] && diffs[1..] == [];
    } else {
      BodyFront(diffs[..n]);
      assert diffs[..n][1..] == diffs[1..][..n - 1];
      Assoc(Line(diffs[0]) + [NEWLINE], Body(diffs[1..][..n - 1]), Line(diffs[n]) + [NEWLINE]);
    }
  }

  /** A body stops before this: at the end, or at a header. */
  ghost predicate Stops(rest: Text) {
    rest == [] || (rest[0] == AT && 0 < TokenLen(rest, NEWLINE) && Decode(rest[1..TokenLen(rest, NEWLINE)]).Some?)
  }

  lemma LineToken(line: Text, rest: Text)
    requires line != [] && forall i :: 0 <= i < |line| ==> line[i] != NEWLINE
    ensures var all := line + [NEWLINE] + rest;
            && TokenLen(all, NEWLINE) == |line| && all[..|line|] == line && all[1..|line|] == line[1..]
            && AfterToken(all, NEWLINE) == rest && all[0] == line[0]
  {
    var all := line + [NEWLINE] + rest;
    TokenLenIs(line, [NEWLINE] + rest, NEWLINE);
    hide TokenLen;
    Assoc(line, [NEWLINE], rest);
    assert all[|line| + 1..] == rest;
    assert |line| < |all|;
  }

  lemma LineBack(d: Diff, rest: Text)
    ensures ReadBody(Line(d) + [NEWLINE] + rest) == PushDiffs([Diff(d.op, Normalized(d.text))], ReadBody(rest))
  {
    var line := Line(d);
    EncodePlain(d.text);
    hide Encode, Normalized, ReadBody, TokenLen, Decode;
    assert line[1..] == Encode(d.text);
    LineToken(line, rest);
    DecodeEncode(d.text);
    UnfoldBody(line + [NEWLINE] + rest);
  }

  lemma {:induction false} BodyBack(diffs: seq<Diff>, rest: Text)
    requires Stops(rest)
    ensures ReadBody(Body(diffs) + rest) == Some((ReturnedText(diffs), rest))
    decreases |diffs|
  {
    hide Line, ReadBody, Stops, Normalized, Body;
    if diffs == [] {
      assert Body([]) == [] by { EmptyText(); }
      assert [] + rest == rest;
      StopsBody(rest);
    } else {
      BodyFront(diffs);
      BodyBack(diffs[1..], rest);
      Assoc(Line(diffs[0]) + [NEWLINE], Body(diffs[1..]), rest);
      LineBack(diffs[0], Body(diffs[1..]) + rest);
    }
  }

  lemma EmptyText()
    ensures Body([]) == [] && PatchesText([]) == [] && ReadPatches([]) == Some([])
  {
  }

  lemma StopsBody(rest: Text)
    requires Stops(rest)
    ensures ReadBody(rest) == Some(([], rest))
  {
    if rest == [] {
      EmptyBody();
    } else {
      hide ReadBody, TokenLen, Decode;
      UnfoldBody(rest);
    }
  }

  // ----- all patches -----

  lemma {:induction false} PatchesFront(patches: seq<Patch>)
    requires patches != []
    ensures PatchesText(patches) == PatchLines(patches[0]) + PatchesText(patches[1..])
    decreases |patches|
  {
    hide PatchLines;
    var n := |patches| - 1;
    if n == 0 {
      assert patches[..0] == [] && patches[1..] == [];
    } else {
      PatchesFront(patches[..n]);
      assert patches[..n][1..] == patches[1..][..n - 1];
      Assoc(PatchLines(patches[0]), PatchesText(patches[1..][..n - 1]), PatchLines(patches[n]));
    }
  }

  lemma HeaderStops(header: Text, rest: Text)
    requires HeaderChars(header) && header != [] && header[0] == AT
    ensures Stops(header + [NEWLINE] + rest)
  {
    LineToken(header, rest);
    PlainDecodes(header[1..]);
    hide TokenLen, Decode;
  }

  lemma PatchesStop(patches: seq<Patch>)
    ensures Stops(PatchesText(patches))
  {
    if patches == [] {
      EmptyText();
    } else {
      var p := patches[0];
      PatchesFront(patches);
      HeaderTextChars(p);
      hide HeaderText, Body, PatchesText, Stops;
      Assoc(HeaderText(p) + [NEWLINE], Body(p.diffs), PatchesText(patches[1..]));
      HeaderStops(HeaderText(p), Body(p.diffs) + PatchesText(patches[1..]));
    }
  }

  ghost function ReturnedPatches(patches: seq<Patch>): seq<Patch> {
    if patches == [] then [] else [ReturnedPatch(patches[0])] + ReturnedPatches(patches[1..])
  }

  ghost predicate AllPrintable(patches: seq<Patch>) {
    forall i :: 0 <= i < |patches| ==> Printable(patches[i])
  }

  ghost predicate AllFit(patches: seq<Patch>) {
    forall i :: 0 <= i < |patches| ==> Fits(patches[i])
  }

  /** One patch in front of others reads back, or stops the reader. */
  lemma PatchBack(p: Patch, rest: Text)
    requires Fits(p) && Stops(rest)
    ensures ReadPatches(PatchLines(p) + rest)
         == if Printable(p) then PushPatch(ReturnedPatch(p), ReadPatches(rest)) else None
  {
    hide HeaderText, TokenLen, Match, ReadBody, ReadPatches, Body, Stops, PatchOf, Normalized, ReturnedText, Printable;
    var all := HeaderText(p) + [NEWLINE] + (Body(p.diffs) + rest);
    Assoc(HeaderText(p) + [NEWLINE], Body(p.diffs), rest);
    HeaderTextChars(p);
    LineToken(HeaderText(p), Body(p.diffs) + rest);
    BodyBack(p.diffs, rest);
    UnfoldPatches(all);
    HeaderBack(p, ReturnedText(p.diffs));
  }

  lemma {:induction false} PatchesBack(patches: seq<Patch>)
    requires AllFit(patches)
    ensures ReadPatches(PatchesText(patches)) == if AllPrintable(patches) then Some(ReturnedPatches(patches)) else None
    decreases |patches|
  {
    hide ReadPatches, PatchesText, PatchLines, Printable, Fits, ReturnedPatch, Stops;
    if patches == [] {
      EmptyText();
    } else {
      PatchesFront(patches);
      PatchesStop(patches[1..]);
      PatchBack(patches[0], PatchesText(patches[1..]));
      PatchesBack(patches[1..]);
      assert AllPrintable(patches) <==> Printable(patches[0]) && AllPrintable(patches[1..]) by {
        if Printable(patches[0]) && AllPrintable(patches[1..]) {
          forall i | 0 <= i < |patches| ensures Printable(patches[i]) {
            assert i > 0 ==> patches[i] == patches[1..][i - 1];
          }
        }
      }
    }
  }

  lemma {:induction false} ReturnedPatchesIff(patches: seq<Patch>)
    ensures |ReturnedPatches(patches)| == |patches|
    ensures ReturnedPatches(patches) == patches <==> forall i :: 0 <= i < |patches| ==> AllPaired(patches[i].diffs)
    decreases |patches|
  {
    hide ReturnedText, AllPaired;
    if patches != [] {
      ReturnedPatchesIff(patches[1..]);
      ReturnedTextIff(patches[0].diffs);
      assert patches == [patches[0]] + patches[1..];
      assert ReturnedPatches(patches)[1..] == ReturnedPatches(patches[1..]);
      if ReturnedPatches(patches) == patches {
        assert ReturnedPatches(patches)[0] == patches[0];
      }
    }
  }

  /** Writing and reading patches: they come back exactly when their coordinates can be expressed and
      the surrogates of their texts are paired. */
  lemma PatchRoundTrip(patches: seq<Patch>)
    requires AllFit(patches)
    ensures ReadPatches(PatchesText(patches)) == Some(patches)
            <==> AllPrintable(patches) && forall i :: 0 <= i < |patches| ==> AllPaired(patches[i].diffs)
  {
    hide ReadPatches, PatchesText, ReturnedPatches, AllPaired, AllPrintable, AllFit;
    PatchesBack(patches);
    ReturnedPatchesIff(patches);
  }

  lemma {:induction false} TextsPaired(diffs: seq<Diff>)
    requires Paired(Text1(diffs)) && Paired(Text2(diffs))
    ensures AllPaired(diffs)
  {
    hide Paired;
    if diffs != [] {
      assert diffs == [diffs[0]] + diffs[1..];
      Concat([diffs[0]], diffs[1..]);
      Single(diffs[0]);
      PairedParts(Source(diffs[0]), Text1(diffs[1..]));
      PairedParts(Destination(diffs[0]), Text2(diffs[1..]));
      TextsPaired(diffs[1..]);
    }
  }

  /** Every text on the way of the patches has paired surrogates. */
  ghost predicate StagesPaired(patches: seq<Patch>, from: Text) {
    Paired(from) && (patches != [] ==> AppliesAt(patches[0], from) && StagesPaired(patches[1..], ApplyOne(patches[0], from)))
  }

  lemma PatchPaired(p: Patch, text: Text)
    requires AppliesAt(p, text) && Paired(text) && Paired(ApplyOne(p, text))
    ensures AllPaired(p.diffs)
  {
    hide Paired, Text1, Text2;
    var x, y := text[..p.start2], text[p.start2 + p.length1..];
    assert text == x + (Text1(p.diffs) + y) && ApplyOne(p, text) == x + (Text2(p.diffs) + y);
    PairedParts(x, Text1(p.diffs) + y);
    PairedParts(Text1(p.diffs), y);
    PairedParts(x, Text2(p.diffs) + y);
    PairedParts(Text2(p.diffs), y);
    TextsPaired(p.diffs);
  }

  lemma {:induction false} StagesAllPaired(patches: seq<Patch>, from: Text, to: Text)
    requires Applies(patches, from, to) && StagesPaired(patches, from)
    ensures forall i :: 0 <= i < |patches| ==> AllPaired(patches[i].diffs)
  {
    hide Paired, AllPaired, AppliesAt, ApplyOne;
    if patches != [] {
      PatchPaired(patches[0], from);
      StagesAllPaired(patches[1..], ApplyOne(patches[0], from), to);
    }
  }

  /** Patches that lead through texts with paired surrogates come back exactly when their coordinates can be
      expressed, even if their records cut through pairs. */
  lemma WellFormedReturn(patches: seq<Patch>, from: Text, to: Text)
    requires AllFit(patches) && Applies(patches, from, to) && StagesPaired(patches, from)
    ensures ReadPatches(PatchesText(patches)) == Some(patches) <==> AllPrintable(patches)
  {
    hide ReadPatches, PatchesText, AllPaired, AllPrintable, AllFit, Applies, StagesPaired;
    StagesAllPaired(patches, from, to);
    PatchRoundTrip(patches);
  }

  /** A patch at position -1 that claims no source text is written with a minus sign, and not read. */
  lemma NegativePositionLost(d: Diff)
    ensures var patches := [Patch([d], -1, -1, 0, 1)]; ReadPatches(PatchesText(patches)) != Some(patches)
  {
    hide ReadPatches, PatchesText, AllPaired;
    var patches := [Patch([d], -1, -1, 0, 1)];
    assert !Printable(patches[0]);
    PatchRoundTrip(patches);
  }
}
