/** The trailer section behind a chunked body: header fields as sections 5.1 and 5.5 of RFC 9110 describe them, one
    line each, up to an empty line. */
module Trailers {
  import opened Bytes
  import opened Options
  import opened Streams
  import opened ChunkedCoding

  const COLON: Byte := 58
  const HEADER_MAX_LENGTH := 8192
  const HEADER_MAX_COUNT := 100

  // ----- the grammar of a field -----

  predicate IsBlank(b: Byte) { b == 32 || b == 9 }

  predicate IsTokenChar(b: Byte) {
    || 48 <= b <= 57 || 65 <= b <= 90 || 97 <= b <= 122 || b == 33 || b == 35 || b == 36 || b == 37 || b == 38 || b == 39
    || b == 42 || b == 43 || b == 45 || b == 46 || b == 94 || b == 95 || b == 96 || b == 124 || b == 126
  }

  predicate IsFieldName(s: seq<Byte>) {
    s != [] && forall i :: 0 <= i < |s| ==> IsTokenChar(s[i])
  }

  /** A visible character, or one above ASCII. */
  predicate IsFieldVchar(b: Byte) { 33 <= b <= 126 || 128 <= b }

  /** Nothing, or visible characters at both ends and blanks at most in between. */
  predicate IsFieldContent(s: seq<Byte>) {
    && (s != [] ==> IsFieldVchar(s[0]) && IsFieldVchar(s[|s| - 1]))
    && forall i :: 0 <= i < |s| ==> IsBlank(s[i]) || IsFieldVchar(s[i])
  }

  ghost predicate AllBlank(s: seq<Byte>) {
    forall i :: 0 <= i < |s| ==> IsBlank(s[i])
  }

  /** The line is the name, a colon and the value, with blanks around the value. */
  ghost predicate HeaderIs(line: seq<Byte>, f: Field) {
    && IsFieldName(f.name) && IsFieldContent(f.value)
    && exists a, b :: AllBlank(a) && AllBlank(b) && line == f.name + [COLON] + a + f.value + b
  }

  /** The field of a line, if it has the form. */
  ghost function HeaderIn(line: seq<Byte>): Option<Field> {
    if exists f :: HeaderIs(line, f) then var f :| HeaderIs(line, f); Some(f) else None
  }

  // ----- reading a line -----

  method CheckFieldContent(s: seq<Byte>) returns (r: bool)
    ensures r <==> IsFieldContent(s)
  {
    if s == [] {
      return true;
    }
    if |s| == 1 {
      return IsFieldVchar(s[0]);
    }
    if |s| == 2 {
      return IsFieldVchar(s[0]) && IsFieldVchar(s[1]);
    }
    var i := 0;
    if !IsFieldVchar(s[i]) {
      return false;
    }
    i := i + 1;
    while i < |s| - 1
      invariant 1 <= i <= |s| - 1
      invariant forall j :: 0 <= j < i ==> IsBlank(s[j]) || IsFieldVchar(s[j])
    {
      var c := s[i];
      i := i + 1;
      if !(IsBlank(c) || IsFieldVchar(c)) {
        return false;
      }
    }
    r := IsFieldVchar(s[i]);
  }

  /** Where the parts of a header line stand: `end` cuts the blanks behind, `q` skips those behind the colon. */
  lemma PartsStand(line: seq<Byte>, f: Field, end: nat, q: nat)
    requires HeaderIs(line, f) && end <= |line|
    requires forall i :: end <= i < |line| ==> IsBlank(line[i])
    requires end == 0 || !IsBlank(line[end - 1])
    ensures |f.name| < end && line[..|f.name|] == f.name && line[|f.name|] == COLON
    ensures |f.name| < q <= end && (forall i :: |f.name| < i < q ==> IsBlank(line[i])) && (q < end ==> !IsBlank(line[q]))
            ==> f.value == line[q..end]
  {
    hide IsFieldName, IsFieldContent, IsBlank, AllBlank, Trimmed;
    var a, b :| AllBlank(a) && AllBlank(b) && line == f.name + [COLON] + a + f.value + b;
    assert Trimmed(line, end) by { TrimmedIs(line, end); }
    PartsAt(line, f, a, b, end, q);
  }

  ghost predicate Trimmed(line: seq<Byte>, end: nat) {
    end <= |line| && (forall i :: end <= i < |line| ==> IsBlank(line[i])) && (end == 0 || !IsBlank(line[end - 1]))
  }

  lemma TrimmedIs(line: seq<Byte>, end: nat)
    requires end <= |line| && (forall i :: end <= i < |line| ==> IsBlank(line[i])) && (end == 0 || !IsBlank(line[end - 1]))
    ensures Trimmed(line, end)
  {
  }

  lemma PartsAt(line: seq<Byte>, f: Field, a: seq<Byte>, b: seq<Byte>, end: nat, q: nat)
    requires AllBlank(a) && AllBlank(b) && line == f.name + [COLON] + a + f.value + b && IsFieldContent(f.value)
    requires Trimmed(line, end)
    ensures |f.name| < end && line[..|f.name|] == f.name && line[|f.name|] == COLON
    ensures |f.name| < q <= end && (forall i :: |f.name| < i < q ==> IsBlank(line[i])) && (q < end ==> !IsBlank(line[q]))
            ==> f.value == line[q..end]
  {
    hide IsFieldContent, IsBlank, AllBlank, Trimmed;
    var n, k := |f.name|, |f.name| + 1 + |a|;
    var m := k + |f.value|;
    Slices(line, f.name, a, f.value, b);
    ColonIsVisible();
    BlanksAt(line, n + 1, k, a);
    BlanksAt(line, m, |line|, b);
    if f.value != [] {
      EndsVisible(f.value);
      SliceEnds(line, k, m, f.value);
    }
    ValueStands(line, n, k, m, end, q);
  }

  lemma Slices(line: seq<Byte>, name: seq<Byte>, a: seq<Byte>, value: seq<Byte>, b: seq<Byte>)
    requires line == name + [COLON] + a + value + b
    ensures var n, k := |name|, |name| + 1 + |a|;
            && n < k <= k + |value| <= |line| && line[..n] == name && line[n] == COLON
            && line[n + 1..k] == a && line[k..k + |value|] == value && line[k + |value|..|line|] == b
  {
  }

  lemma SliceEnds(line: seq<Byte>, k: nat, m: nat, s: seq<Byte>)
    requires k < m <= |line| && s == line[k..m]
    ensures s[0] == line[k] && s[|s| - 1] == line[m - 1]
  {
  }

  /** Between the colon at n and the end of the line, the stretch from k to m is what is left without blanks. */
  lemma ValueStands(line: seq<Byte>, n: nat, k: nat, m: nat, end: nat, q: nat)
    requires n < k <= m <= |line| && !IsBlank(line[n]) && Trimmed(line, end)
    requires (forall i :: n < i < k ==> IsBlank(line[i])) && (forall i :: m <= i < |line| ==> IsBlank(line[i]))
    requires k < m ==> !IsBlank(line[k]) && !IsBlank(line[m - 1])
    ensures n < end
    ensures n < q <= end && (forall i :: n < i < q ==> IsBlank(line[i])) && (q < end ==> !IsBlank(line[q]))
            ==> line[k..m] == line[q..end]
  {
    hide IsBlank;
    if k < m {
      assert end == m;
    } else {
      assert end == n + 1;
    }
  }

  lemma ColonIsVisible()
    ensures !IsBlank(COLON)
  {
  }

  lemma BlanksAt(line: seq<Byte>, k: nat, m: nat, a: seq<Byte>)
    requires k <= m <= |line| && AllBlank(a) && line[k..m] == a
    ensures forall i :: k <= i < m ==> IsBlank(line[i])
  {
    hide IsBlank;
    forall i | k <= i < m ensures IsBlank(line[i]) {
      assert line[i] == a[i - k];
    }
  }

  lemma EndsVisible(s: seq<Byte>)
    requires IsFieldContent(s) && s != []
    ensures !IsBlank(s[0]) && !IsBlank(s[|s| - 1])
  {
  }

  lemma NameFits(line: seq<Byte>, f: Field)
    requires HeaderIs(line, f)
    ensures |f.name| < |line|
  {
  }

  lemma NoColonInName(name: seq<Byte>)
    requires IsFieldName(name)
    ensures COLON !in name
  {
  }

  /** parse_header: accepts exactly the lines of the grammar. */
  method ParseHeader(line: seq<Byte>) returns (r: Option<Field>)
    ensures (forall f :: HeaderIs(line, f) <==> r == Some(f)) && r == HeaderIn(line)
  {
    hide HeaderIs, HeaderIn, IsFieldName, IsFieldContent, IsBlank;
    var end := |line|;
    while 0 < end && IsBlank(line[end - 1])
      invariant 0 <= end <= |line| && forall i :: end <= i < |line| ==> IsBlank(line[i])
    {
      end := end - 1;
    }
    var p := 0;
    while p < end && line[p] != COLON
      invariant 0 <= p <= end && COLON !in line[..p]
    {
      p := p + 1;
    }
    var q := p + 1;
    while q < end && IsBlank(line[q])
      invariant p < q && (p < end ==> q <= end) && forall i :: p < i < q && i < |line| ==> IsBlank(line[i])
    {
      q := q + 1;
    }
    forall f | HeaderIs(line, f) ensures p < end && f == Field(line[..p], line[q..end]) {
      NameFits(line, f);
      PartsStand(line, f, end, q);
      FirstColon(line, f, p, end);
    }
    r := None;
    if IsFieldName(line[..p]) && p < end {
      var valid := CheckFieldContent(line[q..end]);
      if valid {
        r := Some(Field(line[..p], line[q..end]));
        IsHeader(line, p, q, end);
      }
    }
    forall f | HeaderIs(line, f) ensures r == Some(f) {
      assert IsFieldName(f.name) && IsFieldContent(f.value) by { ValidParts(line, f); }
    }
    TheHeader(line, r);
  }

  lemma TheHeader(line: seq<Byte>, r: Option<Field>)
    requires forall f :: HeaderIs(line, f) <==> r == Some(f)
    ensures HeaderIn(line) == r
  {
    hide HeaderIs;
    if r.Some? {
      assert HeaderIs(line, r.value);
    }
  }

  lemma ValidParts(line: seq<Byte>, f: Field)
    requires HeaderIs(line, f)
    ensures IsFieldName(f.name) && IsFieldContent(f.value)
  {
  }

  lemma InPrefix(line: seq<Byte>, n: int, p: int)
    ensures 0 <= p < n <= |line| ==> line[p] in line[..n]
  {
    if 0 <= p < n <= |line| {
      assert line[..n][p] == line[p];
    }
  }

  lemma FirstColon(line: seq<Byte>, f: Field, p: nat, end: nat)
    requires HeaderIs(line, f) && |f.name| < end <= |line| && line[..|f.name|] == f.name && line[|f.name|] == COLON
    requires p <= end && COLON !in line[..p] && (p < end ==> line[p] == COLON)
    ensures p == |f.name|
  {
    NoColonInName(f.name);
    InPrefix(line, |f.name|, p);
    InPrefix(line, p, |f.name|);
  }

  lemma IsHeader(line: seq<Byte>, p: nat, q: nat, end: nat)
    requires p < q <= end <= |line| && line[p] == COLON && IsFieldName(line[..p]) && IsFieldContent(line[q..end])
    requires forall i :: p < i < q ==> IsBlank(line[i])
    requires forall i :: end <= i < |line| ==> IsBlank(line[i])
    ensures HeaderIs(line, Field(line[..p], line[q..end]))
  {
    hide IsFieldName, IsFieldContent, IsBlank;
    var a, b := line[p + 1..q], line[end..];
    assert AllBlank(a) && AllBlank(b);
    assert line == line[..p] + [COLON] + a + line[q..end] + b;
  }

  // ----- reading the section -----

  /** A line with its end. */
  ghost predicate FieldLine(line: seq<Byte>) {
    IsLine(line) && 2 < |line|
  }

  function Body(line: seq<Byte>): seq<Byte> {
    if |line| < 2 then [] else line[..|line| - 2]
  }

  ghost predicate AllFieldLines(lines: seq<seq<Byte>>) {
    forall i :: 0 <= i < |lines| ==> FieldLine(lines[i])
  }

  /** What is taken from a line: its field, if it is declared, with the value decoded. */
  ghost function Taken(line: seq<Byte>, declared: seq<Byte> -> bool, decode: (seq<Byte>, seq<Byte>) -> seq<Byte>): seq<Field> {
    match HeaderIn(Body(line))
    case Some(f) => if declared(f.name) then [Field(f.name, decode(f.name, f.value))] else []
    case None => []
  }

  ghost function AllTaken(lines: seq<seq<Byte>>, declared: seq<Byte> -> bool, decode: (seq<Byte>, seq<Byte>) -> seq<Byte>): seq<Field> {
    if lines == [] then []
    else AllTaken(lines[..|lines| - 1], declared, decode) + Taken(lines[|lines| - 1], declared, decode)
  }

  /** The i-th line is a field, not too long, and there is still room for one. */
  ghost predicate LineAccepted(lines: seq<seq<Byte>>, i: nat, declared: seq<Byte> -> bool,
                               decode: (seq<Byte>, seq<Byte>) -> seq<Byte>)
    requires i < |lines|
  {
    && |lines[i]| <= HEADER_MAX_LENGTH && HeaderIn(Body(lines[i])).Some?
    && |AllTaken(lines[..i], declared, decode)| < HEADER_MAX_COUNT
  }

  ghost predicate Accepted(lines: seq<seq<Byte>>, declared: seq<Byte> -> bool, decode: (seq<Byte>, seq<Byte>) -> seq<Byte>) {
    forall i: nat :: i < |lines| ==> LineAccepted(lines, i, declared, decode)
  }

  /** The next line of the section and what comes behind it. */
  ghost function NextLine(lines: seq<seq<Byte>>, i: nat): seq<Byte> {
    if i < |lines| then lines[i] else CRLF
  }

  ghost function Behind(lines: seq<seq<Byte>>, i: nat, rest: seq<Byte>): seq<Byte> {
    if i < |lines| then Concat(lines[i + 1..]) + CRLF + rest else rest
  }

  lemma NextThenBehind(lines: seq<seq<Byte>>, i: nat, rest: seq<Byte>)
    requires i <= |lines|
    ensures Concat(lines[i..]) + CRLF + rest == NextLine(lines, i) + Behind(lines, i, rest)
  {
    if i < |lines| {
      assert lines[i..][0] == lines[i] && lines[i..][1..] == lines[i + 1..];
      var later := Concat(lines[i + 1..]);
      assert lines[i] + later + CRLF + rest == lines[i] + (later + CRLF + rest);
    } else {
      assert Concat(lines[i..]) == [] && [] + CRLF + rest == CRLF + rest;
    }
  }

  /** One line of the section: the very next one, unless it is too long. */
  method ReadLine(strm: InStream, ghost holds: bool, ghost l: seq<Byte>, ghost behind: seq<Byte>)
      returns (ok: bool, line: seq<Byte>)
    requires holds ==> IsLine(l) && strm.ahead == l + behind
    modifies strm
    ensures |strm.ahead| <= |old(strm.ahead)| && (ok ==> |strm.ahead| < |old(strm.ahead)|)
    ensures holds && |l| < MAX_LINE_LENGTH ==> ok
    ensures holds && ok ==> line == l && strm.ahead == behind
  {
    ghost var whole := strm.ahead;
    ok, line := GetLine(strm, l);
    if ok && holds {
      OnlyLine(l, behind, line, strm.ahead);
    }
  }

  lemma LineBreaks(l: seq<Byte>, line: seq<Byte>)
    ensures IsLine(l) && l <= line ==> !Unbroken(line)
  {
    if IsLine(l) && l <= line {
      assert Break(line, |l| - 2);
    }
  }

  lemma OnlyLine(l: seq<Byte>, behind: seq<Byte>, line: seq<Byte>, ahead: seq<Byte>)
    requires IsLine(l) && l + behind == line + ahead
    requires IsLine(line) || (ahead == [] && Unbroken(line))
    ensures line == l && ahead == behind
  {
    var whole := l + behind;
    assert l <= whole && line <= whole;
    LineBreaks(l, line);
    if IsLine(line) {
      LineIsUnique(whole, l, line);
    }
    assert whole[|l|..] == behind && whole[|line|..] == ahead;
  }

  /** The bytes are a section of these lines, with something behind it. */
  ghost predicate Section(ahead: seq<Byte>, lines: seq<seq<Byte>>, rest: seq<Byte>) {
    AllFieldLines(lines) && ahead == Concat(lines) + CRLF + rest
  }

  /** parse_trailers: reads exactly the section, and succeeds exactly if all lines are accepted. */
  method ParseTrailers(strm: InStream, declared: seq<Byte> -> bool, decode: (seq<Byte>, seq<Byte>) -> seq<Byte>,
                       ghost lines: seq<seq<Byte>>, ghost rest: seq<Byte>) returns (ok: bool, dest: seq<Field>)
    modifies strm
    ensures old(Section(strm.ahead, lines, rest)) ==> (ok <==> Accepted(lines, declared, decode))
    ensures ok && old(Section(strm.ahead, lines, rest)) ==> dest == AllTaken(lines, declared, decode) && strm.ahead == rest
  {
    hide IsLine, HeaderIn, HeaderIs, Concat, AllTaken, NextLine, Behind, LineAccepted, AllFieldLines, Taken;
    dest := [];
    ghost var i: nat := 0;
    ghost var holds := Section(strm.ahead, lines, rest);
    assert lines[0..] == lines && lines[..0] == [];
    NextThenBehind(lines, 0, rest);
    LineThere(lines, 0);
    NoneTaken(declared, decode);
    var line;
    ok, line := ReadLine(strm, holds, NextLine(lines, 0), Behind(lines, 0, rest));
    while ok && line != CRLF
      invariant i <= |lines|
      invariant holds ==> AllFieldLines(lines) && dest == AllTaken(lines[..i], declared, decode)
      invariant holds ==> forall j: nat :: j < i ==> LineAccepted(lines, j, declared, decode)
      invariant holds && ok ==> line == NextLine(lines, i) && strm.ahead == Behind(lines, i, rest)
      invariant holds && !ok ==> i < |lines| && |lines[i]| >= MAX_LINE_LENGTH
      decreases |strm.ahead|, ok
    {
      LineThere(lines, i);
      AcceptedIs(lines, i, declared, decode);
      if |line| > HEADER_MAX_LENGTH || |dest| >= HEADER_MAX_COUNT {
        assert holds ==> !LineAccepted(lines, i, declared, decode);
        return false, dest;
      }
      var r := ParseHeader(if |line| < 2 then [] else line[..|line| - 2]);
      if r.None? {
        assert holds ==> !LineAccepted(lines, i, declared, decode);
        return false, dest;
      }
      if declared(r.value.name) {
        dest := dest + [Field(r.value.name, decode(r.value.name, r.value.value))];
      }
      if i < |lines| {
        TakeLine(lines, i, declared, decode);
        TakenIs(lines[i], r, declared, decode);
        NextThenBehind(lines, i + 1, rest);
        BehindIs(lines, i, rest);
        i := i + 1;
        LineThere(lines, i);
      }
      ok, line := ReadLine(strm, holds, NextLine(lines, i), Behind(lines, i, rest));
    }
    LineThere(lines, i);
    AcceptedIs(lines, i, declared, decode);
    assert i == |lines| ==> lines[..i] == lines;
    assert holds && !ok ==> !LineAccepted(lines, i, declared, decode);
  }

  lemma AcceptedIs(lines: seq<seq<Byte>>, i: nat, declared: seq<Byte> -> bool, decode: (seq<Byte>, seq<Byte>) -> seq<Byte>)
    ensures i < |lines| ==> (LineAccepted(lines, i, declared, decode)
            <==> |lines[i]| <= HEADER_MAX_LENGTH && HeaderIn(Body(lines[i])).Some?
                 && |AllTaken(lines[..i], declared, decode)| < HEADER_MAX_COUNT)
  {
  }

  lemma TakenIs(line: seq<Byte>, r: Option<Field>, declared: seq<Byte> -> bool, decode: (seq<Byte>, seq<Byte>) -> seq<Byte>)
    ensures HeaderIn(Body(line)) == r
            ==> Taken(line, declared, decode)
                == if r.Some? && declared(r.value.name) then [Field(r.value.name, decode(r.value.name, r.value.value))] else []
  {
  }

  lemma LineThere(lines: seq<seq<Byte>>, i: nat)
    requires i <= |lines|
    ensures AllFieldLines(lines) ==> IsLine(NextLine(lines, i)) && (NextLine(lines, i) == CRLF <==> i == |lines|)
    ensures i < |lines| ==> NextLine(lines, i) == lines[i]
    ensures i == |lines| ==> |NextLine(lines, i)| < MAX_LINE_LENGTH
    ensures forall rest :: i == |lines| ==> Behind(lines, i, rest) == rest
  {
    if AllFieldLines(lines) && i < |lines| {
      assert FieldLine(lines[i]);
    }
  }

  lemma BehindIs(lines: seq<seq<Byte>>, i: nat, rest: seq<Byte>)
    requires i < |lines|
    ensures Behind(lines, i, rest) == Concat(lines[i + 1..]) + CRLF + rest
  {
  }

  lemma NoneTaken(declared: seq<Byte> -> bool, decode: (seq<Byte>, seq<Byte>) -> seq<Byte>)
    ensures AllTaken([], declared, decode) == []
  {
  }

  lemma TakeLine(lines: seq<seq<Byte>>, i: nat, declared: seq<Byte> -> bool, decode: (seq<Byte>, seq<Byte>) -> seq<Byte>)
    requires i < |lines|
    ensures AllTaken(lines[..i + 1], declared, decode) == AllTaken(lines[..i], declared, decode) + Taken(lines[i], declared, decode)
  {
    assert lines[..i + 1][..i] == lines[..i];
  }

  // ----- there and back -----

  /** A field that a sender may write: a name, and a value. */
  ghost predicate Proper(f: Field) {
    IsFieldName(f.name) && IsFieldContent(f.value)
  }

  ghost function LineOf(f: Field): seq<Byte> {
    f.name + [58, 32] + f.value + CRLF
  }

  ghost function LinesOf(trailer: seq<Field>): (r: seq<seq<Byte>>)
    ensures |r| == |trailer|
  {
    seq(|trailer|, i requires 0 <= i < |trailer| => LineOf(trailer[i]))
  }

  lemma LineBack(f: Field)
    requires Proper(f)
    ensures FieldLine(LineOf(f)) && HeaderIn(Body(LineOf(f))) == Some(f)
  {
    var line := LineOf(f);
    var body := f.name + [COLON] + [32] + f.value + [];
    assert line == body + CRLF && Body(line) == body;
    forall i | 0 <= i < |body| ensures body[i] != CR {
      if i < |f.name| {
        assert body[i] == f.name[i];
      } else if i >= |f.name| + 2 {
        assert body[i] == f.value[i - |f.name| - 2];
      }
    }
    assert forall i :: 0 <= i < |body| ==> line[i] == body[i];
    assert AllBlank([32]) && AllBlank([]);
    assert HeaderIs(body, f);
    HeaderUnique(body, f);
  }

  /** Where the blanks at the end of the line begin. */
  ghost function TrimEnd(line: seq<Byte>): (end: nat)
    ensures end <= |line| && (forall i :: end <= i < |line| ==> IsBlank(line[i])) && (end == 0 || !IsBlank(line[end - 1]))
  {
    if line != [] && IsBlank(line[|line| - 1]) then TrimEnd(line[..|line| - 1]) else |line|
  }

  ghost function SkipBlanks(line: seq<Byte>, from: nat, end: nat): (q: nat)
    requires from <= end <= |line|
    ensures from <= q <= end && (forall i :: from <= i < q ==> IsBlank(line[i])) && (q < end ==> !IsBlank(line[q]))
    decreases end - from
  {
    if from < end && IsBlank(line[from]) then SkipBlanks(line, from + 1, end) else from
  }

  lemma HeaderUnique(line: seq<Byte>, f: Field)
    requires HeaderIs(line, f)
    ensures HeaderIn(line) == Some(f)
  {
    hide HeaderIs, IsBlank;
    var g := HeaderIn(line).value;
    var end := TrimEnd(line);
    PartsStand(line, f, end, 0);
    PartsStand(line, g, end, 0);
    assert IsFieldName(f.name) && IsFieldName(g.name) by { ValidParts(line, f); ValidParts(line, g); }
    NoColonInName(f.name);
    NoColonInName(g.name);
    InPrefix(line, |g.name|, |f.name|);
    InPrefix(line, |f.name|, |g.name|);
    var q := SkipBlanks(line, |f.name| + 1, end);
    PartsStand(line, f, end, q);
    PartsStand(line, g, end, q);
  }

  lemma {:induction false} LinesConcat(trailer: seq<Field>)
    ensures FieldLines(trailer) == Concat(LinesOf(trailer))
    decreases |trailer|
  {
    if trailer == [] {
    } else {
      var n := |trailer| - 1;
      LinesConcat(trailer[..n]);
      assert LinesOf(trailer) == LinesOf(trailer[..n]) + [LineOf(trailer[n])];
      ConcatAppend(LinesOf(trailer[..n]), [LineOf(trailer[n])]);
      ConcatFront([LineOf(trailer[n])]);
    }
  }

  /** The declared fields among those sent, with their values decoded. */
  ghost function Declared(trailer: seq<Field>, declared: seq<Byte> -> bool, decode: (seq<Byte>, seq<Byte>) -> seq<Byte>): seq<Field> {
    if trailer == [] then []
    else
      var f := trailer[|trailer| - 1];
      Declared(trailer[..|trailer| - 1], declared, decode)
      + if declared(f.name) then [Field(f.name, decode(f.name, f.value))] else []
  }

  ghost predicate AllProper(trailer: seq<Field>) {
    forall i :: 0 <= i < |trailer| ==> Proper(trailer[i])
  }

  /** No line is too long, and in front of each there are fewer declared fields than the limit. */
  ghost predicate WithinLimits(trailer: seq<Field>, declared: seq<Byte> -> bool, decode: (seq<Byte>, seq<Byte>) -> seq<Byte>) {
    forall i :: 0 <= i < |trailer| ==>
      |trailer[i].name| + |trailer[i].value| + 4 <= HEADER_MAX_LENGTH
      && |Declared(trailer[..i], declared, decode)| < HEADER_MAX_COUNT
  }

  lemma {:induction false} TakenAreDeclared(trailer: seq<Field>, declared: seq<Byte> -> bool,
                                            decode: (seq<Byte>, seq<Byte>) -> seq<Byte>)
    requires AllProper(trailer)
    ensures AllTaken(LinesOf(trailer), declared, decode) == Declared(trailer, declared, decode)
    decreases |trailer|
  {
    hide FieldLine, HeaderIn, LineOf, Body;
    if trailer != [] {
      var n := |trailer| - 1;
      assert LinesOf(trailer)[..n] == LinesOf(trailer[..n]);
      TakenAreDeclared(trailer[..n], declared, decode);
      LineBack(trailer[n]);
    }
  }

  lemma WithinLimitsIff(trailer: seq<Field>, declared: seq<Byte> -> bool, decode: (seq<Byte>, seq<Byte>) -> seq<Byte>)
    requires AllProper(trailer)
    ensures AllFieldLines(LinesOf(trailer))
    ensures Accepted(LinesOf(trailer), declared, decode) <==> WithinLimits(trailer, declared, decode)
  {
    hide FieldLine, HeaderIn, Body, AllTaken, Declared, Proper;
    var lines := LinesOf(trailer);
    forall i: nat | i < |trailer|
      ensures FieldLine(lines[i])
      ensures LineAccepted(lines, i, declared, decode)
              <==> |trailer[i].name| + |trailer[i].value| + 4 <= HEADER_MAX_LENGTH
                   && |Declared(trailer[..i], declared, decode)| < HEADER_MAX_COUNT
    {
      assert lines[..i] == LinesOf(trailer[..i]);
      TakenAreDeclared(trailer[..i], declared, decode);
      LineBack(trailer[i]);
    }
  }

  lemma SectionSent(behind: seq<Byte>, trailer: seq<Field>, rest: seq<Byte>)
    requires AllProper(trailer) && behind == FieldLines(trailer) + CRLF + rest
    ensures Section(behind, LinesOf(trailer), rest)
  {
    hide FieldLine;
    LinesConcat(trailer);
    WithinLimitsIff(trailer, _ => true, (n, v) => v);
  }

  /** A chunked body with a trailer comes back whole: the content, then the declared fields, and nothing of what
      comes behind is touched, exactly if the trailer is within the limits. */
  method TrailerRoundTrip(strm: OutStream, groups: seq<seq<seq<Byte>>>, last: seq<seq<Byte>>, trailer: seq<Field>,
                          rest: seq<Byte>, declared: seq<Byte> -> bool, decode: (seq<Byte>, seq<Byte>) -> seq<Byte>)
      returns (sent: bool, ok: bool, content: seq<Byte>, fields: seq<Field>, behind: seq<Byte>)
    requires strm.sent == [] && Sizes(AllWrites(groups, last)) && AllProper(trailer)
    modifies strm
    ensures strm.failed == (old(strm.failed) || !sent)
    ensures sent && Countable(AllWrites(groups, last)) && KeepsGoing(groups) ==>
              && (ok <==> WithinLimits(trailer, declared, decode))
              && (ok ==> content == Concat(AllWrites(groups, last)) && fields == Declared(trailer, declared, decode)
                         && behind == rest)
  {
    hide Sizes, AllWrites, AllProper, Countable, KeepsGoing, WithinLimits, Accepted, AllTaken, Declared, LinesOf, FieldLines;
    fields := [];
    sent, ok, content, behind := RoundTrip(strm, groups, last, trailer, rest);
    if sent && ok {
      var input := new InStream(behind);
      if Delivered(ok, content, behind, AllWrites(groups, last), trailer, rest) {
        SectionSent(behind, trailer, rest);
        TakenAreDeclared(trailer, declared, decode);
        WithinLimitsIff(trailer, declared, decode);
      }
      ok, fields := ParseTrailers(input, declared, decode, LinesOf(trailer), rest);
      behind := input.ahead;
    }
  }
}
