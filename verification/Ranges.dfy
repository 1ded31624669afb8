/** Byte ranges of a request, section 14.1.2 of RFC 9110: checked, normalised, merged, and sent as parts. */
module Ranges {
  import opened Helpers
  import opened Bytes

  datatype Range = Range(first: int, last: int)

  const RANGE_MAX_COUNT := 1024

  // ----- what a request asks for -----

  /** A range against a content length: open ends are filled in, and a last position beyond the end is
      brought back. */
  function Normalized(r: Range, length: nat): Range {
    var a := if r.first == -1 && r.last == -1 then Range(0, length)
             else if r.first == -1 then Range(length - r.last, length - 1)
             else r;
    if a.last == -1 || a.last >= length then Range(a.first, length - 1) else a
  }

  predicate Inside(r: Range, length: nat) {
    0 <= r.first <= r.last <= length - 1
  }

  predicate Overlap(a: Range, b: Range) {
    !(a.last < b.first || a.first > b.last)
  }

  /** How many ranges overlap an earlier one. */
  ghost function Overlapping(ranges: seq<Range>): nat {
    if ranges == [] then 0
    else
      var n := |ranges| - 1;
      Overlapping(ranges[..n]) + if exists j :: 0 <= j < n && Overlap(ranges[n], ranges[j]) then 1 else 0
  }

  function AllNormalized(ranges: seq<Range>, length: nat): (r: seq<Range>)
    ensures |r| == |ranges|
  {
    seq(|ranges|, i requires 0 <= i < |ranges| => Normalized(ranges[i], length))
  }

  ghost predicate AllInside(ranges: seq<Range>, length: nat) {
    forall i :: 0 <= i < |ranges| ==> Inside(ranges[i], length)
  }

  /** The position is asked for. */
  ghost predicate Covers(ranges: seq<Range>, p: int) {
    exists i :: 0 <= i < |ranges| && ranges[i].first <= p <= ranges[i].last
  }

  ghost predicate SameCover(a: seq<Range>, b: seq<Range>) {
    forall p :: Covers(a, p) <==> Covers(b, p)
  }

  /** When a request with ranges is refused. */
  ghost predicate Refused(ranges: seq<Range>, length: nat) {
    |ranges| > RANGE_MAX_COUNT || !AllInside(AllNormalized(ranges, length), length)
    || Overlapping(AllNormalized(ranges, length)) > 2
  }

  // ----- what the standard asks for -----

  /** A range as the header parser lets it through: a first position, a suffix length, or both positions. */
  predicate WellFormed(r: Range) {
    if r.first == -1 then 0 <= r.last else 0 <= r.first && (r.last == -1 || r.first <= r.last)
  }

  /** Section 14.1.2 of RFC 9110: a first position inside the content, or a suffix that is not empty. */
  predicate Satisfiable(r: Range, length: nat) {
    if r.first == -1 then 0 < r.last else r.first < length
  }

  /** What such a range selects; a suffix longer than the content is the whole of it. */
  function Selected(r: Range, length: nat): Range {
    if r.first == -1 then Range(Max(0, length - r.last), length - 1)
    else Range(r.first, if r.last == -1 || r.last >= length then length - 1 else r.last)
  }

  /** The code serves what the standard selects, and refuses the rest, for every range but a suffix longer
      than the content. */
  lemma AgreesIff(r: Range, length: nat)
    requires WellFormed(r)
    ensures (if Satisfiable(r, length) then Normalized(r, length) == Selected(r, length) && Inside(Normalized(r, length), length)
             else !Inside(Normalized(r, length), length))
       <==> !(r.first == -1 && length < r.last)
  {
  }

  /** One range that cannot be satisfied refuses the request, although the standard has the others served. */
  lemma OneOutsideRefuses(ranges: seq<Range>, length: nat, i: int)
    requires 0 <= i < |ranges| && WellFormed(ranges[i]) && !Satisfiable(ranges[i], length)
    ensures Refused(ranges, length)
  {
    assert !Inside(AllNormalized(ranges, length)[i], length);
  }

  /** The last 500 bytes of 100: satisfiable, and refused. */
  lemma LongSuffixRefused()
    ensures Satisfiable(Range(-1, 500), 100) && Refused([Range(-1, 500)], 100)
  {
    assert !Inside(AllNormalized([Range(-1, 500)], 100)[0], 100);
  }

  // ----- merging -----

  ghost predicate SortedByFirst(ranges: seq<Range>) {
    forall i, j :: 0 <= i < j < |ranges| ==> ranges[i].first <= ranges[j].first
  }

  /** std::sort by the first position: some sorted rearrangement. */
  method SortByFirst(ranges: seq<Range>) returns (r: seq<Range>)
    ensures SortedByFirst(r) && multiset(r) == multiset(ranges) && |r| == |ranges|
  {
    hide SortedByFirst;
    r := [];
    NothingSorted();
    for n := 0 to |ranges|
      invariant |r| == n && SortedByFirst(r) && multiset(r) == multiset(ranges[..n])
    {
      assert ranges[..n + 1] == ranges[..n] + [ranges[n]];
      r := Insert(r, ranges[n]);
    }
    assert ranges[..|ranges|] == ranges;
  }

  lemma NothingSorted()
    ensures SortedByFirst([])
  {
  }

  method Insert(s: seq<Range>, x: Range) returns (r: seq<Range>)
    requires SortedByFirst(s)
    ensures SortedByFirst(r) && multiset(r) == multiset(s) + multiset{x} && |r| == |s| + 1
  {
    var i := |s|;
    while i > 0 && s[i - 1].first > x.first
      invariant 0 <= i <= |s| && forall j :: i <= j < |s| ==> s[j].first > x.first
    {
      i := i - 1;
    }
    InsertSorted(s, i, x);
    hide SortedByFirst;
    r := s[..i] + [x] + s[i..];
    SameWithOneMore(s, i, x);
  }

  lemma SameWithOneMore(s: seq<Range>, i: nat, x: Range)
    requires i <= |s|
    ensures multiset(s[..i] + [x] + s[i..]) == multiset(s) + multiset{x}
  {
    assert s == s[..i] + s[i..];
  }

  lemma InsertSorted(s: seq<Range>, i: nat, x: Range)
    requires SortedByFirst(s) && i <= |s| && (i > 0 ==> s[i - 1].first <= x.first)
    requires forall j :: i <= j < |s| ==> s[j].first > x.first
    ensures SortedByFirst(s[..i] + [x] + s[i..])
  {
    var r := s[..i] + [x] + s[i..];
    forall j | 0 <= j < i ensures r[j] == s[j] && s[j].first <= x.first {
    }
    forall j | i < j < |r| ensures r[j] == s[j - 1] {
    }
  }

  lemma SameElements(a: seq<Range>, b: seq<Range>, length: nat)
    requires multiset(a) == multiset(b)
    ensures SameCover(a, b) && (AllInside(a, length) ==> AllInside(b, length))
  {
    forall x ensures x in a <==> x in b {
      assert x in a <==> x in multiset(a);
      assert x in b <==> x in multiset(b);
    }
    forall p ensures Covers(a, p) <==> Covers(b, p) {
      if Covers(a, p) {
        var i :| 0 <= i < |a| && a[i].first <= p <= a[i].last;
        assert a[i] in b;
        var j :| 0 <= j < |b| && b[j] == a[i];
      }
      if Covers(b, p) {
        var i :| 0 <= i < |b| && b[i].first <= p <= b[i].last;
        assert b[i] in a;
        var j :| 0 <= j < |a| && a[j] == b[i];
      }
    }
    if AllInside(a, length) {
      forall i | 0 <= i < |b| ensures Inside(b[i], length) {
        assert b[i] in a;
      }
    }
  }

  lemma CoversAppend(ranges: seq<Range>, r: Range, p: int)
    ensures Covers(ranges + [r], p) <==> Covers(ranges, p) || r.first <= p <= r.last
  {
    var all := ranges + [r];
    if Covers(ranges, p) {
      var i :| 0 <= i < |ranges| && ranges[i].first <= p <= ranges[i].last;
      assert all[i] == ranges[i];
    }
    assert all[|ranges|] == r;
  }

  /** Any two neighbours leave a position between them. */
  ghost predicate Separated(ranges: seq<Range>) {
    forall i :: 0 <= i < |ranges| - 1 ==> ranges[i].last + 1 < ranges[i + 1].first
  }

  ghost predicate Distinct(ranges: seq<Range>) {
    forall i, j :: 0 <= i < j < |ranges| ==> ranges[i] != ranges[j]
  }

  /** A list without repetitions holds every element once, in any order. */
  lemma {:induction false} DistinctCount(s: seq<Range>, x: Range)
    ensures Distinct(s) ==> multiset(s)[x] <= 1
    decreases |s|
  {
    if s != [] {
      var front, last := s[..|s| - 1], s[|s| - 1];
      assert s == front + [last];
      DistinctCount(front, x);
      if x == last && x in front {
        var i :| 0 <= i < |front| && front[i] == x;
        assert s[i] == s[|s| - 1];
      }
    }
  }

  lemma DistinctRearranged(a: seq<Range>, b: seq<Range>)
    requires Distinct(a) && multiset(a) == multiset(b)
    ensures Distinct(b)
  {
    forall i, j | 0 <= i < j < |b| ensures b[i] != b[j] {
      DistinctCount(a, b[i]);
      assert b == b[..j] + [b[j]] + b[j + 1..];
      assert b[..j][i] == b[i];
      assert b[i] in multiset(b[..j]);
    }
  }

  /** The merged list so far: what it covers, and where its last range comes from. */
  ghost predicate Merging(ranges: seq<Range>, i: nat, c: seq<Range>, length: nat) {
    && i <= |ranges| && AllInside(c, length) && SameCover(ranges[..i], c) && (c == [] <==> i == 0)
    && (c != [] ==>
          && c[|c| - 1].first <= ranges[i - 1].first
          && exists j :: 0 <= j < i && ranges[j].last == c[|c| - 1].last && c[|c| - 1].first <= ranges[j].first)
    && (Distinct(ranges) ==> Separated(c))
  }

  lemma MergeNew(ranges: seq<Range>, i: nat, c: seq<Range>, length: nat)
    requires Merging(ranges, i, c, length) && i < |ranges| && SortedByFirst(ranges) && Inside(ranges[i], length)
    requires c == [] || ranges[i].first > c[|c| - 1].last + 1 || ranges[i] == c[|c| - 1]
    ensures Merging(ranges, i + 1, c + [ranges[i]], length)
  {
    var r := ranges[i];
    assert ranges[..i + 1] == ranges[..i] + [r];
    forall p ensures Covers(ranges[..i + 1], p) <==> Covers(c + [r], p) {
      CoversAppend(ranges[..i], r, p);
      CoversAppend(c, r, p);
    }
    if c != [] && r == c[|c| - 1] {
      var j :| 0 <= j < i && ranges[j].last == c[|c| - 1].last && c[|c| - 1].first <= ranges[j].first;
      assert ranges[j] == ranges[i];
    }
  }

  lemma MergeExtend(ranges: seq<Range>, i: nat, c: seq<Range>, length: nat)
    requires Merging(ranges, i, c, length) && i < |ranges| && SortedByFirst(ranges) && Inside(ranges[i], length)
    requires c != [] && ranges[i].first <= c[|c| - 1].last + 1
    ensures var prev := c[|c| - 1];
            Merging(ranges, i + 1, c[..|c| - 1] + [Range(prev.first, if prev.last > ranges[i].last then prev.last else ranges[i].last)],
                    length)
  {
    var r, prev, front := ranges[i], c[|c| - 1], c[..|c| - 1];
    var merged := Range(prev.first, if prev.last > r.last then prev.last else r.last);
    assert ranges[..i + 1] == ranges[..i] + [r] && c == front + [prev];
    assert prev.first <= r.first;
    forall p ensures Covers(ranges[..i + 1], p) <==> Covers(front + [merged], p) {
      CoversAppend(ranges[..i], r, p);
      CoversAppend(front, prev, p);
      CoversAppend(front, merged, p);
    }
    var d := front + [merged];
    forall k | 0 <= k < |d| - 1 ensures Distinct(ranges) ==> d[k].last + 1 < d[k + 1].first {
      assert Distinct(ranges) ==> c[k].last + 1 < c[k + 1].first;
    }
  }

  /** coalesce_ranges, on ranges that range_error has normalised. */
  method Coalesce(ranges: seq<Range>, length: nat) returns (r: seq<Range>)
    requires AllInside(ranges, length)
    ensures SameCover(ranges, r) && AllInside(r, length) && (ranges == [] <==> r == [])
    ensures Distinct(ranges) ==> Separated(r)
  {
    hide Merging, Covers, Distinct, SortedByFirst, Separated;
    if |ranges| <= 1 {
      OneIsSeparated(ranges);
      return ranges;
    }
    var sorted := SortByFirst(ranges);
    SameElements(ranges, sorted, length);
    if Distinct(ranges) {
      DistinctRearranged(ranges, sorted);
    }
    var coalesced: seq<Range> := [];
    NothingMerged(sorted, length);
    for i := 0 to |sorted|
      invariant Merging(sorted, i, coalesced, length)
    {
      var firstPos, lastPos := sorted[i].first, sorted[i].last;
      if firstPos == -1 && lastPos == -1 {
        firstPos, lastPos := 0, length;
      }
      if firstPos == -1 {
        firstPos, lastPos := length - lastPos, length - 1;
      }
      if lastPos == -1 || lastPos >= length {
        lastPos := length - 1;
      }
      if !(0 <= firstPos <= lastPos < length) {
        continue;
      }
      if coalesced != [] {
        var prev := coalesced[|coalesced| - 1];
        if firstPos <= prev.last + 1 && !(firstPos == prev.first && lastPos == prev.last) {
          MergeExtend(sorted, i, coalesced, length);
          coalesced := coalesced[..|coalesced| - 1] + [Range(prev.first, if prev.last > lastPos then prev.last else lastPos)];
          continue;
        }
      }
      MergeNew(sorted, i, coalesced, length);
      coalesced := coalesced + [Range(firstPos, lastPos)];
    }
    Merged(ranges, sorted, coalesced, length);
    r := coalesced;
  }

  lemma OneIsSeparated(ranges: seq<Range>)
    requires |ranges| <= 1
    ensures Separated(ranges)
  {
  }

  lemma NothingMerged(ranges: seq<Range>, length: nat)
    ensures Merging(ranges, 0, [], length)
  {
    assert ranges[..0] == [];
  }

  lemma Merged(ranges: seq<Range>, sorted: seq<Range>, c: seq<Range>, length: nat)
    requires SameCover(ranges, sorted) && Merging(sorted, |sorted|, c, length) && |sorted| == |ranges| > 0
    requires Distinct(ranges) ==> Distinct(sorted)
    ensures SameCover(ranges, c) && AllInside(c, length) && c != [] && (Distinct(ranges) ==> Separated(c))
  {
    assert sorted[..|sorted|] == sorted;
    hide Covers;
    forall p ensures Covers(ranges, p) <==> Covers(c, p) {
      assert Covers(ranges, p) <==> Covers(sorted, p);
    }
  }

  // ----- range_error -----

  method OverlapsEarlier(processed: seq<Range>, r: Range) returns (b: bool)
    ensures b <==> exists j :: 0 <= j < |processed| && Overlap(r, processed[j])
  {
    for i := 0 to |processed|
      invariant forall j :: 0 <= j < i ==> !Overlap(r, processed[j])
    {
      if !(r.last < processed[i].first || r.first > processed[i].last) {
        return true;
      }
    }
    return false;
  }

  lemma OverlappingGrows(ranges: seq<Range>, i: nat)
    requires i <= |ranges|
    ensures Overlapping(ranges[..i]) <= Overlapping(ranges)
    decreases |ranges| - i
  {
    if i < |ranges| {
      OverlappingStep(ranges, i);
      OverlappingGrows(ranges, i + 1);
    } else {
      assert ranges[..i] == ranges;
    }
  }

  lemma OverlappingStep(ranges: seq<Range>, i: nat)
    requires i < |ranges|
    ensures Overlapping(ranges[..i + 1])
         == Overlapping(ranges[..i]) + if exists j :: 0 <= j < i && Overlap(ranges[i], ranges[..i][j]) then 1 else 0
  {
    var now := ranges[..i + 1];
    assert now[..i] == ranges[..i];
    assert forall j :: 0 <= j < i ==> now[j] == ranges[..i][j];
  }

  /** range_error: refuses exactly the requests it should; otherwise the ranges left cover exactly the
      positions asked for, and lie inside the content. */
  method RangeError(status: int, length: nat, ranges0: seq<Range>) returns (error: bool, ranges: seq<Range>)
    ensures error <==> ranges0 != [] && 200 <= status < 300 && Refused(ranges0, length)
    ensures !error && 200 <= status < 300 ==>
              SameCover(AllNormalized(ranges0, length), ranges) && AllInside(ranges, length)
    ensures !error && 200 <= status < 300 && Distinct(AllNormalized(ranges0, length)) ==> Separated(ranges)
    ensures !error && !(200 <= status < 300) ==> ranges == ranges0
    ensures !error ==> (ranges == [] <==> ranges0 == [])
  {
    hide Covers, Distinct, Separated, Overlapping;
    ranges := ranges0;
    error := false;
    if ranges0 != [] && 200 <= status < 300 {
      ghost var all := AllNormalized(ranges0, length);
      if |ranges0| > RANGE_MAX_COUNT {
        return true, ranges;
      }
      var processed: seq<Range>, overlapping := [], 0;
      NoneOverlap(all);
      for i := 0 to |ranges0|
        invariant processed == all[..i] && |processed| == i && AllInside(processed, length)
        invariant overlapping == Overlapping(all[..i]) <= 2
      {
        var firstPos, lastPos := ranges0[i].first, ranges0[i].last;
        if firstPos == -1 && lastPos == -1 {
          firstPos, lastPos := 0, length;
        }
        if firstPos == -1 {
          firstPos, lastPos := length - lastPos, length - 1;
        }
        if lastPos == -1 || lastPos >= length {
          lastPos := length - 1;
        }
        var r := Range(firstPos, lastPos);
        assert r == all[i];
        if !(0 <= firstPos <= lastPos <= length - 1) {
          return true, ranges;
        }
        OverlappingStep(all, i);
        OverlappingGrows(all, i + 1);
        var overlaps := OverlapsEarlier(processed, r);
        if overlaps {
          overlapping := overlapping + 1;
          if overlapping > 2 {
            return true, ranges;
          }
        }
        assert all[..i + 1] == all[..i] + [r];
        processed := processed + [r];
      }
      assert all[..|ranges0|] == all;
      ranges := Coalesce(processed, length);
    } else if ranges0 == [] {
      OneIsSeparated(ranges);
    }
  }

  lemma NoneOverlap(ranges: seq<Range>)
    ensures Overlapping(ranges[..0]) == 0 && ranges[..0] == []
  {
  }

  // ----- several ranges in one body -----

  /** A piece of the body: fixed text, or bytes of the content. */
  datatype Token = Text(bytes: seq<Byte>) | Content(offset: nat, length: nat)

  const DASH: seq<Byte> := [45, 45]

  /** get_range_offset_and_length, whose assertions are its preconditions. */
  function OffsetAndLength(r: Range, length: nat): (t: (nat, nat))
    requires r.first != -1 && r.last != -1
    requires 0 <= r.first < length && r.first <= r.last < length
    ensures t.0 + t.1 <= length && 0 < t.1
    ensures t.0 == r.first && t.0 + t.1 - 1 == r.last
  {
    (r.first, r.last - r.first + 1)
  }

  /** std::to_string, in bytes. */
  function DecimalBytes(n: nat): (s: seq<Byte>)
    ensures forall i :: 0 <= i < |s| ==> 48 <= s[i] <= 57
    ensures DecimalValue(s) == n
  {
    if n < 10 then [(48 + n) as Byte] else DecimalBytes(n / 10) + [(48 + n % 10) as Byte]
  }

  /** The number that digits stand for. */
  function DecimalValue(s: seq<Byte>): int {
    if s == [] then 0 else 10 * DecimalValue(s[..|s| - 1]) + (s[|s| - 1] as int - 48)
  }

  const BYTES_UNIT: seq<Byte> := [98, 121, 116, 101, 115, 32]

  /** make_content_range_header_field */
  function ContentRangeField(at: (nat, nat), length: nat): seq<Byte>
    requires 0 < at.1
  {
    BYTES_UNIT + DecimalBytes(at.0) + [45] + DecimalBytes(at.0 + at.1 - 1) + [47] + DecimalBytes(length)
  }

  /** The example of section 14.4 of RFC 9110: bytes 42-1233/1234. */
  lemma FieldExample()
    ensures ContentRangeField(OffsetAndLength(Range(42, 1233), 1234), 1234)
         == [98, 121, 116, 101, 115, 32, 52, 50, 45, 49, 50, 51, 51, 47, 49, 50, 51, 52]
  {
    hide DecimalBytes;
    DecimalStep(42);
    DecimalStep(1233);
    DecimalStep(123);
    DecimalStep(12);
    DecimalStep(1234);
  }

  lemma DecimalStep(n: nat)
    requires 10 <= n
    ensures DecimalBytes(n) == DecimalBytes(n / 10) + [(48 + n % 10) as Byte]
    ensures n < 100 ==> DecimalBytes(n / 10) == [(48 + n / 10) as Byte]
  {
  }

  /** A part holds the bytes from the first position to the last one. */
  lemma PartOfContent(r: Range, content: seq<Byte>)
    requires Inside(r, |content|)
    ensures var t := OffsetAndLength(r, |content|);
            content[t.0..t.0 + t.1] == content[r.first..r.last + 1]
  {
  }

  /** process_multipart_ranges_data: the tokens it hands over. */
  method MultipartTokens(ranges: seq<Range>, boundary: seq<Byte>, contentType: seq<Byte>, length: nat)
      returns (tokens: seq<Token>)
    requires AllInside(ranges, length)
    ensures tokens == Tokens(ranges, boundary, contentType, length)
  {
    hide Part;
    tokens := [];
    for i := 0 to |ranges|
      invariant tokens == Parts(ranges[..i], boundary, contentType, length)
    {
      assert ranges[..i + 1][..i] == ranges[..i];
      var part := PartTokens(ranges[i], boundary, contentType, length);
      tokens := tokens + part;
    }
    assert ranges[..|ranges|] == ranges;
    tokens := tokens + [Text(DASH), Text(boundary), Text(DASH)];
  }

  /** All parts and the closing boundary. */
  function Tokens(ranges: seq<Range>, boundary: seq<Byte>, contentType: seq<Byte>, length: nat): seq<Token>
    requires forall i :: 0 <= i < |ranges| ==> Inside(ranges[i], length)
  {
    Parts(ranges, boundary, contentType, length) + [Text(DASH), Text(boundary), Text(DASH)]
  }

  method PartTokens(r: Range, boundary: seq<Byte>, contentType: seq<Byte>, length: nat) returns (tokens: seq<Token>)
    requires Inside(r, length)
    ensures tokens == Part(r, boundary, contentType, length)
  {
    tokens := [Text(DASH), Text(boundary), Text(CRLF)];
    if contentType != [] {
      tokens := tokens + [Text(CONTENT_TYPE), Text(contentType), Text(CRLF)];
    }
    var at := OffsetAndLength(r, length);
    tokens := tokens + [Text(CONTENT_RANGE), Text(ContentRangeField(at, length)), Text(CRLF), Text(CRLF)];
    tokens := tokens + [Content(at.0, at.1), Text(CRLF)];
  }

  const CONTENT_TYPE: seq<Byte> := [67, 111, 110, 116, 101, 110, 116, 45, 84, 121, 112, 101, 58, 32]
  const CONTENT_RANGE: seq<Byte> := [67, 111, 110, 116, 101, 110, 116, 45, 82, 97, 110, 103, 101, 58, 32]

  function Part(r: Range, boundary: seq<Byte>, contentType: seq<Byte>, length: nat): seq<Token>
    requires Inside(r, length)
  {
    var at := OffsetAndLength(r, length);
    [Text(DASH), Text(boundary), Text(CRLF)]
    + (if contentType == [] then [] else [Text(CONTENT_TYPE), Text(contentType), Text(CRLF)])
    + [Text(CONTENT_RANGE), Text(ContentRangeField(at, length)), Text(CRLF), Text(CRLF)]
    + [Content(at.0, at.1), Text(CRLF)]
  }

  function Parts(ranges: seq<Range>, boundary: seq<Byte>, contentType: seq<Byte>, length: nat): seq<Token>
    requires forall i :: 0 <= i < |ranges| ==> Inside(ranges[i], length)
  {
    if ranges == [] then []
    else Parts(ranges[..|ranges| - 1], boundary, contentType, length)
         + Part(ranges[|ranges| - 1], boundary, contentType, length)
  }

  /** Every token of content lies within the body. */
  ghost predicate InBounds(tokens: seq<Token>, length: nat) {
    forall i :: 0 <= i < |tokens| ==> Bounded(tokens[i], length)
  }

  predicate Bounded(t: Token, length: nat) {
    t.Content? ==> t.offset + t.length <= length
  }

  function BytesOf(t: Token, content: seq<Byte>): seq<Byte>
    requires Bounded(t, |content|)
  {
    match t case Text(b) => b case Content(o, l) => content[o..o + l]
  }

  lemma {:induction false} PartsInBounds(ranges: seq<Range>, boundary: seq<Byte>, contentType: seq<Byte>, length: nat)
    requires AllInside(ranges, length)
    ensures InBounds(Parts(ranges, boundary, contentType, length), length)
  {
    if ranges != [] {
      PartsInBounds(ranges[..|ranges| - 1], boundary, contentType, length);
      assert InBounds(Part(ranges[|ranges| - 1], boundary, contentType, length), length);
    }
  }

  lemma TokensInBounds(ranges: seq<Range>, boundary: seq<Byte>, contentType: seq<Byte>, length: nat)
    requires AllInside(ranges, length)
    ensures InBounds(Tokens(ranges, boundary, contentType, length), length)
  {
    PartsInBounds(ranges, boundary, contentType, length);
    hide Parts;
  }

  function Rendered(tokens: seq<Token>, content: seq<Byte>): seq<Byte>
    requires InBounds(tokens, |content|)
  {
    if tokens == [] then []
    else Rendered(tokens[..|tokens| - 1], content) + BytesOf(tokens[|tokens| - 1], content)
  }

  lemma RenderedStep(tokens: seq<Token>, i: nat, content: seq<Byte>)
    requires InBounds(tokens, |content|) && i <= |tokens|
    ensures InBounds(tokens[..0], |content|) && Rendered(tokens[..0], content) == []
    ensures i < |tokens| ==>
              Bounded(tokens[i], |content|)
              && InBounds(tokens[..i + 1], |content|) && InBounds(tokens[..i], |content|)
              && Rendered(tokens[..i + 1], content) == Rendered(tokens[..i], content) + BytesOf(tokens[i], content)
  {
    hide BytesOf, Bounded;
    if i < |tokens| {
      assert tokens[..i + 1][..i] == tokens[..i];
    }
  }

  /** The callbacks of make_multipart_ranges_data. */
  method Render(tokens: seq<Token>, content: seq<Byte>) returns (data: seq<Byte>)
    requires InBounds(tokens, |content|)
    ensures data == Rendered(tokens, content)
  {
    hide Rendered, InBounds;
    data := [];
    RenderedStep(tokens, 0, content);
    for i := 0 to |tokens|
      invariant InBounds(tokens[..i], |content|) && data == Rendered(tokens[..i], content)
    {
      RenderedStep(tokens, i, content);
      var t := tokens[i];
      data := data + match t case Text(b) => b case Content(o, l) => content[o..o + l];
    }
    assert tokens[..|tokens|] == tokens;
  }

  /** The callbacks of get_multipart_ranges_data_length. */
  method Measure(tokens: seq<Token>, ghost content: seq<Byte>) returns (n: nat)
    requires InBounds(tokens, |content|)
    ensures n == |Rendered(tokens, content)|
  {
    hide Rendered, InBounds;
    n := 0;
    RenderedStep(tokens, 0, content);
    for i := 0 to |tokens|
      invariant InBounds(tokens[..i], |content|) && n == |Rendered(tokens[..i], content)|
    {
      RenderedStep(tokens, i, content);
      n := n + match tokens[i] case Text(b) => |b| case Content(_, l) => l;
    }
    assert tokens[..|tokens|] == tokens;
  }

  /** make_multipart_ranges_data and get_multipart_ranges_data_length: every substring taken lies within
      the content, and the length announced is that of the bytes built. */
  method MakeMultipart(ranges: seq<Range>, boundary: seq<Byte>, contentType: seq<Byte>, content: seq<Byte>) returns (data: seq<Byte>, announced: nat)
    requires AllInside(ranges, |content|)
    ensures InBounds(Tokens(ranges, boundary, contentType, |content|), |content|)
    ensures data == Rendered(Tokens(ranges, boundary, contentType, |content|), content) && announced == |data|
  {
    hide Tokens, Rendered, InBounds;
    TokensInBounds(ranges, boundary, contentType, |content|);
    var forLength := MultipartTokens(ranges, boundary, contentType, |content|);
    announced := Measure(forLength, content);
    var forData := MultipartTokens(ranges, boundary, contentType, |content|);
    data := Render(forData, content);
  }
}
