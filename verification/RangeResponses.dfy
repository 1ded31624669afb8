/** The answer to a request with ranges, from the check to the bytes of the body: what a client reads out of it is
    exactly what was asked for. */
module RangeResponses {
  import opened Bytes
  import opened Options
  import opened Ranges
  import F = FormData

  const OK := 200
  const PARTIAL_CONTENT := 206
  const NOT_SATISFIABLE := 416

  // ----- the multipart body, as the multipart format has it -----

  /** The bytes from the first position to the last one. */
  function Stretch(r: Range, content: seq<Byte>): seq<Byte>
    requires Inside(r, |content|)
  {
    content[r.first..r.last + 1]
  }

  /** The part for one range: its type, which bytes of how many, and the bytes. */
  function PartFor(r: Range, contentType: seq<Byte>, content: seq<Byte>): F.Part
    requires Inside(r, |content|)
  {
    F.Part((if contentType == [] then [] else [CONTENT_TYPE + contentType])
           + [CONTENT_RANGE + (BYTES_UNIT + DecimalBytes(r.first) + [45] + DecimalBytes(r.last) + [47] + DecimalBytes(|content|))],
           Stretch(r, content))
  }

  function PartsFor(ranges: seq<Range>, contentType: seq<Byte>, content: seq<Byte>): (parts: seq<F.Part>)
    requires forall i :: 0 <= i < |ranges| ==> Inside(ranges[i], |content|)
    ensures |parts| == |ranges|
    ensures forall i :: 0 <= i < |ranges| ==> parts[i] == PartFor(ranges[i], contentType, content)
  {
    seq(|ranges|, i requires 0 <= i < |ranges| => PartFor(ranges[i], contentType, content))
  }

  lemma RenderedSnoc(x: seq<Token>, t: Token, content: seq<Byte>)
    requires InBounds(x, |content|) && Bounded(t, |content|)
    ensures InBounds(x + [t], |content|) && Rendered(x + [t], content) == Rendered(x, content) + BytesOf(t, content)
  {
    hide BytesOf, Bounded;
    assert (x + [t])[..|x|] == x;
  }

  lemma AssocBytes(x: seq<Byte>, y: seq<Byte>, z: seq<Byte>)
    ensures x + (y + z) == (x + y) + z
  {
  }

  lemma SplitLast<T>(x: seq<T>, y: seq<T>)
    requires y != []
    ensures y == y[..|y| - 1] + [y[|y| - 1]] && x + y == (x + y[..|y| - 1]) + [y[|y| - 1]]
  {
  }

  lemma {:induction false} RenderedConcat(x: seq<Token>, y: seq<Token>, content: seq<Byte>)
    requires InBounds(x, |content|) && InBounds(y, |content|)
    ensures InBounds(x + y, |content|) && Rendered(x + y, content) == Rendered(x, content) + Rendered(y, content)
    decreases |y|
  {
    if y == [] {
      assert x + y == x;
    } else {
      var front, last := y[..|y| - 1], y[|y| - 1];
      assert InBounds(front, |content|) && Bounded(last, |content|);
      hide BytesOf, Rendered, Bounded, InBounds;
      RenderedConcat(x, front, content);
      RenderedSnoc(x + front, last, content);
      RenderedSnoc(front, last, content);
      SplitLast(x, y);
      AssocBytes(Rendered(x, content), Rendered(front, content), BytesOf(last, content));
    }
  }

  /** The bytes of one part between its boundary and the next one. */
  lemma PartIs(r: Range, boundary: seq<Byte>, contentType: seq<Byte>, content: seq<Byte>)
    requires Inside(r, |content|)
    ensures var tokens, p := Part(r, boundary, contentType, |content|), PartFor(r, contentType, content);
            InBounds(tokens, |content|)
            && Rendered(tokens, content) == F.DashBoundaryCrlf(boundary) + F.Lines(p.lines) + p.content + CRLF
  {
    var t := OffsetAndLength(r, |content|);
    var field, p := ContentRangeField(t, |content|), PartFor(r, contentType, content);
    var opening: seq<Token> := [Text(DASH), Text(boundary), Text(CRLF)];
    var kind: seq<Token> := if contentType == [] then [] else [Text(CONTENT_TYPE), Text(contentType), Text(CRLF)];
    var where: seq<Token> := [Text(CONTENT_RANGE), Text(field), Text(CRLF), Text(CRLF)];
    var what: seq<Token> := [Content(t.0, t.1), Text(CRLF)];
    PartTokensAre(r, boundary, contentType, content, opening, kind, where, what);
    RenderedPieces(boundary, contentType, field, t, content, opening, kind, where, what);
    LinesIs(p, contentType, field);
    hide Rendered, Part, PartFor, ContentRangeField, F.Lines, InBounds, F.DashBoundaryCrlf;
    PartJoined(opening, kind, where, what, content, F.DashBoundaryCrlf(boundary), F.Lines(p.lines), p.content);
  }

  lemma PartJoined(opening: seq<Token>, kind: seq<Token>, where: seq<Token>, what: seq<Token>, content: seq<Byte>,
                   delimiter: seq<Byte>, lines: seq<Byte>, stretch: seq<Byte>)
    requires InBounds(opening, |content|) && InBounds(kind, |content|) && InBounds(where, |content|) && InBounds(what, |content|)
    requires Rendered(opening, content) == delimiter && Rendered(kind, content) + Rendered(where, content) == lines
    requires Rendered(what, content) == stretch + CRLF
    ensures InBounds(opening + kind + where + what, |content|)
    ensures Rendered(opening + kind + where + what, content) == delimiter + lines + stretch + CRLF
  {
    hide Rendered, InBounds;
    RenderedFour(opening, kind, where, what, content);
    AssocBytes(delimiter, Rendered(kind, content), Rendered(where, content));
    AssocBytes(delimiter + lines, stretch, CRLF);
  }

  lemma PartTokensAre(r: Range, boundary: seq<Byte>, contentType: seq<Byte>, content: seq<Byte>,
                      opening: seq<Token>, kind: seq<Token>, where: seq<Token>, what: seq<Token>)
    requires Inside(r, |content|) && opening == [Text(DASH), Text(boundary), Text(CRLF)]
    requires kind == if contentType == [] then [] else [Text(CONTENT_TYPE), Text(contentType), Text(CRLF)]
    requires var t := OffsetAndLength(r, |content|);
             && where == [Text(CONTENT_RANGE), Text(ContentRangeField(t, |content|)), Text(CRLF), Text(CRLF)]
             && what == [Content(t.0, t.1), Text(CRLF)]
    ensures Part(r, boundary, contentType, |content|) == opening + kind + where + what
    ensures var p, t := PartFor(r, contentType, content), OffsetAndLength(r, |content|);
            && p.content == content[t.0..t.0 + t.1]
            && p.lines == (if contentType == [] then [] else [CONTENT_TYPE + contentType])
                          + [CONTENT_RANGE + ContentRangeField(t, |content|)]
  {
    PartOfContent(r, content);
  }

  lemma RenderedPieces(boundary: seq<Byte>, contentType: seq<Byte>, field: seq<Byte>, t: (nat, nat), content: seq<Byte>,
                       opening: seq<Token>, kind: seq<Token>, where: seq<Token>, what: seq<Token>)
    requires t.0 + t.1 <= |content| && opening == [Text(DASH), Text(boundary), Text(CRLF)]
    requires kind == if contentType == [] then [] else [Text(CONTENT_TYPE), Text(contentType), Text(CRLF)]
    requires where == [Text(CONTENT_RANGE), Text(field), Text(CRLF), Text(CRLF)] && what == [Content(t.0, t.1), Text(CRLF)]
    ensures InBounds(opening, |content|) && Rendered(opening, content) == F.DashBoundaryCrlf(boundary)
    ensures InBounds(kind, |content|)
            && Rendered(kind, content) == if contentType == [] then [] else CONTENT_TYPE + contentType + CRLF
    ensures InBounds(where, |content|) && Rendered(where, content) == CONTENT_RANGE + field + CRLF + CRLF
    ensures InBounds(what, |content|) && Rendered(what, content) == content[t.0..t.0 + t.1] + CRLF
  {
    hide Rendered;
    RenderedThree(DASH, boundary, CRLF, content);
    RenderedKind(contentType, kind, content);
    RenderedWhere(field, content);
    RenderedTwo(Content(t.0, t.1), Text(CRLF), content);
  }

  lemma RenderedKind(contentType: seq<Byte>, kind: seq<Token>, content: seq<Byte>)
    requires kind == if contentType == [] then [] else [Text(CONTENT_TYPE), Text(contentType), Text(CRLF)]
    ensures InBounds(kind, |content|)
    ensures Rendered(kind, content) == if contentType == [] then [] else CONTENT_TYPE + contentType + CRLF
  {
    RenderedNothing(content);
    RenderedThree(CONTENT_TYPE, contentType, CRLF, content);
  }

  lemma RenderedFour(a: seq<Token>, b: seq<Token>, c: seq<Token>, d: seq<Token>, content: seq<Byte>)
    requires InBounds(a, |content|) && InBounds(b, |content|) && InBounds(c, |content|) && InBounds(d, |content|)
    ensures InBounds(a + b + c + d, |content|)
    ensures Rendered(a + b + c + d, content)
         == Rendered(a, content) + Rendered(b, content) + Rendered(c, content) + Rendered(d, content)
  {
    hide Rendered, InBounds;
    RenderedConcat(a, b, content);
    RenderedConcat(a + b, c, content);
    RenderedConcat(a + b + c, d, content);
  }

  lemma RenderedNothing(content: seq<Byte>)
    ensures InBounds([], |content|) && Rendered([], content) == []
  {
  }

  lemma RenderedOne(t: Token, content: seq<Byte>)
    requires Bounded(t, |content|)
    ensures InBounds([t], |content|) && Rendered([t], content) == BytesOf(t, content)
  {
    assert [t][..0] == [];
  }

  lemma RenderedTwo(t: Token, u: Token, content: seq<Byte>)
    requires Bounded(t, |content|) && Bounded(u, |content|)
    ensures InBounds([t, u], |content|) && Rendered([t, u], content) == BytesOf(t, content) + BytesOf(u, content)
  {
    hide Rendered;
    RenderedOne(t, content);
    RenderedOne(u, content);
    assert [t, u] == [t] + [u];
    RenderedConcat([t], [u], content);
  }

  lemma RenderedThree(a: seq<Byte>, b: seq<Byte>, c: seq<Byte>, content: seq<Byte>)
    ensures InBounds([Text(a), Text(b), Text(c)], |content|) && Rendered([Text(a), Text(b), Text(c)], content) == a + b + c
  {
    hide Rendered;
    RenderedTwo(Text(a), Text(b), content);
    RenderedOne(Text(c), content);
    assert [Text(a), Text(b), Text(c)] == [Text(a), Text(b)] + [Text(c)];
    RenderedConcat([Text(a), Text(b)], [Text(c)], content);
  }

  /** The header lines of a part and the blank line behind them. */
  lemma LinesIs(p: F.Part, contentType: seq<Byte>, field: seq<Byte>)
    requires p.lines == (if contentType == [] then [] else [CONTENT_TYPE + contentType]) + [CONTENT_RANGE + field]
    ensures F.Lines(p.lines)
         == (if contentType == [] then [] else CONTENT_TYPE + contentType + CRLF) + (CONTENT_RANGE + field + CRLF + CRLF)
  {
    var one := [CONTENT_RANGE + field];
    assert one[1..] == [];
    assert F.Lines(one) == CONTENT_RANGE + field + CRLF + CRLF;
    if contentType == [] {
      assert p.lines == one;
    } else {
      assert p.lines[1..] == one;
    }
  }

  lemma RenderedWhere(field: seq<Byte>, content: seq<Byte>)
    ensures var where := [Text(CONTENT_RANGE), Text(field), Text(CRLF), Text(CRLF)];
            InBounds(where, |content|) && Rendered(where, content) == CONTENT_RANGE + field + CRLF + CRLF
  {
    hide Rendered;
    RenderedThree(CONTENT_RANGE, field, CRLF, content);
    RenderedOne(Text(CRLF), content);
    var front := [Text(CONTENT_RANGE), Text(field), Text(CRLF)];
    RenderedConcat(front, [Text(CRLF)], content);
    assert front + [Text(CRLF)] == [Text(CONTENT_RANGE), Text(field), Text(CRLF), Text(CRLF)];
  }

  /** One part with its boundary. */
  ghost function Piece(boundary: seq<Byte>, p: F.Part): seq<Byte> {
    F.DashBoundaryCrlf(boundary) + F.Lines(p.lines) + p.content + CRLF
  }

  ghost function Pieces(boundary: seq<Byte>, parts: seq<F.Part>): seq<Byte> {
    if parts == [] then [] else Piece(boundary, parts[0]) + Pieces(boundary, parts[1..])
  }

  lemma {:induction false} PiecesSnoc(boundary: seq<Byte>, parts: seq<F.Part>, p: F.Part)
    ensures Pieces(boundary, parts + [p]) == Pieces(boundary, parts) + Piece(boundary, p)
    decreases |parts|
  {
    hide Piece;
    var all := parts + [p];
    if parts == [] {
      assert all[1..] == [] && all[0] == p;
    } else {
      PiecesSnoc(boundary, parts[1..], p);
      assert all[0] == parts[0] && all[1..] == parts[1..] + [p];
    }
  }

  lemma {:induction false} PartsRendered(ranges: seq<Range>, boundary: seq<Byte>, contentType: seq<Byte>, content: seq<Byte>)
    requires AllInside(ranges, |content|)
    ensures InBounds(Parts(ranges, boundary, contentType, |content|), |content|)
    ensures Rendered(Parts(ranges, boundary, contentType, |content|), content)
         == Pieces(boundary, PartsFor(ranges, contentType, content))
    decreases |ranges|
  {
    hide Rendered, Part, Piece, PartFor;
    PartsInBounds(ranges, boundary, contentType, |content|);
    if ranges == [] {
      RenderedNothing(content);
    } else {
      var n := |ranges| - 1;
      var front, r := ranges[..n], ranges[n];
      PartsRendered(front, boundary, contentType, content);
      PartIs(r, boundary, contentType, content);
      RenderedConcat(Parts(front, boundary, contentType, |content|), Part(r, boundary, contentType, |content|), content);
      PiecesSnoc(boundary, PartsFor(front, contentType, content), PartFor(r, contentType, content));
      assert PartsFor(ranges, contentType, content) == PartsFor(front, contentType, content) + [PartFor(r, contentType, content)];
      assert Piece(boundary, PartFor(r, contentType, content)) == Rendered(Part(r, boundary, contentType, |content|), content) by {
        PieceIs(boundary, PartFor(r, contentType, content));
      }
    }
  }

  lemma PieceIs(boundary: seq<Byte>, p: F.Part)
    ensures Piece(boundary, p) == F.DashBoundaryCrlf(boundary) + F.Lines(p.lines) + p.content + CRLF
  {
  }

  lemma BodyFront(boundary: seq<Byte>, parts: seq<F.Part>)
    requires parts != []
    ensures F.Body(F.Form(boundary, parts)) == Piece(boundary, parts[0]) + (F.DASH + boundary + F.After(boundary, parts[1..]))
  {
    hide F.Lines, F.After;
    var p, after := parts[0], F.After(boundary, parts[1..]);
    assert F.CrlfDashBoundary(boundary) + after == CRLF + (F.DASH + boundary + after);
  }

  lemma NextBody(boundary: seq<Byte>, parts: seq<F.Part>)
    ensures F.DASH + boundary + F.After(boundary, parts)
         == if parts == [] then (F.DASH + boundary + F.DASH) + CRLF else F.Body(F.Form(boundary, parts))
  {
    hide F.PartsText;
    if parts == [] {
      AssocBytes(F.DASH + boundary, F.DASH, CRLF);
    } else {
      AssocBytes(F.DASH + boundary, CRLF, F.PartsText(boundary, parts));
    }
  }

  lemma {:induction false} PiecesAreBody(boundary: seq<Byte>, parts: seq<F.Part>)
    requires parts != []
    ensures Pieces(boundary, parts) + ((F.DASH + boundary + F.DASH) + CRLF) == F.Body(F.Form(boundary, parts))
    decreases |parts|
  {
    hide Piece, F.Body, F.After;
    var close := (F.DASH + boundary + F.DASH) + CRLF;
    BodyFront(boundary, parts);
    NextBody(boundary, parts[1..]);
    if |parts| == 1 {
      assert Piece(boundary, parts[0]) + [] == Piece(boundary, parts[0]);
    } else {
      PiecesAreBody(boundary, parts[1..]);
      AssocBytes(Piece(boundary, parts[0]), Pieces(boundary, parts[1..]), close);
    }
  }

  /** The bytes built, with a line end behind them, are the multipart body of the parts asked for. */
  lemma TokensAreBody(ranges: seq<Range>, boundary: seq<Byte>, contentType: seq<Byte>, content: seq<Byte>)
    requires AllInside(ranges, |content|) && ranges != []
    ensures InBounds(Tokens(ranges, boundary, contentType, |content|), |content|)
    ensures Rendered(Tokens(ranges, boundary, contentType, |content|), content) + CRLF
         == F.Body(F.Form(boundary, PartsFor(ranges, contentType, content)))
  {
    hide Rendered, Parts, PartsFor, F.Body;
    PartsRendered(ranges, boundary, contentType, content);
    RenderedThree(DASH, boundary, DASH, content);
    RenderedConcat(Parts(ranges, boundary, contentType, |content|), [Text(DASH), Text(boundary), Text(DASH)], content);
    PiecesAreBody(boundary, PartsFor(ranges, contentType, content));
    AssocBytes(Pieces(boundary, PartsFor(ranges, contentType, content)), DASH + boundary + DASH, CRLF);
  }

  // ----- the answer -----

  /** The request as it is answered: its status, the body, and the field that tells which bytes a single range has. */
  datatype Answer = Answer(status: int, body: seq<Byte>, contentRange: Option<seq<Byte>>)

  /** What a client is owed: an error, the whole content, one stretch, or one part for each range. */
  ghost predicate Owed(a: Answer, ranges: seq<Range>, boundary: seq<Byte>, contentType: seq<Byte>, content: seq<Byte>)
    requires AllInside(ranges, |content|)
  {
    if ranges == [] then a == Answer(OK, content, None)
    else if |ranges| == 1 then a == Answer(PARTIAL_CONTENT, Stretch(ranges[0], content),
                                           Some(ContentRangeField((ranges[0].first, ranges[0].last - ranges[0].first + 1), |content|)))
    else a.status == PARTIAL_CONTENT && a.contentRange == None
         && a.body + CRLF == F.Body(F.Form(boundary, PartsFor(ranges, contentType, content)))
  }

  /** A routed request for content that lies in memory: the status, range_error, and apply_ranges.  The ranges
      answered cover exactly the positions asked for. */
  method Respond(ranges0: seq<Range>, boundary: seq<Byte>, contentType: seq<Byte>, content: seq<Byte>)
      returns (a: Answer, ranges: seq<Range>)
    requires content != []
    ensures a.status == NOT_SATISFIABLE <==> ranges0 != [] && Refused(ranges0, |content|)
    ensures a.status == NOT_SATISFIABLE ==> a == Answer(NOT_SATISFIABLE, [], None)
    ensures a.status != NOT_SATISFIABLE ==>
              && SameCover(AllNormalized(ranges0, |content|), ranges) && AllInside(ranges, |content|)
              && (ranges == [] <==> ranges0 == [])
              && Owed(a, ranges, boundary, contentType, content)
  {
    hide Refused, SameCover, Tokens, Rendered, InBounds, F.Body, PartsFor;
    var status := if ranges0 == [] then OK else PARTIAL_CONTENT;
    var error;
    error, ranges := RangeError(status, |content|, ranges0);
    if error {
      return Answer(NOT_SATISFIABLE, [], None), ranges;
    }
    if ranges == [] {
      a := Answer(status, content, None);
    } else if |ranges| == 1 {
      var t := OffsetAndLength(ranges[0], |content|);
      a := Answer(status, content[t.0..t.0 + t.1], Some(ContentRangeField(t, |content|)));
    } else {
      var data, announced := MakeMultipart(ranges, boundary, contentType, content);
      TokensAreBody(ranges, boundary, contentType, content);
      a := Answer(status, data, None);
    }
  }

  /** What a multipart reader delivers from an answer with several ranges: their stretches of the content, in
      order, in whatever pieces the body comes. */
  method ReadParts<H(!new)>(a: Answer, ranges: seq<Range>, boundary: seq<Byte>, contentType: seq<Byte>, content: seq<Byte>,
                            clear: H, onHeader: (H, seq<Byte>) -> Option<H>, pieces: seq<seq<Byte>>)
      returns (valid: bool, delivered: seq<(H, seq<Byte>)>)
    requires AllInside(ranges, |content|) && |ranges| > 1 && Owed(a, ranges, boundary, contentType, content)
    requires Concat(pieces) == a.body + CRLF
    requires F.GoodForm(onHeader, clear, F.Form(boundary, PartsFor(ranges, contentType, content)))
    ensures valid && |delivered| == |ranges|
    ensures forall i :: 0 <= i < |ranges| ==> delivered[i].1 == content[ranges[i].first..ranges[i].last + 1]
  {
    hide F.GoodForm, F.AllGood, F.Deliveries, F.Body;
    var ok;
    ghost var form := F.Form(boundary, PartsFor(ranges, contentType, content));
    ok, valid, delivered := F.ParsePieces(boundary, clear, onHeader, form, pieces);
    DeliveredContents(onHeader, clear, boundary, form.parts);
  }

  lemma {:induction false} DeliveredContents<H(!new)>(onHeader: (H, seq<Byte>) -> Option<H>, clear: H, boundary: seq<Byte>,
                                                      parts: seq<F.Part>)
    requires F.AllGood(onHeader, clear, boundary, parts)
    ensures |F.Deliveries(onHeader, clear, boundary, parts)| == |parts|
    ensures forall i :: 0 <= i < |parts| ==> F.Deliveries(onHeader, clear, boundary, parts)[i].1 == parts[i].content
    decreases |parts|
  {
    if parts != [] {
      assert F.GoodPart(onHeader, clear, boundary, parts[0]);
      hide F.GoodPart, F.Folded;
      var rest, all := F.Deliveries(onHeader, clear, boundary, parts[1..]), F.Deliveries(onHeader, clear, boundary, parts);
      DeliveredContents(onHeader, clear, boundary, parts[1..]);
      assert all == [all[0]] + rest && all[0].1 == parts[0].content;
      hide F.Deliveries;
      forall i | 0 <= i < |parts| ensures all[i].1 == parts[i].content {
        if i > 0 {
          assert all[i] == rest[i - 1] && parts[i] == parts[1..][i - 1];
        }
      }
    }
  }
}
