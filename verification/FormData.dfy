/** Multipart form data, section 5.1.1 of RFC 2046: a parser fed piece by piece delivers the same parts
    however the body is cut. */
module FormData {
  import opened Bytes
  import opened Options

  const DASH: seq<Byte> := [45, 45]
  const HEADER_MAX_LENGTH := 8192

  // ----- searching -----

  ghost predicate OccursAt(s: seq<Byte>, w: seq<Byte>, i: nat) {
    i + |s| <= |w| && w[i..i + |s|] == s
  }

  /** i is the first place where s occurs in w. */
  ghost predicate First(s: seq<Byte>, w: seq<Byte>, i: nat) {
    OccursAt(s, w, i) && forall j: nat :: j < i ==> !OccursAt(s, w, j)
  }

  /** s does not occur in w. */
  ghost predicate Absent(s: seq<Byte>, w: seq<Byte>) {
    forall j: nat :: j < |w| ==> !OccursAt(s, w, j)
  }

  /** A pattern whose first byte does not come again. */
  ghost predicate HeadOnce(s: seq<Byte>) {
    s != [] && forall i :: 0 < i < |s| ==> s[i] != s[0]
  }

  /** Behind bytes that do not contain it, a pattern without self-overlap occurs where it stands and not
      before. */
  lemma FirstBehind(s: seq<Byte>, text: seq<Byte>, rest: seq<Byte>)
    requires HeadOnce(s) && Absent(s, text)
    ensures First(s, text + s + rest, |text|)
  {
    var w := text + s + rest;
    assert w[|text|..|text| + |s|] == s;
    forall j: nat | j < |text| ensures !OccursAt(s, w, j) {
      if j + |s| <= |text| {
        assert w[j..j + |s|] == text[j..j + |s|];
        assert !OccursAt(s, text, j);
      } else if j + |s| <= |w| {
        assert w[j..j + |s|][|text| - j] == w[|text|] && w[|text|] == s[0];
        assert s[|text| - j] != s[0];
      }
    }
  }

  /** In a window on the bytes, the pattern is found only if it lies inside. */
  lemma FirstInWindow(s: seq<Byte>, w: seq<Byte>, whole: seq<Byte>, i: nat)
    requires w <= whole && First(s, whole, i) && s != []
    ensures i + |s| <= |w| ==> First(s, w, i)
    ensures i + |s| > |w| ==> Absent(s, w)
  {
    forall j: nat | j + |s| <= |w| ensures OccursAt(s, w, j) <==> OccursAt(s, whole, j) {
      assert w[j..j + |s|] == whole[j..j + |s|];
    }
    if i + |s| > |w| {
      forall j: nat | j < |w| ensures !OccursAt(s, w, j) {
        if j + |s| <= |w| {
          assert j < i;
        }
      }
    }
  }

  // ----- the buffer -----

  class Buffer {
    var buf: seq<Byte>
    var spos: nat
    var epos: nat
    ghost var past: seq<Byte>  // the bytes used up

    ghost predicate Valid()
      reads this
    {
      spos <= epos <= |buf|
    }

    /** The bytes not used up yet. */
    ghost function Window(): seq<Byte>
      requires Valid()
      reads this
    {
      buf[spos..epos]
    }

    constructor ()
      ensures Valid() && Window() == [] && past == []
    {
      buf, spos, epos, past := [], 0, 0, [];
    }

    /** The first loop of buf_append: what is left moves to the front. */
    method MoveFront()
      requires Valid()
      modifies this
      ensures Valid() && spos == 0 && Window() == old(Window()) && past == old(past)
    {
      ghost var window := Window();
      var remaining := epos - spos;
      if remaining > 0 && spos > 0 {
        for i := 0 to remaining
          invariant |buf| == |old(buf)| && spos == old(spos) && epos == old(epos) && past == old(past)
          invariant buf[..i] == window[..i] && buf[spos + i..epos] == window[i..]
        {
          ghost var was := buf;
          assert buf[spos + i] == window[i..][0];
          buf := buf[i := buf[spos + i]];
          assert buf[spos + i + 1..epos] == was[spos + i..epos][1..];
        }
      }
      assert buf[..remaining] == window;
      spos, epos := 0, remaining;
    }

    /** resize: what was there stays. */
    method Grow(size: nat)
      requires Valid() && spos == 0
      modifies this`buf
      ensures Valid() && Window() == old(Window()) && size <= |buf|
    {
      if size > |buf| {
        var grown: seq<Byte> := *;
        if |grown| != size || grown[..|buf|] != buf {
          grown := buf + seq(size - |buf|, _ => 0);
        }
        assert grown[..|buf|][..epos] == grown[..epos];
        buf := grown;
      }
    }

    /** buf_append: moves what is left to the front and appends the data, growing if needed. */
    method Append(data: seq<Byte>)
      requires Valid()
      modifies this
      ensures Valid() && Window() == old(Window()) + data && past == old(past)
    {
      ghost var window := Window();
      MoveFront();
      Grow(epos + |data|);
      ghost var n := epos;
      assert buf[..n] == window;
      for i := 0 to |data|
        invariant spos == 0 && epos == n && n + |data| <= |buf| && past == old(past)
        invariant buf[..n + i] == window + data[..i]
      {
        buf := buf[epos + i := data[i]];
      }
      epos := epos + |data|;
      assert data[..|data|] == data;
    }

    /** buf_erase */
    method Erase(n: nat)
      requires Valid() && n <= epos - spos
      modifies this`spos, this`past
      ensures Valid() && Window() == old(Window())[n..] && past == old(past) + old(Window())[..n]
      ensures past + Window() == old(past + Window())
    {
      past := past + Window()[..n];
      spos := spos + n;
    }

    /** buf_start_with */
    method StartsWith(s: seq<Byte>, at: nat) returns (b: bool)
      requires Valid() && spos <= at <= epos
      ensures b <==> OccursAt(s, Window(), at - spos)
    {
      if epos - at < |s| {
        return false;
      }
      ghost var here := Window()[at - spos..at - spos + |s|];
      for i := 0 to |s|
        invariant forall j :: 0 <= j < i ==> here[j] == s[j]
      {
        assert here[i] == buf[at + i];
        if buf[at + i] != s[i] {
          return false;
        }
      }
      return true;
    }

    /** buf_find: the first occurrence, or the size of the window. */
    method Find(s: seq<Byte>) returns (pos: nat)
      requires Valid() && s != []
      ensures pos < |Window()| ==> First(s, Window(), pos)
      ensures pos == |Window()| ==> Absent(s, Window())
      ensures pos <= |Window()|
    {
      hide OccursAt;
      ghost var w := Window();
      var off := spos;
      while off < epos
        invariant spos <= off <= epos
        invariant forall j: nat :: j < off - spos ==> !OccursAt(s, w, j)
      {
        var p := off;
        while p != epos && buf[p] != s[0]
          invariant off <= p <= epos
          invariant forall j: nat :: j < p - spos ==> !OccursAt(s, w, j)
          decreases epos - p
        {
          NotHere(s, w, p - spos);
          p := p + 1;
        }
        if p == epos || |s| > epos - p {
          NoRoom(s, w, p - spos);
          return epos - spos;
        }
        var b := StartsWith(s, p);
        if b {
          return p - spos;
        }
        off := p + 1;
      }
      pos := epos - spos;
    }
  }

  lemma NotHere(s: seq<Byte>, w: seq<Byte>, j: nat)
    requires s != [] && j < |w| && w[j] != s[0]
    ensures !OccursAt(s, w, j)
  {
    if j + |s| <= |w| {
      assert w[j..j + |s|][0] == w[j];
    }
  }

  lemma NoRoom(s: seq<Byte>, w: seq<Byte>, p: nat)
    requires s != [] && |w| - |s| < p && forall j: nat :: j < p ==> !OccursAt(s, w, j)
    ensures Absent(s, w)
  {
  }

  // ----- bodies -----

  /** A part: its header lines and its content. */
  datatype Part = Part(lines: seq<seq<Byte>>, content: seq<Byte>)

  datatype Form = Form(boundary: seq<Byte>, parts: seq<Part>)

  function DashBoundaryCrlf(boundary: seq<Byte>): seq<Byte> {
    DASH + boundary + CRLF
  }

  function CrlfDashBoundary(boundary: seq<Byte>): seq<Byte> {
    CRLF + DASH + boundary
  }

  function Lines(lines: seq<seq<Byte>>): seq<Byte> {
    if lines == [] then CRLF else lines[0] + CRLF + Lines(lines[1..])
  }

  /** What stands behind the first boundary. */
  function PartsText(boundary: seq<Byte>, parts: seq<Part>): seq<Byte>
    requires parts != []
    decreases |parts|, 0
  {
    Lines(parts[0].lines) + (parts[0].content + CrlfDashBoundary(boundary) + After(boundary, parts[1..]))
  }

  /** What stands behind a boundary that closes a part. */
  function After(boundary: seq<Byte>, parts: seq<Part>): seq<Byte>
    decreases |parts|, 1
  {
    if parts == [] then DASH + CRLF else CRLF + PartsText(boundary, parts)
  }

  /** serialize_multipart_formdata, for at least one part */
  function Body(form: Form): seq<Byte>
    requires form.parts != []
  {
    DashBoundaryCrlf(form.boundary) + PartsText(form.boundary, form.parts)
  }

  /** Header lines are not empty, contain no line end, and stay below the limit. */
  ghost predicate GoodLine(line: seq<Byte>) {
    line != [] && Absent(CRLF, line) && |line| < HEADER_MAX_LENGTH
  }

  /** How a header line changes what is known of the part; None for one that cannot be parsed. */
  ghost function Folded<F>(onHeader: (F, seq<Byte>) -> Option<F>, file: F, lines: seq<seq<Byte>>): Option<F> {
    if lines == [] then Some(file)
    else match onHeader(file, lines[0]) case None => None case Some(f) => Folded(onHeader, f, lines[1..])
  }

  ghost predicate GoodPart<F(!new)>(onHeader: (F, seq<Byte>) -> Option<F>, clear: F, boundary: seq<Byte>, p: Part) {
    && (forall i :: 0 <= i < |p.lines| ==> GoodLine(p.lines[i]))
    && Absent(CrlfDashBoundary(boundary), p.content) && Folded(onHeader, clear, p.lines).Some?
  }

  /** Contents free of the delimiter, header lines that parse, and a boundary without CR. */
  ghost predicate GoodForm<F(!new)>(onHeader: (F, seq<Byte>) -> Option<F>, clear: F, form: Form) {
    && form.parts != [] && (forall i :: 0 <= i < |form.boundary| ==> form.boundary[i] != CR)
    && AllGood(onHeader, clear, form.boundary, form.parts)
  }

  ghost predicate AllGood<F(!new)>(onHeader: (F, seq<Byte>) -> Option<F>, clear: F, boundary: seq<Byte>, parts: seq<Part>) {
    forall i :: 0 <= i < |parts| ==> GoodPart(onHeader, clear, boundary, parts[i])
  }

  lemma DelimiterHeadOnce(boundary: seq<Byte>)
    requires forall i :: 0 <= i < |boundary| ==> boundary[i] != CR
    ensures HeadOnce(CrlfDashBoundary(boundary)) && HeadOnce(CRLF)
  {
  }

  /** What the callbacks are to receive: for every part what its header says, and its content. */
  ghost function Deliveries<F(!new)>(onHeader: (F, seq<Byte>) -> Option<F>, clear: F, boundary: seq<Byte>, parts: seq<Part>): seq<(F, seq<Byte>)>
    requires AllGood(onHeader, clear, boundary, parts)
  {
    if parts == [] then []
    else
      assert GoodPart(onHeader, clear, boundary, parts[0]);
      [(Folded(onHeader, clear, parts[0].lines).value, parts[0].content)]
      + Deliveries(onHeader, clear, boundary, parts[1..])
  }

  // ----- what has gone by -----

  ghost predicate Plain(line: seq<Byte>) {
    line != [] && Absent(CRLF, line)
  }

  ghost predicate AllPlain(lines: seq<seq<Byte>>) {
    forall i :: 0 <= i < |lines| ==> Plain(lines[i])
  }

  /** A part that the parser may have read. */
  ghost predicate SoundPart<F(!new)>(onHeader: (F, seq<Byte>) -> Option<F>, clear: F, boundary: seq<Byte>, p: Part) {
    AllPlain(p.lines) && Absent(CrlfDashBoundary(boundary), p.content) && Folded(onHeader, clear, p.lines).Some?
  }

  ghost predicate AllSound<F(!new)>(onHeader: (F, seq<Byte>) -> Option<F>, clear: F, boundary: seq<Byte>, parts: seq<Part>) {
    forall i :: 0 <= i < |parts| ==> SoundPart(onHeader, clear, boundary, parts[i])
  }

  /** The callbacks have received these parts, first of all. */
  ghost predicate Told<F(!new)>(onHeader: (F, seq<Byte>) -> Option<F>, clear: F, parts: seq<Part>, delivered: seq<(F, seq<Byte>)>) {
    && |parts| <= |delivered|
    && forall i :: 0 <= i < |parts| ==>
         Folded(onHeader, clear, parts[i].lines) == Some(delivered[i].0) && parts[i].content == delivered[i].1
  }

  function PartText(boundary: seq<Byte>, p: Part): seq<Byte> {
    Lines(p.lines) + p.content + CrlfDashBoundary(boundary)
  }

  /** Complete parts, each up to the delimiter that ends it, with a line end between any two. */
  ghost function Joined(boundary: seq<Byte>, parts: seq<Part>): seq<Byte> {
    if parts == [] then []
    else
      var n := |parts| - 1;
      Joined(boundary, parts[..n]) + ((if n == 0 then [] else CRLF) + PartText(boundary, parts[n]))
  }

  /** Header lines without the empty line behind them. */
  ghost function OpenLines(lines: seq<seq<Byte>>): seq<Byte> {
    if lines == [] then [] else OpenLines(lines[..|lines| - 1]) + (lines[|lines| - 1] + CRLF)
  }

  /** What was in front of the first boundary, the parts that are complete, the lines and the content of the one that
      is not, and whether the end was reached. */
  datatype Past = Past(pre: seq<Byte>, done: seq<Part>, lines: seq<seq<Byte>>, content: seq<Byte>, ended: bool)

  ghost function Front(boundary: seq<Byte>, h: Past): seq<Byte> {
    h.pre + DashBoundaryCrlf(boundary) + Joined(boundary, h.done)
  }

  ghost function Opened(boundary: seq<Byte>, h: Past): seq<Byte> {
    Front(boundary, h) + if h.done == [] then [] else CRLF
  }

  /** No delimiter begins in the content. */
  ghost predicate NoStart(delimiter: seq<Byte>, content: seq<Byte>, window: seq<Byte>) {
    forall j: nat :: j < |content| ==> j + |delimiter| <= |content + window| && !OccursAt(delimiter, content + window, j)
  }

  /** The bytes used up are those of the parts delivered. */
  ghost predicate InParts<F(!new)>(onHeader: (F, seq<Byte>) -> Option<F>, clear: F, boundary: seq<Byte>, past: seq<Byte>,
                                   window: seq<Byte>, h: Past, state: nat, file: F, delivered: seq<(F, seq<Byte>)>)
  {
    var n := |h.done|;
    match state
    case 0 => past == [] && n == 0 == |delivered|
    case 1 => past == Opened(boundary, h) && n == |delivered|
    case 2 => past == Opened(boundary, h) + OpenLines(h.lines) && n == |delivered|
              && AllPlain(h.lines) && Folded(onHeader, clear, h.lines) == Some(file)
    case 3 => past == Opened(boundary, h) + (Lines(h.lines) + h.content) && n + 1 == |delivered|
              && AllPlain(h.lines) && Folded(onHeader, clear, h.lines) == Some(delivered[n].0)
              && delivered[n].1 == h.content && NoStart(CrlfDashBoundary(boundary), h.content, window)
    case _ => past == Front(boundary, h) && n == |delivered| != 0
  }

  /** Up to the closing dashes all bytes belong to parts; then only these parts are spoken of. */
  ghost predicate Behind<F(!new)>(onHeader: (F, seq<Byte>) -> Option<F>, clear: F, boundary: seq<Byte>, past: seq<Byte>,
                                  window: seq<Byte>, h: Past, state: nat, file: F, delivered: seq<(F, seq<Byte>)>)
  {
    && AllSound(onHeader, clear, boundary, h.done) && Told(onHeader, clear, h.done, delivered)
    && (state > 0 ==> First(DashBoundaryCrlf(boundary), past + window, |h.pre|))
    && if h.ended then state > 0 && h.done != [] && Front(boundary, h) + DASH <= past && (state == 3 ==> |h.done| < |delivered|)
       else InParts(onHeader, clear, boundary, past, window, h, state, file, delivered)
  }

  /** Bytes that a parser accepts: parts one behind the other, up to the closing dashes. */
  ghost predicate Accepts<F(!new)>(onHeader: (F, seq<Byte>) -> Option<F>, clear: F, boundary: seq<Byte>, bytes: seq<Byte>,
                                   pre: seq<Byte>, parts: seq<Part>, delivered: seq<(F, seq<Byte>)>)
  {
    && parts != [] && AllSound(onHeader, clear, boundary, parts) && Told(onHeader, clear, parts, delivered)
    && First(DashBoundaryCrlf(boundary), bytes, |pre|)
    && pre + DashBoundaryCrlf(boundary) + Joined(boundary, parts) + DASH <= bytes
  }

  lemma OccursStays(s: seq<Byte>, w: seq<Byte>, more: seq<Byte>, j: nat)
    requires j + |s| <= |w|
    ensures OccursAt(s, w + more, j) <==> OccursAt(s, w, j)
  {
    assert (w + more)[j..j + |s|] == w[j..j + |s|];
  }

  lemma FirstStays(s: seq<Byte>, w: seq<Byte>, more: seq<Byte>, i: nat)
    requires First(s, w, i)
    ensures First(s, w + more, i)
  {
    FirstFits(s, w, i);
    hide OccursAt;
    OccursStays(s, w, more, i);
    forall j: nat | j < i ensures !OccursAt(s, w + more, j) {
      OccursStays(s, w, more, j);
    }
  }

  lemma NoStartStays(d: seq<Byte>, content: seq<Byte>, window: seq<Byte>, more: seq<Byte>)
    requires NoStart(d, content, window)
    ensures NoStart(d, content, window + more)
  {
    hide OccursAt;
    assert content + (window + more) == content + window + more;
    forall j: nat | j < |content| ensures j + |d| <= |content + (window + more)| && !OccursAt(d, content + (window + more), j) {
      assert !OccursAt(d, content + window, j);
      OccursStays(d, content + window, more, j);
    }
  }

  /** More bytes arrive. */
  lemma BehindStays<F(!new)>(onHeader: (F, seq<Byte>) -> Option<F>, clear: F, boundary: seq<Byte>, past: seq<Byte>,
                             window: seq<Byte>, h: Past, state: nat, file: F, delivered: seq<(F, seq<Byte>)>, more: seq<Byte>)
    requires Behind(onHeader, clear, boundary, past, window, h, state, file, delivered)
    ensures Behind(onHeader, clear, boundary, past, window + more, h, state, file, delivered)
  {
    hide First, NoStart, AllSound, Told, AllPlain, CrlfDashBoundary, DashBoundaryCrlf;
    if state > 0 {
      FirstStays(DashBoundaryCrlf(boundary), past + window, more, |h.pre|);
      assert past + window + more == past + (window + more);
    }
    if state == 3 && !h.ended {
      NoStartStays(CrlfDashBoundary(boundary), h.content, window, more);
    }
  }

  /** Behind the end, what is used up and delivered may only grow. */
  lemma EndStays<F(!new)>(onHeader: (F, seq<Byte>) -> Option<F>, clear: F, boundary: seq<Byte>, past: seq<Byte>, window: seq<Byte>,
                          h: Past, state: nat, file: F, delivered: seq<(F, seq<Byte>)>, n: nat, h': Past, state': nat, file': F,
                          delivered': seq<(F, seq<Byte>)>)
    requires Behind(onHeader, clear, boundary, past, window, h, state, file, delivered) && h.ended && n <= |window|
    requires h'.ended && h'.pre == h.pre && h'.done == h.done && state' > 0 && (state' == 3 ==> |h.done| < |delivered'|)
    requires |delivered| <= |delivered'| && forall i :: 0 <= i < |h.done| ==> delivered'[i] == delivered[i]
    ensures Behind(onHeader, clear, boundary, past + window[..n], window[n..], h', state', file', delivered')
  {
    hide First, AllSound, CrlfDashBoundary, DashBoundaryCrlf, Joined, Folded;
    assert past + window[..n] + window[n..] == past + window;
  }

  /** The first boundary. */
  lemma OpeningBehind<F(!new)>(onHeader: (F, seq<Byte>) -> Option<F>, clear: F, boundary: seq<Byte>, past: seq<Byte>, window: seq<Byte>,
                               h: Past, file: F, delivered: seq<(F, seq<Byte>)>, pos: nat)
    requires Behind(onHeader, clear, boundary, past, window, h, 0, file, delivered)
    requires First(DashBoundaryCrlf(boundary), window, pos)
    ensures var n := pos + |DashBoundaryCrlf(boundary)|;
            && n <= |window|
            && Behind(onHeader, clear, boundary, past + window[..n], window[n..], h.(pre := window[..pos]), 1, file, delivered)
  {
    hide AllSound, Told, DashBoundaryCrlf;
    var d := DashBoundaryCrlf(boundary);
    var n := pos + |d|;
    assert window[..n] == window[..pos] + d;
    assert past + window[..n] + window[n..] == window;
    assert Opened(boundary, h.(pre := window[..pos])) == window[..pos] + d + [] + [];
  }

  lemma FreshBehind<F(!new)>(onHeader: (F, seq<Byte>) -> Option<F>, clear: F, boundary: seq<Byte>, past: seq<Byte>, window: seq<Byte>,
                             h: Past, file: F, delivered: seq<(F, seq<Byte>)>)
    requires Behind(onHeader, clear, boundary, past, window, h, 1, file, delivered)
    ensures Behind(onHeader, clear, boundary, past, window, h.(lines := []), 2, clear, delivered)
  {
    hide AllSound, Told, First, Joined;
    assert Opened(boundary, h) + [] == Opened(boundary, h);
  }

  lemma {:induction false} FoldedMore<F(!new)>(onHeader: (F, seq<Byte>) -> Option<F>, clear: F, lines: seq<seq<Byte>>, line: seq<Byte>)
    ensures Folded(onHeader, clear, lines + [line])
            == match Folded(onHeader, clear, lines) case None => None case Some(f) => onHeader(f, line)
    decreases |lines|
  {
    var more := lines + [line];
    if lines == [] {
      assert more[1..] == [];
    } else {
      assert more[1..] == lines[1..] + [line];
      match onHeader(clear, lines[0])
      case None =>
      case Some(f) => FoldedMore(onHeader, f, lines[1..], line);
    }
  }

  /** A line of the window without its end. */
  lemma PlainLine(window: seq<Byte>, pos: nat)
    requires 0 < pos && First(CRLF, window, pos)
    ensures pos + 2 <= |window| && Plain(window[..pos]) && window[..pos + 2] == window[..pos] + CRLF
  {
    var line := window[..pos];
    forall j: nat | j < |line| ensures !OccursAt(CRLF, line, j) {
      if j + 2 <= |line| {
        assert line[j..j + 2] == window[j..j + 2];
        assert !OccursAt(CRLF, window, j);
      }
    }
    assert window[pos..pos + 2] == CRLF;
  }

  lemma LineBehind<F(!new)>(onHeader: (F, seq<Byte>) -> Option<F>, clear: F, boundary: seq<Byte>, past: seq<Byte>, window: seq<Byte>,
                            h: Past, file: F, delivered: seq<(F, seq<Byte>)>, pos: nat)
    requires Behind(onHeader, clear, boundary, past, window, h, 2, file, delivered)
    requires 0 < pos && First(CRLF, window, pos) && onHeader(file, window[..pos]).Some?
    ensures pos + 2 <= |window|
    ensures Behind(onHeader, clear, boundary, past + window[..pos + 2], window[pos + 2..], h.(lines := h.lines + [window[..pos]]), 2,
                   onHeader(file, window[..pos]).value, delivered)
  {
    PlainLine(window, pos);
    hide AllSound, Told, First, Joined, Plain, DashBoundaryCrlf;
    var line, f := window[..pos], onHeader(file, window[..pos]).value;
    var h' := h.(lines := h.lines + [line]);
    if h.ended {
      EndStays(onHeader, clear, boundary, past, window, h, 2, file, delivered, pos + 2, h', 2, f, delivered);
    } else {
      FoldedMore(onHeader, clear, h.lines, line);
      assert h'.lines[..|h.lines|] == h.lines;
      assert Opened(boundary, h') == Opened(boundary, h);
      assert past + window[..pos + 2] == Opened(boundary, h) + (OpenLines(h.lines) + (line + CRLF));
      assert past + window[..pos + 2] + window[pos + 2..] == past + window;
    }
  }

  lemma {:induction false} LinesOpen(lines: seq<seq<Byte>>)
    ensures Lines(lines) == OpenLines(lines) + CRLF
    decreases |lines|
  {
    if lines == [] {
      assert [] + CRLF == CRLF;
    } else {
      LinesOpen(lines[1..]);
      OpenLinesFront(lines);
      assert lines[0] + CRLF + OpenLines(lines[1..]) + CRLF == lines[0] + CRLF + (OpenLines(lines[1..]) + CRLF);
    }
  }

  lemma {:induction false} OpenLinesFront(lines: seq<seq<Byte>>)
    requires lines != []
    ensures OpenLines(lines) == lines[0] + CRLF + OpenLines(lines[1..])
    decreases |lines|
  {
    var n := |lines| - 1;
    if n == 0 {
      assert lines[..0] == [] && lines[1..] == [];
      assert OpenLines(lines) == [] + (lines[0] + CRLF);
    } else {
      var first, middle, last := lines[0] + CRLF, OpenLines(lines[1..][..n - 1]), lines[n] + CRLF;
      OpenLinesFront(lines[..n]);
      assert lines[..n][1..] == lines[1..][..n - 1] && lines[1..][n - 1] == lines[n];
      assert OpenLines(lines[1..]) == middle + last;
      hide OpenLines;
      assert first + middle + last == first + (middle + last);
    }
  }

  lemma LinesClosed(front: seq<Byte>, lines: seq<Byte>)
    ensures front + lines + CRLF == front + ((lines + CRLF) + [])
  {
  }

  lemma EmptyLineBehind<F(!new)>(onHeader: (F, seq<Byte>) -> Option<F>, clear: F, boundary: seq<Byte>, past: seq<Byte>, window: seq<Byte>,
                                 h: Past, file: F, delivered: seq<(F, seq<Byte>)>)
    requires Behind(onHeader, clear, boundary, past, window, h, 2, file, delivered) && First(CRLF, window, 0)
    ensures 2 <= |window|
    ensures Behind(onHeader, clear, boundary, past + window[..2], window[2..], h.(content := []), 3, file, delivered + [(file, [])])
  {
    FirstFits(CRLF, window, 0);
    assert window[..2] == CRLF by { assert window[0..0 + 2] == window[..2]; }
    hide AllSound, First, Joined, AllPlain, Folded, Lines, OpenLines, DashBoundaryCrlf;
    var h', more := h.(content := []), delivered + [(file, [])];
    if h.ended {
      EndStays(onHeader, clear, boundary, past, window, h, 2, file, delivered, 2, h', 3, file, more);
    } else {
      LinesOpen(h.lines);
      assert Opened(boundary, h') == Opened(boundary, h);
      hide Opened, Front;
      LinesClosed(Opened(boundary, h), OpenLines(h.lines));
      assert past + window[..2] + window[2..] == past + window;
    }
  }

  lemma NoStartGoesOn(d: seq<Byte>, content: seq<Byte>, window: seq<Byte>, len: nat)
    requires NoStart(d, content, window) && Absent(d, window) && len + |d| <= |window|
    ensures NoStart(d, content + window[..len], window[len..])
  {
    var x, more := content + window, content + window[..len];
    assert more + window[len..] == x;
    forall j: nat | j < |more| ensures j + |d| <= |x| && !OccursAt(d, x, j) {
      if |content| <= j {
        var k := j - |content|;
        assert x[j..j + |d|] == window[k..k + |d|] && !OccursAt(d, window, k);
      }
    }
  }

  lemma ContentBehind<F(!new)>(onHeader: (F, seq<Byte>) -> Option<F>, clear: F, boundary: seq<Byte>, past: seq<Byte>, window: seq<Byte>,
                               h: Past, file: F, delivered: seq<(F, seq<Byte>)>, len: nat)
    requires Behind(onHeader, clear, boundary, past, window, h, 3, file, delivered) && delivered != []
    requires Absent(CrlfDashBoundary(boundary), window) && len + |CrlfDashBoundary(boundary)| <= |window|
    ensures Behind(onHeader, clear, boundary, past + window[..len], window[len..], h.(content := h.content + window[..len]), 3, file,
                   Extended(delivered, window[..len]))
  {
    hide AllSound, First, Joined, AllPlain, Folded, Lines, OpenLines, NoStart, Absent, CrlfDashBoundary, DashBoundaryCrlf;
    var h', more := h.(content := h.content + window[..len]), Extended(delivered, window[..len]);
    if h.ended {
      EndStays(onHeader, clear, boundary, past, window, h, 3, file, delivered, len, h', 3, file, more);
    } else {
      NoStartGoesOn(CrlfDashBoundary(boundary), h.content, window, len);
      assert Opened(boundary, h') == Opened(boundary, h);
      var front, lines := Opened(boundary, h), Lines(h.lines);
      assert front + (lines + h.content) + window[..len] == front + (lines + (h.content + window[..len]));
      assert past + window[..len] + window[len..] == past + window;
      assert |delivered| - 1 == |h.done|;
    }
  }

  lemma ContentWhole(d: seq<Byte>, content: seq<Byte>, window: seq<Byte>, pos: nat)
    requires NoStart(d, content, window) && First(d, window, pos)
    ensures pos + |d| <= |window| && window[..pos + |d|] == window[..pos] + d
    ensures Absent(d, content + window[..pos])
  {
    var x, whole := content + window, content + window[..pos];
    assert window[pos..pos + |d|] == d;
    forall j: nat | j < |whole| ensures !OccursAt(d, whole, j) {
      if j + |d| <= |whole| {
        assert whole[j..j + |d|] == x[j..j + |d|];
        if |content| <= j {
          var k := j - |content|;
          assert x[j..j + |d|] == window[k..k + |d|] && !OccursAt(d, window, k);
        } else {
          assert !OccursAt(d, x, j);
        }
      }
    }
  }

  lemma PartBehind<F(!new)>(onHeader: (F, seq<Byte>) -> Option<F>, clear: F, boundary: seq<Byte>, past: seq<Byte>, window: seq<Byte>,
                            h: Past, file: F, delivered: seq<(F, seq<Byte>)>, pos: nat)
    requires Behind(onHeader, clear, boundary, past, window, h, 3, file, delivered) && delivered != []
    requires First(CrlfDashBoundary(boundary), window, pos)
    ensures var n := pos + |CrlfDashBoundary(boundary)|;
            && n <= |window|
            && Behind(onHeader, clear, boundary, past + window[..n], window[n..], PartDone(h, window[..pos]), 4, file,
                      Extended(delivered, window[..pos]))
  {
    FirstFits(CrlfDashBoundary(boundary), window, pos);
    hide First, Front, Absent, CrlfDashBoundary, DashBoundaryCrlf, Folded, Lines, AllPlain, NoStart;
    var d := CrlfDashBoundary(boundary);
    var n, h', more := pos + |d|, PartDone(h, window[..pos]), Extended(delivered, window[..pos]);
    if h.ended {
      EndStays(onHeader, clear, boundary, past, window, h, 3, file, delivered, n, h', 4, file, more);
    } else {
      ContentWhole(d, h.content, window, pos);
      DoneMore(boundary, h, window[..pos]);
      var p := Part(h.lines, h.content + window[..pos]);
      hide Opened;
      assert SoundPart(onHeader, clear, boundary, p);
      Regrouped(Opened(boundary, h), Lines(h.lines), h.content, window[..pos], d);
      OneMoreSound(onHeader, clear, boundary, h.done, p);
      OneMoreTold(onHeader, clear, h.done, p, delivered, window[..pos]);
      hide AllSound, Told, SoundPart, PartText;
      assert past + window[..n] + window[n..] == past + window;
    }
  }

  lemma OneMoreSound<F(!new)>(onHeader: (F, seq<Byte>) -> Option<F>, clear: F, boundary: seq<Byte>, parts: seq<Part>, p: Part)
    requires AllSound(onHeader, clear, boundary, parts) && SoundPart(onHeader, clear, boundary, p)
    ensures AllSound(onHeader, clear, boundary, parts + [p])
  {
  }

  lemma OneMoreTold<F(!new)>(onHeader: (F, seq<Byte>) -> Option<F>, clear: F, parts: seq<Part>, p: Part,
                             delivered: seq<(F, seq<Byte>)>, last: seq<Byte>)
    requires Told(onHeader, clear, parts, delivered) && |delivered| == |parts| + 1
    requires Folded(onHeader, clear, p.lines) == Some(delivered[|parts|].0) && p.content == delivered[|parts|].1 + last
    ensures Told(onHeader, clear, parts + [p], Extended(delivered, last))
  {
    hide Folded;
  }

  lemma Regrouped(a: seq<Byte>, b: seq<Byte>, c: seq<Byte>, e: seq<Byte>, d: seq<Byte>)
    ensures a + (b + c) + (e + d) == a + (b + (c + e) + d)
  {
  }

  /** The part that is open becomes complete; behind the end nothing is kept. */
  ghost function PartDone(h: Past, last: seq<Byte>): Past {
    if h.ended then h else h.(done := h.done + [Part(h.lines, h.content + last)])
  }

  lemma EndedStays(h: Past, last: seq<Byte>)
    ensures h.ended == PartDone(h, last).ended
  {
  }

  lemma DoneMore(boundary: seq<Byte>, h: Past, last: seq<Byte>)
    requires !h.ended
    ensures Front(boundary, PartDone(h, last)) == Opened(boundary, h) + PartText(boundary, Part(h.lines, h.content + last))
  {
    hide PartText, DashBoundaryCrlf;
    var p := Part(h.lines, h.content + last);
    var n := |h.done|;
    assert (h.done + [p])[..n] == h.done;
    var front, end := h.pre + DashBoundaryCrlf(boundary), if n == 0 then [] else CRLF;
    assert front + (Joined(boundary, h.done) + (end + PartText(boundary, p)))
        == front + Joined(boundary, h.done) + end + PartText(boundary, p);
  }

  /** A line end behind the delimiter, or the closing dashes. */
  lemma ClosingBehind<F(!new)>(onHeader: (F, seq<Byte>) -> Option<F>, clear: F, boundary: seq<Byte>, past: seq<Byte>, window: seq<Byte>,
                               h: Past, file: F, delivered: seq<(F, seq<Byte>)>)
    requires Behind(onHeader, clear, boundary, past, window, h, 4, file, delivered) && 2 <= |window|
    ensures window[..2] == CRLF ==> Behind(onHeader, clear, boundary, past + CRLF, window[2..], h, 1, file, delivered)
    ensures window[..2] == DASH ==> Behind(onHeader, clear, boundary, past + window, [], h.(ended := true), 4, file, delivered)
  {
    hide AllSound, First, Joined;
    assert past + window[..2] + window[2..] == past + window == past + window + [];
    if h.ended {
      EndStays(onHeader, clear, boundary, past, window, h, 4, file, delivered, 2, h, 1, file, delivered);
      EndStays(onHeader, clear, boundary, past, window, h, 4, file, delivered, |window|, h, 4, file, delivered);
    } else {
      assert past + window[..2] <= past + window;
    }
  }

  /** The body of a form is its first boundary, its parts and the end. */
  lemma BodyJoined(form: Form)
    requires form.parts != []
    ensures Body(form) == DashBoundaryCrlf(form.boundary) + Joined(form.boundary, form.parts) + DASH + CRLF
  {
    hide Joined, DashBoundaryCrlf;
    PartsJoined(form.boundary, form.parts);
  }

  lemma {:induction false} PartsJoined(boundary: seq<Byte>, parts: seq<Part>)
    requires parts != []
    ensures PartsText(boundary, parts) == Joined(boundary, parts) + DASH + CRLF
    decreases |parts|
  {
    hide CrlfDashBoundary, Lines, Joined;
    JoinedFront(boundary, parts);
    var p, d := parts[0], CrlfDashBoundary(boundary);
    if |parts| == 1 {
      assert Lines(p.lines) + (p.content + d + (DASH + CRLF)) == Lines(p.lines) + p.content + d + [] + DASH + CRLF;
    } else {
      PartsJoined(boundary, parts[1..]);
      var rest := Joined(boundary, parts[1..]);
      assert Lines(p.lines) + (p.content + d + (CRLF + (rest + DASH + CRLF)))
          == Lines(p.lines) + p.content + d + (CRLF + rest) + DASH + CRLF;
    }
  }

  lemma JoinedLast(boundary: seq<Byte>, parts: seq<Part>)
    requires parts != []
    ensures var n := |parts| - 1;
            Joined(boundary, parts) == Joined(boundary, parts[..n]) + ((if n == 0 then [] else CRLF) + PartText(boundary, parts[n]))
    ensures Joined(boundary, []) == []
  {
  }

  lemma {:induction false} JoinedFront(boundary: seq<Byte>, parts: seq<Part>)
    requires parts != []
    ensures Joined(boundary, parts)
            == PartText(boundary, parts[0]) + if |parts| == 1 then [] else CRLF + Joined(boundary, parts[1..])
    decreases |parts|
  {
    hide PartText, Joined;
    var n := |parts| - 1;
    JoinedLast(boundary, parts);
    if n == 0 {
      assert parts[..0] == [];
    } else {
      var front, tail := parts[..n], parts[1..];
      JoinedFront(boundary, front);
      JoinedLast(boundary, tail);
      assert front[1..] == tail[..n - 1] && tail[n - 1] == parts[n] && front[0] == parts[0];
      var first, last, middle := PartText(boundary, parts[0]), PartText(boundary, parts[n]), Joined(boundary, front[1..]);
      if n == 1 {
        assert tail[..0] == [] && first + [] + (CRLF + last) == first + (CRLF + ([] + ([] + last)));
      } else {
        assert first + (CRLF + middle) + (CRLF + last) == first + (CRLF + (middle + (CRLF + last)));
      }
    }
  }

  // ----- where the parser stands -----

  datatype Stage<F> =
    | Opening
    | Fresh(left: seq<Part>)
    | Headers(file: F, lines: seq<seq<Byte>>, left: seq<Part>)
    | Content(rest: seq<Byte>, left: seq<Part>)
    | Closing(left: seq<Part>)
    | Finished(tail: seq<Byte>)

  /** The bytes still to come, used or not. */
  ghost function Ahead<F>(form: Form, stage: Stage<F>): seq<Byte> {
    var b := form.boundary;
    match stage
    case Opening => if form.parts == [] then [] else Body(form)
    case Fresh(left) => if left == [] then [] else PartsText(b, left)
    case Headers(_, lines, left) =>
      if left == [] then [] else Lines(lines) + (left[0].content + CrlfDashBoundary(b) + After(b, left[1..]))
    case Content(rest, left) => if left == [] then [] else rest + CrlfDashBoundary(b) + After(b, left[1..])
    case Closing(left) => After(b, left)
    case Finished(tail) => tail
  }

  datatype Outcome = Again | Waits | Fails

  /** Of a pattern at a known first place, Find tells how much of it the window holds. */
  lemma FoundOrCut(s: seq<Byte>, w: seq<Byte>, future: seq<Byte>, i: nat, pos: nat)
    requires s != [] && First(s, w + future, i)
    requires pos <= |w| && (pos < |w| ==> First(s, w, pos)) && (pos == |w| ==> Absent(s, w))
    ensures if i + |s| <= |w| then pos == i else pos == |w|
  {
    FirstInWindow(s, w, w + future, i);
    assert i + |s| <= |w| ==> OccursAt(s, w, i);
    assert pos < |w| ==> OccursAt(s, w, pos);
  }

  lemma SplitAt(w: seq<Byte>, future: seq<Byte>, head: seq<Byte>, tail: seq<Byte>)
    requires w + future == head + tail
    ensures |head| <= |w| ==> w[..|head|] == head && w[|head|..] + future == tail
    ensures |head| > |w| ==> future == head[|w|..] + tail
  {
    var whole := w + future;
    assert whole[..|head|] == head && whole[|head|..] == tail;
    if |head| <= |w| {
      assert whole[|head|..] == w[|head|..] + future && whole[..|head|] == w[..|head|];
    } else {
      assert whole[|w|..] == future;
    }
  }

  class FormDataParser<F(!new)> {
    const clear: F
    const onHeader: (F, seq<Byte>) -> Option<F>
    const dashBoundaryCrlf: seq<Byte>
    const crlfDashBoundary: seq<Byte>
    const buffer: Buffer
    var state: nat
    var isValid: bool
    var file: F
    var delivered: seq<(F, seq<Byte>)>  // what the two callbacks have received, part by part
    ghost const form: Form
    ghost var stage: Stage<F>
    ghost var h: Past

    /** What was used up and delivered; valid means that the end was reached. */
    ghost predicate Kept()
      requires buffer.Valid()
      reads this, buffer
    {
      && Behind(onHeader, clear, form.boundary, buffer.past, buffer.Window(), h, state, file, delivered)
      && (isValid ==> h.ended)
    }

    ghost predicate Ready()
      reads this, buffer
    {
      buffer.Valid() && state <= 4 && (state == 3 ==> delivered != [])
      && dashBoundaryCrlf == DashBoundaryCrlf(form.boundary) && crlfDashBoundary == CrlfDashBoundary(form.boundary)
    }

    /** Delivered and owed parts together are all parts. */
    ghost predicate Owes()
      requires GoodForm(onHeader, clear, form)
      reads this
    {
      var b := form.boundary;
      var total := Deliveries(onHeader, clear, b, form.parts);
      match stage
      case Opening => state == 0 && delivered == []
      case Fresh(left) => state == 1 && left != [] && AllGood(onHeader, clear, b, left)
                          && delivered + Deliveries(onHeader, clear, b, left) == total
      case Headers(f, lines, left) =>
        && state == 2 && left != [] && AllGood(onHeader, clear, b, left) && f == file
        && (forall i :: 0 <= i < |lines| ==> GoodLine(lines[i]))
        && Folded(onHeader, f, lines) == Folded(onHeader, clear, left[0].lines)
        && delivered + Deliveries(onHeader, clear, b, left) == total
      case Content(rest, left) =>
        && state == 3 && left != [] && AllGood(onHeader, clear, b, left) && Absent(crlfDashBoundary, rest)
        && delivered != []
        && (var n := |delivered| - 1;
            delivered[..n] + ([(delivered[n].0, delivered[n].1 + rest)] + Deliveries(onHeader, clear, b, left[1..])) == total)
      case Closing(left) => state == 4 && AllGood(onHeader, clear, b, left)
                            && delivered + Deliveries(onHeader, clear, b, left) == total
      case Finished(tail) => (state == 4 || (state == 1 && tail == [])) && isValid && delivered == total
                             && (tail == [] || tail == [LF] || tail == CRLF)
    }

    /** The window and the future are what is ahead. */
    ghost predicate Holding(future: seq<Byte>)
      requires buffer.Valid()
      reads this, buffer
    {
      GoodForm(onHeader, clear, form) && Owes() && buffer.Window() + future == Ahead(form, stage)
    }

    constructor (boundary: seq<Byte>, empty: F, header: (F, seq<Byte>) -> Option<F>, ghost body: Form)
      requires body.boundary == boundary
      ensures Ready() && form == body && delivered == [] && fresh(buffer) && clear == empty && onHeader == header
      ensures GoodForm(header, empty, body) ==> Holding(Body(body))
      ensures Kept() && buffer.past == [] && buffer.Window() == []
    {
      clear, onHeader, file := empty, header, empty;
      dashBoundaryCrlf, crlfDashBoundary := DashBoundaryCrlf(boundary), CrlfDashBoundary(boundary);
      buffer := new Buffer();
      state, isValid, delivered := 0, false, [];
      form, stage, h := body, Opening, Past([], [], [], [], false);
    }

    /** State 0: the initial boundary. */
    method StepOpening(ghost holds: bool, ghost future: seq<Byte>) returns (o: Outcome)
      requires Ready() && Kept() && state == 0 && buffer.Window() != [] && (holds ==> Holding(future) && stage.Opening?)
      modifies this`state, this`stage, this`h, buffer`spos, buffer`past
      ensures Ready() && (o == Again ==> |buffer.Window()| < |old(buffer.Window())|)
      ensures o == Waits || o == Again
      ensures holds ==> Holding(future) && (future == [] ==> o == Again)
      ensures Kept() && buffer.past + buffer.Window() == old(buffer.past + buffer.Window())
    {
      hide Behind, First, Absent, GoodForm, Deliveries, AllGood, PartsText;
      ghost var w := buffer.Window();
      if holds {
        OpeningFirst(form, w, future);
      }
      var pos := buffer.Find(dashBoundaryCrlf);
      if holds {
        FoundOrCut(dashBoundaryCrlf, w, future, 0, pos);
      }
      if pos == buffer.epos - buffer.spos {
        return Waits;
      }
      FirstFits(dashBoundaryCrlf, w, pos);
      OpeningBehind(onHeader, clear, form.boundary, buffer.past, w, h, file, delivered, pos);
      h := h.(pre := w[..pos]);
      buffer.Erase(pos + |dashBoundaryCrlf|);
      state := 1;
      stage := Fresh(form.parts);
      o := Again;
      if holds {
        NonEmptyForm(onHeader, clear, form);
        SplitAt(w, future, dashBoundaryCrlf, PartsText(form.boundary, form.parts));
        NothingDelivered(Deliveries(onHeader, clear, form.boundary, form.parts));
      }
    }

    /** State 1: a new entry. */
    method StepFresh(ghost holds: bool, ghost future: seq<Byte>)
      requires Ready() && Kept() && state == 1 && (holds ==> Holding(future) && stage.Fresh?)
      modifies this`state, this`stage, this`file, this`h
      ensures Ready() && state == 2 && (holds ==> Holding(future))
      ensures Kept() && buffer.past + buffer.Window() == old(buffer.past + buffer.Window())
    {
      hide Behind, Deliveries, PartsText, Lines, After, GoodForm, CrlfDashBoundary, DashBoundaryCrlf;
      FreshBehind(onHeader, clear, form.boundary, buffer.past, buffer.Window(), h, file, delivered);
      h := h.(lines := []);
      file, state := clear, 2;
      if holds {
        FreshIsHeaders(onHeader, clear, form, stage.left);
        stage := Headers(clear, stage.left[0].lines, stage.left);
      }
    }

    /** The empty line behind the header lines: the part is announced. */
    method EmptyLine(ghost holds: bool, ghost future: seq<Byte>)
      requires Ready() && Kept() && state == 2 && First(CRLF, buffer.Window(), 0)
      requires holds ==> Holding(future) && stage.Headers?
      modifies this`state, this`stage, this`delivered, this`h, buffer`spos, buffer`past
      ensures Ready() && state == 3 && |buffer.Window()| < |old(buffer.Window())|
      ensures holds ==> Holding(future) && stage.Content?
      ensures Kept() && buffer.past + buffer.Window() == old(buffer.past + buffer.Window())
    {
      hide Behind, First, Absent, Deliveries, AllGood, GoodForm, CrlfDashBoundary, DashBoundaryCrlf, GoodLine, Ahead, Folded;
      ghost var w := buffer.Window();
      FirstFits(CRLF, w, 0);
      if holds {
        LineAhead(onHeader, clear, form, stage, w, future, 0);
        NoLinesLeft(onHeader, stage);
      }
      EmptyLineBehind(onHeader, clear, form.boundary, buffer.past, w, h, file, delivered);
      h := h.(content := []);
      delivered := delivered + [(file, [])];
      buffer.Erase(2);
      state := 3;
      if holds {
        HeaderDone(onHeader, clear, form, stage, delivered);
        stage := Content(stage.left[0].content, stage.left);
      }
    }

    /** One header line of state 2. */
    method HeaderLine(pos: nat, ghost holds: bool, ghost future: seq<Byte>) returns (ok: bool)
      requires Ready() && Kept() && state == 2 && pos > 0 && First(CRLF, buffer.Window(), pos)
      requires holds ==> Holding(future) && stage.Headers?
      modifies this`stage, this`file, this`isValid, this`h, buffer`spos, buffer`past
      ensures Ready() && (ok ==> |buffer.Window()| < |old(buffer.Window())|)
      ensures holds ==> ok && Holding(future) && stage.Headers?
      ensures ok ==> Kept() && buffer.past + buffer.Window() == old(buffer.past + buffer.Window())
    {
      hide Behind, First, Absent, Deliveries, AllGood, GoodForm, CrlfDashBoundary, DashBoundaryCrlf, GoodLine, Ahead, Folded;
      ghost var w := buffer.Window();
      FirstFits(CRLF, w, pos);
      if holds {
        LineAhead(onHeader, clear, form, stage, w, future, pos);
        NextLine(onHeader, clear, form, stage);
      }
      var header := buffer.buf[buffer.spos..buffer.spos + pos];
      assert header == w[..pos];
      var parsed := onHeader(file, header);
      if parsed.None? {
        isValid := false;
        return false;
      }
      LineBehind(onHeader, clear, form.boundary, buffer.past, w, h, file, delivered, pos);
      h := h.(lines := h.lines + [header]);
      file := parsed.value;
      buffer.Erase(pos + 2);
      ok := true;
      if holds {
        stage := Headers(parsed.value, stage.lines[1..], stage.left);
      }
    }

    /** State 2: as many header lines as the window holds. */
    method StepHeaders(ghost holds: bool, ghost future: seq<Byte>) returns (o: Outcome)
      requires Ready() && Kept() && state == 2 && buffer.Window() != [] && (holds ==> Holding(future) && stage.Headers?)
      modifies this`state, this`stage, this`file, this`isValid, this`delivered, this`h, buffer`spos, buffer`past
      ensures Ready() && (o == Again ==> |buffer.Window()| < |old(buffer.Window())|)
      ensures holds ==> o != Fails && Holding(future) && (future == [] ==> o == Again)
      ensures o != Fails ==> Kept() && buffer.past + buffer.Window() == old(buffer.past + buffer.Window())
    {
      hide Behind, First, Absent, Owes, GoodForm, CrlfDashBoundary, DashBoundaryCrlf, Ahead;
      var pos: nat := buffer.Find(CRLF);
      if holds {
        LineFits(buffer.Window(), future, pos);
      }
      if pos > HEADER_MAX_LENGTH {
        return Fails;
      }
      ghost var size := |buffer.Window()|;
      while pos < buffer.epos - buffer.spos
        invariant Ready() && state == 2 && |buffer.Window()| <= size && pos <= |buffer.Window()|
        invariant Kept() && buffer.past + buffer.Window() == old(buffer.past + buffer.Window())
        invariant pos < |buffer.Window()| ==> First(CRLF, buffer.Window(), pos)
        invariant holds ==> Holding(future) && stage.Headers? && (future == [] ==> pos < |buffer.Window()|)
        decreases |buffer.Window()|
      {
        if pos == 0 {
          EmptyLine(holds, future);
          break;
        }
        var ok := HeaderLine(pos, holds, future);
        if !ok {
          return Fails;
        }
        pos := buffer.Find(CRLF);
        if holds {
          LineFits(buffer.Window(), future, pos);
        }
      }
      o := if state == 3 then Again else Waits;
    }

    /** In the middle of the header lines, the window holds a line end if it holds everything, and a line
        that is cut is below the limit. */
    lemma LineFits(w: seq<Byte>, future: seq<Byte>, pos: nat)
      requires Ready() && Holding(future) && stage.Headers? && w == buffer.Window()
      requires pos <= |w| && (pos < |w| ==> First(CRLF, w, pos)) && (pos == |w| ==> Absent(CRLF, w))
      ensures pos <= HEADER_MAX_LENGTH && (future == [] ==> pos < |w|)
    {
      hide First, Absent, Deliveries, After, Folded, AllGood, GoodForm, CrlfDashBoundary;
      var rest := stage.left[0].content + CrlfDashBoundary(form.boundary) + After(form.boundary, stage.left[1..]);
      HeaderFirst(stage.lines, rest);
      var at := if stage.lines == [] then 0 else |stage.lines[0]|;
      FoundOrCut(CRLF, w, future, at, pos);
      FirstFits(CRLF, w + future, at);
    }

    /** The content callback: more bytes of the part last announced. */
    method Deliver(bytes: seq<Byte>)
      requires delivered != []
      modifies this`delivered
      ensures delivered == Extended(old(delivered), bytes)
    {
      var n := |delivered| - 1;
      delivered := delivered[..n] + [(delivered[n].0, delivered[n].1 + bytes)];
    }

    /** State 3: content up to the next delimiter, or what cannot belong to one. */
    method StepContent(ghost holds: bool, ghost future: seq<Byte>) returns (o: Outcome)
      requires Ready() && Kept() && state == 3 && buffer.Window() != [] && (holds ==> Holding(future) && stage.Content?)
      modifies this`state, this`stage, this`delivered, this`h, buffer`spos, buffer`past
      ensures Ready() && o != Fails && (o == Again ==> |buffer.Window()| < |old(buffer.Window())|)
      ensures holds ==> Holding(future) && (future == [] ==> o == Again)
      ensures Kept() && buffer.past + buffer.Window() == old(buffer.past + buffer.Window())
    {
      hide Behind, First, Absent, Deliveries, AllGood, GoodForm, CrlfDashBoundary, DashBoundaryCrlf, Ahead, Extended;
      ghost var w := buffer.Window();
      if holds {
        ContentAhead(onHeader, clear, form, stage, w, future);
      }
      DelimiterNotEmpty(form.boundary);
      if |crlfDashBoundary| > buffer.epos - buffer.spos {
        return Waits;
      }
      var pos := buffer.Find(crlfDashBoundary);
      if holds {
        FoundOrCut(crlfDashBoundary, w, future, |stage.rest|, pos);
      }
      if pos < buffer.epos - buffer.spos {
        FirstFits(crlfDashBoundary, w, pos);
        ContentEnds(pos, holds, future);
        o := Again;
      } else {
        var len := buffer.epos - buffer.spos - |crlfDashBoundary|;
        if len > 0 {
          ContentGoesOn(len, holds, future);
        }
        o := Waits;
      }
    }

    /** The last bytes of the part are delivered, and its delimiter is used up. */
    method EndPart(pos: nat)
      requires Ready() && Kept() && state == 3 && First(crlfDashBoundary, buffer.Window(), pos)
      requires pos + |crlfDashBoundary| <= |buffer.Window()|
      modifies this`state, this`delivered, this`h, buffer`spos, buffer`past
      ensures Ready() && Kept() && state == 4 && buffer.past + buffer.Window() == old(buffer.past + buffer.Window())
      ensures buffer.Window() == old(buffer.Window())[pos + |crlfDashBoundary|..]
      ensures delivered == Extended(old(delivered), old(buffer.Window())[..pos])
    {
      hide Behind, First, Absent, GoodForm, CrlfDashBoundary, DashBoundaryCrlf, Extended, PartDone;
      ghost var w := buffer.Window();
      var bytes := buffer.buf[buffer.spos..buffer.spos + pos];
      assert bytes == w[..pos];
      PartBehind(onHeader, clear, form.boundary, buffer.past, w, h, file, delivered, pos);
      EndedStays(h, w[..pos]);
      h := PartDone(h, w[..pos]);
      Deliver(bytes);
      buffer.Erase(pos + |crlfDashBoundary|);
      state := 4;
    }

    /** The delimiter is in the window: the part is complete. */
    method ContentEnds(pos: nat, ghost holds: bool, ghost future: seq<Byte>)
      requires Ready() && Kept() && state == 3 && First(crlfDashBoundary, buffer.Window(), pos)
      requires pos + |crlfDashBoundary| <= |buffer.Window()|
      requires holds ==> Holding(future) && stage.Content? && pos == |stage.rest|
      modifies this`state, this`stage, this`delivered, this`h, buffer`spos, buffer`past
      ensures Ready() && state == 4 && |buffer.Window()| < |old(buffer.Window())|
      ensures holds ==> Holding(future) && stage.Closing?
      ensures Kept() && buffer.past + buffer.Window() == old(buffer.past + buffer.Window())
    {
      hide Behind, First, Absent, Deliveries, AllGood, GoodForm, CrlfDashBoundary, DashBoundaryCrlf, Ahead, Extended;
      ghost var w, was := buffer.Window(), delivered;
      DelimiterNotEmpty(form.boundary);
      if holds {
        ContentAhead(onHeader, clear, form, stage, w, future);
        GoodTail(onHeader, clear, form.boundary, stage.left);
      }
      EndPart(pos);
      if holds {
        OwedDone(was, stage.rest, Deliveries(onHeader, clear, form.boundary, stage.left[1..]));
        stage := Closing(stage.left[1..]);
      }
    }

    /** No delimiter yet: all but the last bytes, as many as a delimiter has, are content. */
    method ContentGoesOn(len: nat, ghost holds: bool, ghost future: seq<Byte>)
      requires Ready() && Kept() && state == 3 && len + |crlfDashBoundary| <= |buffer.Window()|
      requires Absent(crlfDashBoundary, buffer.Window())
      requires holds ==> Holding(future) && stage.Content? && len <= |stage.rest|
      modifies this`stage, this`delivered, this`h, buffer`spos, buffer`past
      ensures Ready() && (holds ==> Holding(future) && stage.Content?)
      ensures Kept() && buffer.past + buffer.Window() == old(buffer.past + buffer.Window())
    {
      hide Behind, First, Absent, Deliveries, AllGood, GoodForm, CrlfDashBoundary, DashBoundaryCrlf, Ahead, Extended;
      ghost var w, was := buffer.Window(), delivered;
      if holds {
        ContentCut(form, stage, w, future, len);
      }
      var bytes := buffer.buf[buffer.spos..buffer.spos + len];
      assert bytes == w[..len];
      ContentBehind(onHeader, clear, form.boundary, buffer.past, w, h, file, delivered, len);
      h := h.(content := h.content + w[..len]);
      Deliver(bytes);
      buffer.Erase(len);
      if holds {
        OwedMore(was, stage.rest, len);
        GoodTail(onHeader, clear, form.boundary, stage.left);
        stage := Content(stage.rest[len..], stage.left);
      }
    }

    /** State 4: what follows a delimiter. */
    method StepClosing(ghost holds: bool, ghost future: seq<Byte>) returns (o: Outcome)
      requires Ready() && Kept() && state == 4 && buffer.Window() != []
      requires holds ==> Holding(future) && (stage.Closing? || stage.Finished?)
      modifies this`state, this`stage, this`isValid, this`h, buffer`spos, buffer`past
      ensures Ready() && o != Fails && (o == Again ==> |buffer.Window()| < |old(buffer.Window())|)
      ensures holds ==> Holding(future) && (future == [] ==> o == Again || stage.Finished?)
      ensures Kept() && buffer.past + buffer.Window() == old(buffer.past + buffer.Window())
    {
      hide Behind, OccursAt, Deliveries, AllGood, GoodForm, CrlfDashBoundary, DashBoundaryCrlf, PartsText, After, Absent, Folded,
           GoodLine;
      ghost var w := buffer.Window();
      if holds && stage.Closing? {
        ClosingAhead(form, stage.left, w, future);
      }
      if 2 > buffer.epos - buffer.spos {
        return Waits;
      }
      var crlf := buffer.StartsWith(CRLF, buffer.spos);
      var dash := buffer.StartsWith(DASH, buffer.spos);
      NotBoth(w);
      if crlf {
        NextEntry(holds, future);
        o := Again;
      } else if dash {
        LastEntry(holds, future);
        o := Again;
      } else {
        o := Waits;
      }
    }

    /** A line end behind the delimiter: another part. */
    method NextEntry(ghost holds: bool, ghost future: seq<Byte>)
      requires Ready() && Kept() && state == 4 && 2 <= |buffer.Window()| && buffer.Window()[..2] == CRLF
      requires holds ==> Holding(future) && (stage.Closing? || stage.Finished?)
      modifies this`state, this`stage, this`h, buffer`spos, buffer`past
      ensures Ready() && |buffer.Window()| < |old(buffer.Window())| && (holds ==> Holding(future))
      ensures holds ==> stage.Fresh? || stage.Finished?
      ensures Kept() && buffer.past + buffer.Window() == old(buffer.past + buffer.Window())
    {
      hide Behind, Deliveries, AllGood, GoodForm, CrlfDashBoundary, DashBoundaryCrlf, PartsText, After, Absent, Folded, GoodLine;
      if holds && stage.Closing? {
        ClosingAhead(form, stage.left, buffer.Window(), future);
      }
      ClosingBehind(onHeader, clear, form.boundary, buffer.past, buffer.Window(), h, file, delivered);
      buffer.Erase(2);
      state := 1;
      if holds {
        stage := if stage.Closing? then Fresh(stage.left) else Finished([]);
      }
    }

    /** The closing dashes, and whatever comes behind them. */
    method EraseTwo()
      requires buffer.Valid() && 2 <= |buffer.Window()|
      modifies this`isValid, buffer`spos, buffer`past
      ensures buffer.Valid() && isValid && buffer.Window() == [] && buffer.past == old(buffer.past + buffer.Window())
    {
      buffer.Erase(2);
      isValid := true;
      buffer.Erase(buffer.epos - buffer.spos);
      assert buffer.past + [] == buffer.past;
    }

    /** Two dashes behind the delimiter: the end; what follows is dropped. */
    method LastEntry(ghost holds: bool, ghost future: seq<Byte>)
      requires Ready() && Kept() && state == 4 && 2 <= |buffer.Window()| && buffer.Window()[..2] == DASH
      requires holds ==> Holding(future) && (stage.Closing? || stage.Finished?)
      modifies this`stage, this`isValid, this`h, buffer`spos, buffer`past
      ensures Ready() && |buffer.Window()| < |old(buffer.Window())| && (holds ==> Holding(future) && stage.Finished?)
      ensures Kept() && buffer.past + buffer.Window() == old(buffer.past + buffer.Window())
    {
      hide Behind, Deliveries, AllGood, GoodForm, CrlfDashBoundary, DashBoundaryCrlf, PartsText, After, Absent, Folded, GoodLine, OccursAt;
      if holds && stage.Closing? {
        ClosingAhead(form, stage.left, buffer.Window(), future);
        NoneLeft(onHeader, clear, form.boundary);
        NothingDelivered(delivered);
      }
      ClosingBehind(onHeader, clear, form.boundary, buffer.past, buffer.Window(), h, file, delivered);
      h := h.(ended := true);
      ghost var all := buffer.past + buffer.Window();
      EraseTwo();
      assert buffer.past == all;
      if holds {
        stage := Finished(future);
      }
    }

    /** parse: as far as the bytes at hand allow. */
    method Parse(data: seq<Byte>, ghost holds: bool, ghost future: seq<Byte>) returns (ok: bool)
      requires Ready() && Kept() && (holds ==> Holding(data + future))
      modifies this`state, this`stage, this`file, this`isValid, this`delivered, this`h, buffer
      ensures Ready() && (holds ==> ok && Holding(future) && (future == [] ==> stage.Finished?))
      ensures ok ==> Kept() && buffer.past + buffer.Window() == old(buffer.past + buffer.Window()) + data
    {
      hide Behind, Owes, GoodForm, CrlfDashBoundary, DashBoundaryCrlf, Ahead;
      ghost var before := buffer.Window();
      buffer.Append(data);
      assert before + (data + future) == buffer.Window() + future;
      assert buffer.past + (before + data) == buffer.past + before + data;
      BehindStays(onHeader, clear, form.boundary, buffer.past, before, h, state, file, delivered, data);
      var o := Again;
      while buffer.epos - buffer.spos > 0 && o == Again
        invariant Ready() && (holds ==> o != Fails && Holding(future) && (future == [] ==> o == Again || stage.Finished?))
        invariant o != Fails ==> Kept() && buffer.past + buffer.Window() == old(buffer.past + buffer.Window()) + data
        decreases o == Again, |buffer.Window()|, if state == 1 then 1 else 0
      {
        if holds {
          StageOf(future);
        }
        match state {
          case 0 => o := StepOpening(holds, future);
          case 1 => StepFresh(holds, future);
          case 2 => o := StepHeaders(holds, future);
          case 3 => o := StepContent(holds, future);
          case _ => o := StepClosing(holds, future);
        }
      }
      if holds && future == [] && buffer.Window() == [] {
        OnlyTheEnd();
      }
      ok := o != Fails;
    }

    /** The number of the state tells the stage. */
    lemma StageOf(future: seq<Byte>)
      requires Ready() && Holding(future) && buffer.Window() != []
      ensures state == 0 ==> stage.Opening?
      ensures state == 1 ==> stage.Fresh?
      ensures state == 2 ==> stage.Headers?
      ensures state == 3 ==> stage.Content?
      ensures state == 4 ==> stage.Closing? || stage.Finished?
    {
      hide Deliveries, AllGood, GoodForm, PartsText, After, Body;
    }

    /** Nothing is ahead only at the end. */
    lemma OnlyTheEnd()
      requires Ready() && Holding([]) && buffer.Window() == []
      ensures stage.Finished?
    {
      hide Deliveries, AllGood, Folded, Absent, PartsText;
      DelimiterNotEmpty(form.boundary);
      match stage {
        case Opening =>
        case Fresh(left) => PartsNotEmpty(form.boundary, left);
        case Headers(_, _, _) =>
        case Content(_, _) =>
        case Closing(left) =>
          if left != [] {
            PartsNotEmpty(form.boundary, left);
          }
        case Finished(_) =>
      }
    }
  }

  lemma PartsNotEmpty(boundary: seq<Byte>, parts: seq<Part>)
    requires parts != []
    ensures PartsText(boundary, parts) != []
  {
    DelimiterNotEmpty(boundary);
  }

  lemma NoneLeft<F(!new)>(onHeader: (F, seq<Byte>) -> Option<F>, clear: F, boundary: seq<Byte>)
    ensures AllGood(onHeader, clear, boundary, []) && Deliveries(onHeader, clear, boundary, []) == []
  {
  }

  /** Two bytes are a line end, or two dashes, or neither. */
  lemma NotBoth(w: seq<Byte>)
    requires 2 <= |w|
    ensures OccursAt(CRLF, w, 0) <==> w[..2] == CRLF
    ensures OccursAt(DASH, w, 0) <==> w[..2] == DASH
  {
    assert w[0..0 + 2] == w[..2];
  }

  /** Behind a delimiter: two dashes after the last part, a line end before another one. */
  lemma ClosingAhead(form: Form, left: seq<Part>, w: seq<Byte>, future: seq<Byte>)
    requires w + future == After(form.boundary, left)
    ensures 2 <= |w| && left == [] ==> w[..2] == DASH && w[2..] + future == CRLF && (future == [] || future == [LF] || future == CRLF)
    ensures 2 <= |w| && left != [] ==> w[..2] == CRLF && w[2..] + future == PartsText(form.boundary, left)
    ensures |w| < 2 ==> future != []
  {
    hide PartsText;
    if left == [] {
      SplitAt(w, future, DASH, CRLF);
      if 2 <= |w| {
        assert |w[2..]| + |future| == 2;
        assert future == CRLF[|w| - 2..];
      }
    } else {
      SplitAt(w, future, CRLF, PartsText(form.boundary, left));
    }
  }

  ghost function Extended<F>(delivered: seq<(F, seq<Byte>)>, bytes: seq<Byte>): (d: seq<(F, seq<Byte>)>)
    requires delivered != []
    ensures |d| == |delivered|
  {
    var n := |delivered| - 1;
    delivered[..n] + [(delivered[n].0, delivered[n].1 + bytes)]
  }

  lemma DelimiterNotEmpty(boundary: seq<Byte>)
    ensures |CrlfDashBoundary(boundary)| > 0
  {
  }

  lemma GoodTail<F(!new)>(onHeader: (F, seq<Byte>) -> Option<F>, clear: F, boundary: seq<Byte>, left: seq<Part>)
    requires AllGood(onHeader, clear, boundary, left) && left != []
    ensures AllGood(onHeader, clear, boundary, left[1..])
  {
    hide GoodPart;
  }

  /** Ahead of the content: the delimiter stands behind it and not before. */
  lemma ContentAhead<F(!new)>(onHeader: (F, seq<Byte>) -> Option<F>, clear: F, form: Form, stage: Stage<F>, w: seq<Byte>, future: seq<Byte>)
    requires GoodForm(onHeader, clear, form) && stage.Content? && stage.left != []
    requires Absent(CrlfDashBoundary(form.boundary), stage.rest) && w + future == Ahead(form, stage)
    ensures First(CrlfDashBoundary(form.boundary), w + future, |stage.rest|)
    ensures var n := |stage.rest| + |CrlfDashBoundary(form.boundary)|;
            if n <= |w| then
              w[..|stage.rest|] == stage.rest && w[n..] + future == Ahead(form, Stage<F>.Closing(stage.left[1..]))
            else future != []
  {
    var d, after := CrlfDashBoundary(form.boundary), After(form.boundary, stage.left[1..]);
    DelimiterHeadOnce(form.boundary);
    FirstBehind(d, stage.rest, after);
    hide First, Absent, GoodForm, CrlfDashBoundary, After;
    SplitAt(w, future, stage.rest + d, after);
    if |stage.rest| + |d| <= |w| {
      assert w[..|stage.rest| + |d|][..|stage.rest|] == w[..|stage.rest|];
      assert (stage.rest + d)[..|stage.rest|] == stage.rest;
    }
  }

  lemma ContentCut<F>(form: Form, stage: Stage<F>, w: seq<Byte>, future: seq<Byte>, len: nat)
    requires stage.Content? && stage.left != [] && len <= |w| && len <= |stage.rest|
    requires Absent(CrlfDashBoundary(form.boundary), stage.rest) && w + future == Ahead(form, stage)
    ensures w[..len] == stage.rest[..len]
    ensures w[len..] + future == Ahead(form, Stage<F>.Content(stage.rest[len..], stage.left))
    ensures Absent(CrlfDashBoundary(form.boundary), stage.rest[len..])
  {
    var d, after := CrlfDashBoundary(form.boundary), After(form.boundary, stage.left[1..]);
    var rest := stage.rest;
    AbsentBehind(d, rest, len);
    hide Absent, CrlfDashBoundary, After;
    assert rest + d + after == rest[..len] + (rest[len..] + d + after);
    SplitAt(w, future, rest[..len], rest[len..] + d + after);
  }

  lemma AbsentBehind(s: seq<Byte>, text: seq<Byte>, n: nat)
    requires Absent(s, text) && n <= |text|
    ensures Absent(s, text[n..])
  {
    var cut := text[n..];
    forall j: nat | j < |cut| ensures !OccursAt(s, cut, j) {
      if j + |s| <= |cut| {
        assert cut[j..j + |s|] == text[n + j..n + j + |s|];
        assert !OccursAt(s, text, n + j);
      }
    }
  }

  lemma OwedDone<F>(delivered: seq<(F, seq<Byte>)>, rest: seq<Byte>, more: seq<(F, seq<Byte>)>)
    requires delivered != []
    ensures var n := |delivered| - 1;
            Extended(delivered, rest) + more == delivered[..n] + ([(delivered[n].0, delivered[n].1 + rest)] + more)
  {
  }

  lemma OwedMore<F>(delivered: seq<(F, seq<Byte>)>, rest: seq<Byte>, len: nat)
    requires delivered != [] && len <= |rest|
    ensures var n, d := |delivered| - 1, Extended(delivered, rest[..len]);
            d[..n] == delivered[..n] && d[n].0 == delivered[n].0 && d[n].1 + rest[len..] == delivered[n].1 + rest
  {
    var n := |delivered| - 1;
    assert rest[..len] + rest[len..] == rest;
    assert delivered[n].1 + rest[..len] + rest[len..] == delivered[n].1 + (rest[..len] + rest[len..]);
  }

  lemma NoLinesLeft<F>(onHeader: (F, seq<Byte>) -> Option<F>, stage: Stage<F>)
    requires stage.Headers? && stage.lines == []
    ensures Folded(onHeader, stage.file, stage.lines) == Some(stage.file)
  {
  }

  /** The next line of a good part can be parsed. */
  lemma NextLine<F(!new)>(onHeader: (F, seq<Byte>) -> Option<F>, clear: F, form: Form, stage: Stage<F>)
    requires stage.Headers? && stage.lines != [] && stage.left != [] && AllGood(onHeader, clear, form.boundary, stage.left)
    requires Folded(onHeader, stage.file, stage.lines) == Folded(onHeader, clear, stage.left[0].lines)
    ensures onHeader(stage.file, stage.lines[0]).Some?
    ensures Folded(onHeader, onHeader(stage.file, stage.lines[0]).value, stage.lines[1..])
         == Folded(onHeader, stage.file, stage.lines)
  {
    assert GoodPart(onHeader, clear, form.boundary, stage.left[0]);
  }

  /** Starting a part does not change what is ahead. */
  lemma FreshIsHeaders<F(!new)>(onHeader: (F, seq<Byte>) -> Option<F>, clear: F, form: Form, left: seq<Part>)
    requires left != [] && AllGood(onHeader, clear, form.boundary, left)
    ensures Ahead(form, Stage<F>.Fresh(left)) == Ahead(form, Headers(clear, left[0].lines, left))
    ensures forall i :: 0 <= i < |left[0].lines| ==> GoodLine(left[0].lines[i])
  {
    hide Lines, After, GoodLine;
    assert GoodPart(onHeader, clear, form.boundary, left[0]);
  }

  /** The next line end ahead closes the next header line, or is the empty line. */
  lemma LineAhead<F(!new)>(onHeader: (F, seq<Byte>) -> Option<F>, clear: F, form: Form, stage: Stage<F>, w: seq<Byte>,
                           future: seq<Byte>, pos: nat)
    requires stage.Headers? && stage.left != [] && (forall i :: 0 <= i < |stage.lines| ==> GoodLine(stage.lines[i]))
    requires w + future == Ahead(form, stage) && First(CRLF, w, pos)
    ensures if stage.lines == [] then
              pos == 0 && w[2..] + future == Ahead(form, Stage<F>.Content(stage.left[0].content, stage.left))
            else
              && pos == |stage.lines[0]| > 0 && w[..pos] == stage.lines[0]
              && forall f: F :: w[pos + 2..] + future == Ahead(form, Headers(f, stage.lines[1..], stage.left))
  {
    var rest := stage.left[0].content + CrlfDashBoundary(form.boundary) + After(form.boundary, stage.left[1..]);
    HeaderFirst(stage.lines, rest);
    FirstFits(CRLF, w, pos);
    var whole := Lines(stage.lines) + rest;
    if stage.lines == [] {
      SameFirst(CRLF, w, future, pos, 0);
      SplitAt(w, future, CRLF, rest);
    } else {
      var line := stage.lines[0];
      SameFirst(CRLF, w, future, pos, |line|);
      assert whole == (line + CRLF) + (Lines(stage.lines[1..]) + rest);
      SplitAt(w, future, line + CRLF, Lines(stage.lines[1..]) + rest);
      assert w[..pos + 2][..pos] == w[..pos];
    }
  }

  /** Both first places are the same. */
  lemma SameFirst(s: seq<Byte>, w: seq<Byte>, future: seq<Byte>, pos: nat, i: nat)
    requires s != [] && First(s, w, pos) && First(s, w + future, i)
    ensures pos == i
  {
    FirstInWindow(s, w, w + future, i);
    assert i + |s| <= |w| ==> OccursAt(s, w, i);
    assert OccursAt(s, w, pos);
  }

  lemma HeaderFirst(lines: seq<seq<Byte>>, rest: seq<Byte>)
    requires forall i :: 0 <= i < |lines| ==> GoodLine(lines[i])
    ensures First(CRLF, Lines(lines) + rest, if lines == [] then 0 else |lines[0]|)
    ensures lines != [] ==> |lines[0]| > 0
  {
    if lines == [] {
      FirstBehind(CRLF, [], rest);
      assert [] + CRLF + rest == CRLF + rest;
    } else {
      FirstBehind(CRLF, lines[0], Lines(lines[1..]) + rest);
      assert lines[0] + CRLF + (Lines(lines[1..]) + rest) == Lines(lines) + rest;
    }
  }

  /** Behind the empty line the part is announced, and its content is owed. */
  lemma HeaderDone<F(!new)>(onHeader: (F, seq<Byte>) -> Option<F>, clear: F, form: Form, stage: Stage<F>,
                            delivered: seq<(F, seq<Byte>)>)
    requires stage.Headers? && stage.left != [] && AllGood(onHeader, clear, form.boundary, stage.left)
    requires delivered != [] && delivered[|delivered| - 1] == (stage.file, [])
    requires Folded(onHeader, clear, stage.left[0].lines) == Some(stage.file)
    ensures var n := |delivered| - 1;
            delivered[..n] + ([(stage.file, [] + stage.left[0].content)]
                              + Deliveries(onHeader, clear, form.boundary, stage.left[1..]))
            == delivered[..n] + Deliveries(onHeader, clear, form.boundary, stage.left)
    ensures Absent(CrlfDashBoundary(form.boundary), stage.left[0].content)
  {
    hide Absent;
    assert GoodPart(onHeader, clear, form.boundary, stage.left[0]);
    assert [] + stage.left[0].content == stage.left[0].content;
  }

  lemma NothingDelivered<T>(s: seq<T>)
    ensures [] + s == s && s + [] == s
  {
  }

  lemma FirstFits(s: seq<Byte>, w: seq<Byte>, i: nat)
    requires First(s, w, i)
    ensures i + |s| <= |w|
  {
  }

  lemma NonEmptyForm<F(!new)>(onHeader: (F, seq<Byte>) -> Option<F>, clear: F, form: Form)
    requires GoodForm(onHeader, clear, form)
    ensures form.parts != [] && AllGood(onHeader, clear, form.boundary, form.parts)
  {
  }

  /** The body starts with its first boundary. */
  lemma OpeningFirst(form: Form, w: seq<Byte>, future: seq<Byte>)
    requires form.parts != [] && w + future == Body(form)
    ensures First(DashBoundaryCrlf(form.boundary), w + future, 0)
  {
    hide PartsText;
    var s := DashBoundaryCrlf(form.boundary);
    assert (w + future)[0..0 + |s|] == s;
  }

  /** However the body of a form is cut into pieces, the parser accepts it, finds it valid, and delivers every part:
      what its header says, and its whole content.  And whatever bytes it finds valid consist of parts that it
      delivered, up to the closing dashes. */
  method ParsePieces<F(!new)>(boundary: seq<Byte>, clear: F, onHeader: (F, seq<Byte>) -> Option<F>, ghost form: Form,
                              pieces: seq<seq<Byte>>)
      returns (ok: bool, valid: bool, delivered: seq<(F, seq<Byte>)>)
    requires form.boundary == boundary
    ensures GoodForm(onHeader, clear, form) && Concat(pieces) == Body(form) ==>
              && ok && valid && AllGood(onHeader, clear, boundary, form.parts)
              && delivered == Deliveries(onHeader, clear, boundary, form.parts)
    ensures ok && valid ==> exists pre, parts :: Accepts(onHeader, clear, boundary, Concat(pieces), pre, parts, delivered)
  {
    hide GoodForm, AllGood, Deliveries, Body, Concat, Behind;
    var parser := new FormDataParser(boundary, clear, onHeader, form);
    ghost var holds := false;
    if GoodForm(onHeader, clear, form) {
      NonEmptyForm(onHeader, clear, form);
      holds := Concat(pieces) == Body(form);
    }
    ok := true;
    NextPiece(pieces, |pieces|);
    assert pieces[0..] == pieces && pieces[..0] == [] == pieces[|pieces|..];
    for i := 0 to |pieces|
      invariant fresh(parser) && fresh(parser.buffer) && parser.Ready() && parser.Kept()
      invariant holds ==> parser.Holding(Concat(pieces[i..])) && (i == |pieces| && i > 0 ==> parser.stage.Finished?)
      invariant parser.buffer.past + parser.buffer.Window() == Concat(pieces[..i])
      invariant parser.form == form && parser.onHeader == onHeader && parser.clear == clear
    {
      NextPiece(pieces, i);
      ConcatGrows(pieces, i);
      ok := parser.Parse(pieces[i], holds, Concat(pieces[i + 1..]));
      if !ok {
        return false, parser.isValid, parser.delivered;
      }
    }
    valid, delivered := parser.isValid, parser.delivered;
    assert pieces[..|pieces|] == pieces;
    if holds {
      BodyNotEmpty(form, pieces);
    }
    if valid {
      EndIsAccepted(onHeader, clear, boundary, parser.buffer.past, parser.buffer.Window(), parser.h, parser.state, parser.file, delivered);
    }
  }

  lemma EndIsAccepted<F(!new)>(onHeader: (F, seq<Byte>) -> Option<F>, clear: F, boundary: seq<Byte>, past: seq<Byte>, window: seq<Byte>,
                               h: Past, state: nat, file: F, delivered: seq<(F, seq<Byte>)>)
    requires Behind(onHeader, clear, boundary, past, window, h, state, file, delivered) && h.ended
    ensures Accepts(onHeader, clear, boundary, past + window, h.pre, h.done, delivered)
  {
    hide AllSound, Told, First, Joined;
  }

  lemma NextPiece(pieces: seq<seq<Byte>>, i: nat)
    requires i <= |pieces|
    ensures i < |pieces| ==> Concat(pieces[i..]) == pieces[i] + Concat(pieces[i + 1..])
    ensures pieces[|pieces|..] == [] && Concat(pieces[|pieces|..]) == []
    ensures i + 1 == |pieces| ==> Concat(pieces[i + 1..]) == []
  {
    if i < |pieces| {
      assert pieces[i..][1..] == pieces[i + 1..];
    }
  }

  lemma BodyNotEmpty(form: Form, pieces: seq<seq<Byte>>)
    requires form.parts != [] && Concat(pieces) == Body(form)
    ensures pieces != []
  {
    hide PartsText;
  }
}
