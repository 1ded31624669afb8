/** The chunked transfer coding of section 7.1 of RFC 9112: the sink that writes it, and the decoder. */
module ChunkedCoding {
  import opened Helpers
  import opened Bytes
  import opened Streams

  // ----- hexadecimal numbers -----

  function HexDigit(d: nat): Byte
    requires d < 16
  {
    if d < 10 then (48 + d) as Byte else (87 + d) as Byte
  }

  function Hex(n: nat): (s: seq<Byte>)
    ensures s != []
  {
    if n < 16 then [HexDigit(n)] else Hex(n / 16) + [HexDigit(n % 16)]
  }

  /** The digits in front of the ones written. */
  ghost function Front(n: nat): seq<Byte> {
    if n == 0 then [] else Hex(n)
  }

  /** from_i_to_hex: digits are put in front, lowest first. */
  method FromIToHex(n0: nat) returns (ret: seq<Byte>)
    ensures ret == Hex(n0)
  {
    var n := n0 / 16;
    ret := [HexDigit(n0 % 16)];
    while n > 0
      invariant 0 <= n && Hex(n0) == Front(n) + ret
    {
      assert Front(n) == Front(n / 16) + [HexDigit(n % 16)];
      ret := [HexDigit(n % 16)] + ret;
      n := n / 16;
    }
  }

  const ULONG_MAX := 0xFFFF_FFFF

  function HexValue(b: Byte): int {
    if 48 <= b <= 57 then b as int - 48
    else if 97 <= b <= 102 then b as int - 87
    else if 65 <= b <= 70 then b as int - 55
    else -1
  }

  /** The hexadecimal digits at the front, continuing the number acc. */
  function HexNumber(s: seq<Byte>, acc: nat): nat {
    if s != [] && HexValue(s[0]) >= 0 then HexNumber(s[1..], acc * 16 + HexValue(s[0])) else acc
  }

  function SkipSpaces(s: seq<Byte>): seq<Byte> {
    if s != [] && (s[0] == 32 || 9 <= s[0] <= 13) then SkipSpaces(s[1..]) else s
  }

  /** strtoul to base 16, where unsigned long has 32 bits: None if there is no number; too large a value
      gives ULONG_MAX, and a minus sign negates. */
  function StrToUl(s: seq<Byte>): (r: int)
    ensures -1 <= r <= ULONG_MAX
  {
    var t := SkipSpaces(s);
    var negative := t != [] && t[0] == 45;
    var u := if t != [] && (t[0] == 45 || t[0] == 43) then t[1..] else t;
    var v := if |u| > 2 && u[0] == 48 && (u[1] == 120 || u[1] == 88) && HexValue(u[2]) >= 0 then u[2..] else u;
    if v == [] || HexValue(v[0]) < 0 then -1
    else
      var n := HexNumber(v, 0);
      if n > ULONG_MAX then ULONG_MAX else if negative && n > 0 then ULONG_MAX + 1 - n else n
  }

  lemma {:induction false} HexNumberSnoc(s: seq<Byte>, d: nat, acc: nat, rest: seq<Byte>)
    requires d < 16 && forall i :: 0 <= i < |s| ==> HexValue(s[i]) >= 0
    requires rest != [] && HexValue(rest[0]) < 0
    ensures HexNumber(s + [HexDigit(d)] + rest, acc) == HexNumber(s + rest, acc) * 16 + d
    decreases |s|
  {
    if s == [] {
      var all := [] + [HexDigit(d)] + rest;
      assert all[1..] == rest && [] + rest == rest;
    } else {
      var acc2 := acc * 16 + HexValue(s[0]);
      HexNumberSnoc(s[1..], d, acc2, rest);
      assert (s + [HexDigit(d)] + rest)[1..] == s[1..] + [HexDigit(d)] + rest;
      assert (s + rest)[1..] == s[1..] + rest;
    }
  }

  lemma {:induction false} HexDigits(n: nat)
    ensures forall i :: 0 <= i < |Hex(n)| ==> HexValue(Hex(n)[i]) >= 0 && Hex(n)[i] != CR && Hex(n)[i] != LF
    ensures Hex(n)[0] == 48 ==> |Hex(n)| == 1
  {
    if n >= 16 {
      HexDigits(n / 16);
      HexPositive(n / 16);
    }
  }

  lemma {:induction false} HexPositive(n: nat)
    ensures n > 0 ==> Hex(n)[0] != 48
  {
    if n >= 16 {
      HexPositive(n / 16);
    }
  }

  lemma {:induction false} HexNumberBack(n: nat, rest: seq<Byte>)
    requires rest != [] && HexValue(rest[0]) < 0
    ensures HexNumber(Hex(n) + rest, 0) == n
  {
    if n >= 16 {
      HexDigits(n / 16);
      HexNumberBack(n / 16, rest);
      HexNumberSnoc(Hex(n / 16), n % 16, 0, rest);
    } else {
      assert ([HexDigit(n)] + rest)[1..] == rest;
    }
  }

  /** A written number reads back, unless it does not fit into 32 bits. */
  lemma StrToUlHex(n: nat, rest: seq<Byte>)
    requires rest != [] && HexValue(rest[0]) < 0 && rest[0] != 120 && rest[0] != 88
    ensures StrToUl(Hex(n) + rest) == if n > ULONG_MAX then ULONG_MAX else n
  {
    HexDigits(n);
    HexNumberBack(n, rest);
    var s := Hex(n) + rest;
    assert s[0] == Hex(n)[0];
    if |Hex(n)| > 1 {
      assert s[1] == Hex(n)[1];
    } else {
      assert s[1] == rest[0];
    }
    hide Hex, HexNumber;
  }

  lemma {:induction false} HexLength(n: nat, k: nat, p: nat)
    requires n < p && p == Power16(k) && 0 < k
    ensures |Hex(n)| <= k
    decreases k
  {
    if n >= 16 && k > 1 {
      HexLength(n / 16, k - 1, Power16(k - 1));
    }
  }

  lemma PowerOf16()
    ensures Power16(16) == 0x1_0000_0000_0000_0000
  {
    assert Power16(4) == 0x1_0000;
    assert Power16(8) == 0x1_0000_0000;
    assert Power16(12) == 0x1_0000_0000_0000;
  }

  function Power16(k: nat): nat {
    if k == 0 then 1 else 16 * Power16(k - 1)
  }

  // ----- the sink -----

  function Chunk(w: seq<Byte>): seq<Byte> {
    Hex(|w|) + CRLF + w + CRLF
  }

  /** An empty write makes no chunk. */
  function Sent(w: seq<Byte>): seq<Byte> {
    if w == [] then [] else Chunk(w)
  }

  function Chunks(writes: seq<seq<Byte>>): seq<Byte> {
    if writes == [] then [] else Sent(writes[0]) + Chunks(writes[1..])
  }

  const LAST_CHUNK: seq<Byte> := [48, 13, 10]

  datatype Field = Field(name: seq<Byte>, value: seq<Byte>)

  function FieldLines(trailer: seq<Field>): seq<Byte> {
    if trailer == [] then []
    else FieldLines(trailer[..|trailer| - 1])
         + (trailer[|trailer| - 1].name + [58, 32] + trailer[|trailer| - 1].value + CRLF)
  }

  /** What the content provider does with the sink. */
  datatype SinkOp = Put(data: seq<Byte>) | Done(trailer: seq<Field>)

  function Effect(op: SinkOp): seq<Byte> {
    match op
    case Put(d) => Sent(d)
    case Done(trailer) => LAST_CHUNK + FieldLines(trailer) + CRLF
  }

  function Effects(ops: seq<SinkOp>): seq<Byte> {
    if ops == [] then [] else Effects(ops[..|ops| - 1]) + Effect(ops[|ops| - 1])
  }

  /** Whether the loop goes on after these operations. */
  function Available(ops: seq<SinkOp>, before: bool): bool {
    if ops == [] then before
    else match ops[|ops| - 1] case Put(d) => d != [] case Done(_) => false
  }

  class DataSink {
    const strm: OutStream
    var ok: bool
    var dataAvailable: bool
    var offset: nat

    constructor (s: OutStream)
      ensures strm == s && ok && dataAvailable && offset == 0
    {
      strm, ok, dataAvailable, offset := s, true, true, 0;
    }

    /** data_sink.write, without compression */
    method Write(d: seq<Byte>) returns (r: bool)
      modifies this, strm
      ensures r == ok && (ok ==> old(ok)) && (old(strm.failed) ==> strm.failed)
      ensures old(ok) ==> strm.failed == (old(strm.failed) || !ok)
      ensures ok ==> strm.sent == old(strm.sent) + Effect(Put(d)) && dataAvailable == (d != [])
                     && offset == old(offset) + |d|
    {
      hide Hex;
      if ok {
        dataAvailable := |d| > 0;
        offset := offset + |d|;
        if d != [] {
          var size := FromIToHex(|d|);
          ok := WriteData(strm, size + CRLF + d + CRLF);
        } else {
          assert strm.sent + [] == strm.sent;
        }
      }
      r := ok;
    }

    /** data_sink.done and done_with_trailer: a failed write does not stop the ones after it. */
    method Finish(trailer: seq<Field>)
      modifies this, strm
      ensures ok ==> old(ok) && strm.sent == old(strm.sent) + Effect(Done(trailer)) && !dataAvailable
      ensures (old(strm.failed) ==> strm.failed) && (old(ok) ==> strm.failed == (old(strm.failed) || !ok))
    {
      if !ok {
        return;
      }
      dataAvailable := false;
      ghost var before := strm.sent;
      ok := WriteData(strm, LAST_CHUNK);
      for i := 0 to |trailer|
        invariant ok ==> strm.sent == before + (LAST_CHUNK + FieldLines(trailer[..i]))
        invariant !dataAvailable && strm.failed == (old(strm.failed) || !ok)
      {
        assert trailer[..i + 1][..i] == trailer[..i];
        var line := trailer[i].name + [58, 32] + trailer[i].value + CRLF;
        var sent := WriteData(strm, line);
        assert before + (LAST_CHUNK + FieldLines(trailer[..i])) + line
            == before + (LAST_CHUNK + (FieldLines(trailer[..i]) + line));
        if !sent {
          ok := false;
        }
      }
      assert trailer[..|trailer|] == trailer;
      var sent := WriteData(strm, CRLF);
      assert before + (LAST_CHUNK + FieldLines(trailer)) + CRLF == before + (LAST_CHUNK + FieldLines(trailer) + CRLF);
      if !sent {
        ok := false;
      }
    }

    /** One call of the content provider. */
    method Provide(ops: seq<SinkOp>)
      modifies this, strm
      ensures ok ==> old(ok) && strm.sent == old(strm.sent) + Effects(ops)
                     && dataAvailable == Available(ops, old(dataAvailable))
      ensures old(ok) ==> strm.failed == (old(strm.failed) || !ok)
    {
      hide Effect;
      for i := 0 to |ops|
        invariant ok ==> old(ok) && strm.sent == old(strm.sent) + Effects(ops[..i])
                         && dataAvailable == Available(ops[..i], old(dataAvailable))
        invariant old(ok) ==> strm.failed == (old(strm.failed) || !ok)
      {
        assert ops[..i + 1][..i] == ops[..i];
        assert old(strm.sent) + Effects(ops[..i]) + Effect(ops[i]) == old(strm.sent) + (Effects(ops[..i]) + Effect(ops[i]));
        match ops[i] {
          case Put(d) => var _ := Write(d);
          case Done(trailer) => Finish(trailer);
        }
      }
      assert ops[..|ops|] == ops;
    }
  }

  /** What the loop writes: calls until one leaves no data available. */
  function Written(calls: seq<seq<SinkOp>>): seq<Byte> {
    if calls == [] then []
    else Effects(calls[0]) + if Available(calls[0], true) then Written(calls[1..]) else []
  }

  /** write_content_chunked: the provider is called while data are available; running out of calls stands
      for the server shutting down. */
  method WriteContentChunked(strm: OutStream, calls: seq<seq<SinkOp>>) returns (ok: bool)
    modifies strm
    ensures ok ==> strm.sent == old(strm.sent) + Written(calls)
    ensures strm.failed == (old(strm.failed) || !ok)
  {
    hide Effects;
    var sink := new DataSink(strm);
    var i := 0;
    ghost var start := strm.sent;
    assert calls[0..] == calls;
    while sink.dataAvailable && i < |calls|
      invariant 0 <= i <= |calls| && sink.ok && fresh(sink) && sink.strm == strm && strm.failed == old(strm.failed)
      invariant strm.sent + (if sink.dataAvailable then Written(calls[i..]) else []) == start + Written(calls)
    {
      assert calls[i..][1..] == calls[i + 1..];
      ghost var next := if Available(calls[i], true) then Written(calls[i + 1..]) else [];
      assert strm.sent + (Effects(calls[i]) + next) == strm.sent + Effects(calls[i]) + next;
      sink.Provide(calls[i]);
      if !sink.ok {
        return false;
      }
      i := i + 1;
    }
    assert calls[|calls|..] == [];
    ok := true;
  }

  // ----- a provider that writes and then is done -----

  function Puts(writes: seq<seq<Byte>>): seq<SinkOp> {
    if writes == [] then [] else Puts(writes[..|writes| - 1]) + [Put(writes[|writes| - 1])]
  }

  /** The writes in groups, one call each, and the end in the last call. */
  function Calls(groups: seq<seq<seq<Byte>>>, last: seq<seq<Byte>>, trailer: seq<Field>): seq<seq<SinkOp>> {
    if groups == [] then [Puts(last) + [Done(trailer)]]
    else [Puts(groups[0])] + Calls(groups[1..], last, trailer)
  }

  function AllWrites(groups: seq<seq<seq<Byte>>>, last: seq<seq<Byte>>): seq<seq<Byte>> {
    if groups == [] then last else groups[0] + AllWrites(groups[1..], last)
  }

  /** The call ends with an empty write, which stops the loop. */
  predicate Stops(writes: seq<seq<Byte>>) {
    writes != [] && writes[|writes| - 1] == []
  }

  /** No call before the last one ends with an empty write. */
  ghost predicate KeepsGoing(groups: seq<seq<seq<Byte>>>) {
    forall i :: 0 <= i < |groups| ==> !Stops(groups[i])
  }

  /** The writes of the calls up to the first one that stops the loop. */
  function Reached(groups: seq<seq<seq<Byte>>>): seq<seq<Byte>> {
    if groups == [] then []
    else groups[0] + if Stops(groups[0]) then [] else Reached(groups[1..])
  }

  lemma {:induction false} ChunksConcat(x: seq<seq<Byte>>, y: seq<seq<Byte>>)
    ensures Chunks(x + y) == Chunks(x) + Chunks(y)
    decreases |x|
  {
    hide Sent;
    if x == [] {
      assert x + y == y;
    } else {
      ChunksConcat(x[1..], y);
      var z := x + y;
      assert z[0] == x[0] && z[1..] == x[1..] + y;
      assert Sent(x[0]) + (Chunks(x[1..]) + Chunks(y)) == (Sent(x[0]) + Chunks(x[1..])) + Chunks(y);
    }
  }

  lemma {:induction false} PutsEffects(writes: seq<seq<Byte>>)
    ensures Effects(Puts(writes)) == Chunks(writes)
    decreases |writes|
  {
    if writes == [] {
      NoEffects();
    } else {
      hide Chunks, Effects;
      var front, last := writes[..|writes| - 1], writes[|writes| - 1];
      PutsEffects(front);
      ChunksConcat(front, [last]);
      InitLast(writes);
      OnePut(Puts(front), last);
    }
  }

  lemma InitLast<T>(s: seq<T>)
    requires s != []
    ensures s[..|s| - 1] + [s[|s| - 1]] == s
  {
  }

  lemma PutsAvailable(writes: seq<seq<Byte>>)
    ensures Available(Puts(writes), true) <==> !Stops(writes)
  {
  }

  lemma NoEffects()
    ensures Effects(Puts([])) == Chunks([]) == []
  {
  }

  lemma OnePut(ops: seq<SinkOp>, w: seq<Byte>)
    ensures Effects(ops + [Put(w)]) == Effects(ops) + Chunks([w])
  {
    hide Chunk;
    assert (ops + [Put(w)])[..|ops|] == ops && [w][1..] == [];
    assert Sent(w) + [] == Sent(w);
  }

  ghost function End(trailer: seq<Field>): seq<Byte> {
    LAST_CHUNK + (FieldLines(trailer) + CRLF)
  }

  lemma WrittenFront(ops: seq<SinkOp>, calls: seq<seq<SinkOp>>)
    ensures Written([ops] + calls) == Effects(ops) + if Available(ops, true) then Written(calls) else []
  {
    hide Effects, Available;
    assert ([ops] + calls)[1..] == calls;
  }

  lemma KeepsGoingFront(groups: seq<seq<seq<Byte>>>)
    ensures groups != [] ==> (KeepsGoing(groups) <==> !Stops(groups[0]) && KeepsGoing(groups[1..]))
  {
    hide Stops;
    if groups != [] && !Stops(groups[0]) && KeepsGoing(groups[1..]) {
      forall i | 0 <= i < |groups| ensures !Stops(groups[i]) {
        assert i > 0 ==> groups[i] == groups[1..][i - 1];
      }
    }
  }

  /** All writes and the end, if no call stops the loop early; otherwise the writes up to that call, and
      no last chunk. */
  lemma {:induction false} WrittenIs(groups: seq<seq<seq<Byte>>>, last: seq<seq<Byte>>, trailer: seq<Field>)
    ensures Written(Calls(groups, last, trailer))
         == if KeepsGoing(groups) then Chunks(AllWrites(groups, last)) + End(trailer) else Chunks(Reached(groups))
    decreases |groups|
  {
    hide Chunks, Puts, Written, Effects, Available, End, KeepsGoing;
    if groups == [] {
      NoGroups();
      PutsEffects(last);
      LastCall(Puts(last), trailer);
      WrittenFront(Puts(last) + [Done(trailer)], []);
      assert [Puts(last) + [Done(trailer)]] + [] == Calls(groups, last, trailer);
      assert Effects(Puts(last) + [Done(trailer)]) + [] == Effects(Puts(last) + [Done(trailer)]);
    } else {
      var first, more := groups[0], groups[1..];
      PutsEffects(first);
      PutsAvailable(first);
      KeepsGoingFront(groups);
      WrittenIs(more, last, trailer);
      WrittenFront(Puts(first), Calls(more, last, trailer));
      if Stops(first) {
        assert first + [] == first && Chunks(first) + [] == Chunks(first);
      } else if KeepsGoing(more) {
        ChunksConcat(first, AllWrites(more, last));
        assert Chunks(first) + (Chunks(AllWrites(more, last)) + End(trailer))
            == (Chunks(first) + Chunks(AllWrites(more, last))) + End(trailer);
      } else {
        ChunksConcat(first, Reached(more));
      }
    }
  }

  lemma NoGroups()
    ensures KeepsGoing([])
  {
  }

  /** One call with one empty write and then the end: the loop stops, reports success, and has not written
      the last chunk. */
  lemma EmptyWriteStops(trailer: seq<Field>)
    ensures !KeepsGoing([[[]]]) && Written(Calls([[[]]], [], trailer)) == []
  {
    var groups: seq<seq<seq<Byte>>> := [[[]]];
    assert Stops(groups[0]);
    WrittenIs(groups, [], trailer);
    assert Chunks([[]]) == Sent([]) + Chunks([]);
  }

  lemma LastCall(ops: seq<SinkOp>, trailer: seq<Field>)
    ensures Effects(ops + [Done(trailer)]) == Effects(ops) + End(trailer) && !Available(ops + [Done(trailer)], true)
  {
    assert (ops + [Done(trailer)])[..|ops|] == ops;
  }

  // ----- the decoder -----

  /** Every chunk has a length that a 32-bit unsigned long can hold. */
  ghost predicate Countable(chunks: seq<seq<Byte>>) {
    forall i :: 0 <= i < |chunks| ==> |chunks[i]| < ULONG_MAX
  }

  ghost predicate NonEmpty(chunks: seq<seq<Byte>>) {
    forall i :: 0 <= i < |chunks| ==> chunks[i] != []
  }

  /** Bytes of the chunk in progress, with the line end behind it. */
  function Current(cur: seq<Byte>): seq<Byte> {
    if cur == [] then [] else cur + CRLF
  }

  /** What a stream holds: the rest of a chunk, more chunks, and whatever follows. */
  ghost predicate Holds(ahead: seq<Byte>, cur: seq<Byte>, chunks: seq<seq<Byte>>, tail: seq<Byte>) {
    NonEmpty(chunks) && ahead == Current(cur) + (Chunks(chunks) + tail)
  }

  lemma HeaderLine(n: nat)
    requires n < 0x1_0000_0000_0000_0000
    ensures var h := Hex(n) + CRLF; IsLine(h) && |h| < MAX_LINE_LENGTH
    ensures StrToUl(Hex(n) + CRLF) == if n > ULONG_MAX then ULONG_MAX else n
  {
    HexDigits(n);
    StrToUlHex(n, CRLF);
    HexLength(n, 16, Power16(16)) by { PowerOf16(); }
    hide Hex, StrToUl, HexValue;
    var h := Hex(n) + CRLF;
    assert Break(h, |h| - 2);
    forall i | 0 <= i < |h| - 2 ensures !Break(h, i) {
      assert h[i] == Hex(n)[i];
    }
  }

  lemma NextChunk(chunks: seq<seq<Byte>>, rest: seq<Byte>)
    requires chunks != [] && chunks[0] != []
    ensures Chunks(chunks) + rest == (Hex(|chunks[0]|) + CRLF) + (Current(chunks[0]) + (Chunks(chunks[1..]) + rest))
  {
    hide Hex;
  }

  lemma CrlfIsLine()
    ensures IsLine(CRLF)
  {
  }

  /** A chunk as it may come: the line with its length, and its bytes. */
  datatype Frame = Frame(line: seq<Byte>, data: seq<Byte>)

  ghost function Framed(frames: seq<Frame>): seq<Byte> {
    if frames == [] then []
    else var f := frames[|frames| - 1]; Framed(frames[..|frames| - 1]) + (f.line + f.data + CRLF)
  }

  ghost function AllData(frames: seq<Frame>): seq<Byte> {
    if frames == [] then [] else AllData(frames[..|frames| - 1]) + frames[|frames| - 1].data
  }

  /** The line says how many bytes there are; they end with a line end of their own. */
  ghost predicate GoodFrame(f: Frame) {
    IsLine(f.line) && StrToUl(f.line) == |f.data| != 0
  }

  ghost predicate AllFrames(frames: seq<Frame>) {
    forall i :: 0 <= i < |frames| ==> GoodFrame(frames[i])
  }

  /** The bytes are chunks with this content, a last line that says zero, and the rest. */
  ghost predicate IsChunked(bytes: seq<Byte>, content: seq<Byte>, rest: seq<Byte>) {
    exists frames, last :: AllFrames(frames) && bytes == Framed(frames) + last + rest && StrToUl(last) == 0
      && content == AllData(frames)
  }

  /** The decoder has read these frames, and some bytes of another one if there are bytes to come of it. */
  ghost predicate ReadSoFar(whole: seq<Byte>, ahead: seq<Byte>, frames: seq<Frame>, open: Frame, remaining: nat, content: seq<Byte>) {
    && AllFrames(frames) && content == AllData(frames) + open.data
    && if remaining == 0 then whole == Framed(frames) + ahead && open.data == []
       else whole == Framed(frames) + (open.line + open.data) + ahead && IsLine(open.line)
            && StrToUl(open.line) == |open.data| + remaining
  }

  /** The next frame begins with its length line, if it was not open, and goes on with the bytes read; when none are
      left the line end has been read, too. */
  lemma ReadOn(whole: seq<Byte>, ahead: seq<Byte>, frames: seq<Frame>, open: Frame, remaining: nat, content: seq<Byte>,
               line: seq<Byte>, buf: seq<Byte>, remaining': nat, ahead': seq<Byte>)
    requires ReadSoFar(whole, ahead, frames, open, remaining, content) && buf != []
    requires ahead == line + buf + (if remaining' == 0 then CRLF else []) + ahead'
    requires if remaining == 0 then IsLine(line) && StrToUl(line) == |buf| + remaining' else line == [] && remaining == |buf| + remaining'
    ensures var more := Frame(if remaining == 0 then line else open.line, open.data + buf);
            if remaining' == 0 then ReadSoFar(whole, ahead', frames + [more], Frame([], []), 0, content + buf)
            else ReadSoFar(whole, ahead', frames, more, remaining', content + buf)
  {
    hide IsLine, StrToUl;
    var more := Frame(if remaining == 0 then line else open.line, open.data + buf);
    OneMoreFrame(frames, more);
    hide Framed, AllData;
    Append(AllData(frames), open.data, buf);
    FrameBytes(Framed(frames), more.line, open.data, buf, if remaining' == 0 then CRLF else [], ahead');
  }

  lemma Append(x: seq<Byte>, y: seq<Byte>, z: seq<Byte>)
    ensures x + y + z == x + (y + z) && x + (y + z) + [] == x + (y + z)
  {
  }

  lemma FrameBytes(x: seq<Byte>, line: seq<Byte>, data: seq<Byte>, buf: seq<Byte>, end: seq<Byte>, rest: seq<Byte>)
    ensures x + (line + data) + ([] + buf + end + rest) == x + (line + (data + buf) + end) + rest
    ensures data == [] ==> x + (line + buf + end + rest) == x + (line + (data + buf) + end) + rest
    ensures end == [] ==> x + (line + (data + buf) + end) == x + (line + (data + buf))
  {
    assert [] + buf == buf;
    assert data == [] ==> data + buf == buf;
  }

  lemma OneMoreFrame(frames: seq<Frame>, f: Frame)
    ensures Framed(frames + [f]) == Framed(frames) + (f.line + f.data + CRLF)
    ensures AllData(frames + [f]) == AllData(frames) + f.data
    ensures AllFrames(frames) && GoodFrame(f) ==> AllFrames(frames + [f])
  {
    hide GoodFrame;
    assert (frames + [f])[..|frames|] == frames;
  }

  lemma NothingRead(whole: seq<Byte>)
    ensures ReadSoFar(whole, whole, [], Frame([], []), 0, [])
  {
    assert [] + whole == whole;
  }

  lemma ReadToEnd(whole: seq<Byte>, ahead: seq<Byte>, frames: seq<Frame>, open: Frame, content: seq<Byte>, last: seq<Byte>,
                  rest: seq<Byte>)
    requires ReadSoFar(whole, ahead, frames, open, 0, content) && ahead == last + rest && StrToUl(last) == 0
    ensures IsChunked(whole, content, rest)
  {
    hide StrToUl, Framed, AllData, AllFrames;
    assert AllData(frames) + [] == AllData(frames);
    assert whole == Framed(frames) + last + rest;
  }

  /** Taking some bytes off the chunk in progress. */
  lemma TakeFrom(ahead: seq<Byte>, cur: seq<Byte>, chunks: seq<seq<Byte>>, tail: seq<Byte>, buf: seq<Byte>, ahead2: seq<Byte>)
    requires Holds(ahead, cur, chunks, tail) && ahead == buf + ahead2 && 0 < |buf| <= |cur|
    ensures cur == buf + cur[|buf|..]
    ensures if |buf| < |cur| then Holds(ahead2, cur[|buf|..], chunks, tail)
            else CRLF <= ahead2 && Holds(ahead2[2..], [], chunks, tail)
  {
    var more := Chunks(chunks) + tail;
    hide Chunks, NonEmpty;
    var left := cur[|buf|..];
    assert ahead == cur + (CRLF + more);
    assert ahead[..|buf|] == buf && ahead[|buf|..] == left + (CRLF + more);
    assert ahead2 == ahead[|buf|..];
    if left == [] {
      assert ahead2[2..] == more && Current([]) + more == more;
    } else {
      assert ahead2 == Current(left) + more;
    }
  }

  class ChunkedDecoder {
    const strm: InStream
    var chunkRemaining: nat
    var finished: bool
    var lastChunkTotal: nat
    var lastChunkOffset: nat

    constructor (s: InStream)
      ensures strm == s && chunkRemaining == 0 && !finished
    {
      strm, chunkRemaining, finished, lastChunkTotal, lastChunkOffset := s, 0, false, 0, 0;
    }

    /** The length line of a chunk; a length of zero finishes. */
    method ReadHeader(ghost chunks: seq<seq<Byte>>, ghost tail: seq<Byte>) returns (ok: bool, ghost line: seq<Byte>)
      requires chunkRemaining == 0 && !finished
      modifies this, strm
      ensures |strm.ahead| <= |old(strm.ahead)| && old(strm.ahead) == line + strm.ahead
      ensures ok ==> StrToUl(line) == chunkRemaining && (finished <==> chunkRemaining == 0) && (IsLine(line) || strm.ahead == [])
      ensures !ok || finished ==> chunkRemaining == 0
      ensures ok && !finished ==> chunkRemaining == lastChunkTotal > 0 && lastChunkOffset == 0
      ensures Holds(old(strm.ahead), [], chunks, tail) && (chunks != [] ==> |chunks[0]| < WORD * WORD) ==>
                if chunks == [] then (LAST_CHUNK <= tail ==> ok && finished && strm.ahead == tail[3..]) && (tail == [] ==> !ok)
                else if |chunks[0]| >= ULONG_MAX then !ok
                else ok && !finished && chunkRemaining == |chunks[0]| && Holds(strm.ahead, chunks[0], chunks[1..], tail)
    {
      hide Hex, StrToUl, IsLine;
      ghost var n := if chunks == [] then 0 else |chunks[0]|;
      ghost var line0 := Hex(n) + CRLF;
      ghost var whole := strm.ahead;
      if n < WORD * WORD {
        HeaderLine(n);
      }
      if Holds(whole, [], chunks, tail) {
        if chunks == [] {
          OnlyTail(whole, tail);
        }
        if chunks != [] || LAST_CHUNK <= tail {
          FrontLine(whole, chunks, tail);
        }
      }
      var got, text := GetLine(strm, line0);
      line := text;
      if !got {
        return false, line;
      }
      var chunkLen := StrToUl(text);
      if chunkLen < 0 || chunkLen == ULONG_MAX {
        return false, line;
      }
      ok := true;
      if chunkLen == 0 {
        finished := true;
      } else {
        chunkRemaining, lastChunkTotal, lastChunkOffset := chunkLen, chunkLen, 0;
      }
      if Holds(whole, [], chunks, tail) && n < WORD * WORD {
        AfterLine(whole, chunks, tail, strm.ahead);
      }
    }

    /** Where the decoder stands. */
    ghost predicate At(cur: seq<Byte>, chunks: seq<seq<Byte>>, tail: seq<Byte>)
      reads this, strm
    {
      && !finished && chunkRemaining == |cur| && Holds(strm.ahead, cur, chunks, tail)
      && (cur != [] ==> lastChunkOffset + |cur| == lastChunkTotal)
      && forall i :: 0 <= i < |chunks| ==> |chunks[i]| < WORD * WORD
    }

    /** read_payload: at least one byte of the content and at most len, or 0 at the end, or -1.  The ghost
        values say what the stream holds. */
    method ReadPayload(len: nat, ghost cur: seq<Byte>, ghost chunks: seq<seq<Byte>>, ghost tail: seq<Byte>)
        returns (n: int, buf: seq<Byte>, offset: nat, total: nat, ghost cur2: seq<Byte>, ghost chunks2: seq<seq<Byte>>,
                 ghost line: seq<Byte>)
      requires 0 < len
      modifies this, strm
      ensures n == 0 && !old(finished) && old(chunkRemaining) == 0
              ==> finished && StrToUl(line) == 0 && old(strm.ahead) == line + strm.ahead
      ensures n > 0 ==> !old(finished) && !finished
                        && old(strm.ahead) == line + buf + (if chunkRemaining == 0 then CRLF else []) + strm.ahead
                        && if old(chunkRemaining) == 0 then IsLine(line) && StrToUl(line) == |buf| + chunkRemaining
                           else line == [] && old(chunkRemaining) == |buf| + chunkRemaining
      ensures n == 0 && !old(finished) ==> old(chunkRemaining) == 0
      ensures n > 0 ==> n == |buf| <= len && |strm.ahead| < |old(strm.ahead)|
      ensures |strm.ahead| <= |old(strm.ahead)|
      ensures old(At(cur, chunks, tail)) ==>
                if cur == [] && chunks == []
                then (LAST_CHUNK <= tail ==> n == 0 && finished && strm.ahead == tail[3..]) && (tail == [] ==> n == -1)
                else if cur == [] && |chunks[0]| >= ULONG_MAX then n == -1
                else n > 0 && At(cur2, chunks2, tail) && cur + Concat(chunks) == buf + (cur2 + Concat(chunks2))
                     && chunks2 == (if cur == [] then chunks[1..] else chunks)
                     && total == (if cur == [] then |chunks[0]| else old(lastChunkTotal))
                     && offset == (if cur == [] then 0 else old(lastChunkOffset))
    {
      hide Holds, Concat, IsLine;
      buf, offset, total, cur2, chunks2, line := [], 0, 0, cur, chunks, [];
      if finished {
        return 0, buf, offset, total, cur2, chunks2, line;
      }
      ghost var whole := strm.ahead;
      if chunkRemaining == 0 {
        var ok;
        ok, line := ReadHeader(chunks, tail);
        if !ok {
          return -1, buf, offset, total, cur2, chunks2, line;
        }
        if finished {
          return 0, buf, offset, total, cur2, chunks2, line;
        }
        if chunks != [] && old(At(cur, chunks, tail)) {
          cur2, chunks2 := chunks[0], chunks[1..];
          ConcatFront(chunks);
        }
      }
      ghost var behind := strm.ahead;
      assert whole == line + behind;
      n, buf, offset, total, cur2 := ReadBytes(len, cur2, chunks2, tail);
      if n > 0 {
        ghost var end := if chunkRemaining == 0 then CRLF else [];
        assert line + (buf + end + strm.ahead) == line + buf + end + strm.ahead;
      }
    }

    /** The part of read_payload behind the length line. */
    method ReadBytes(len: nat, ghost cur: seq<Byte>, ghost chunks: seq<seq<Byte>>, ghost tail: seq<Byte>)
        returns (n: int, buf: seq<Byte>, offset: nat, total: nat, ghost cur2: seq<Byte>)
      requires 0 < len && 0 < chunkRemaining
      modifies this`chunkRemaining, this`lastChunkOffset, strm
      ensures n > 0 ==> n == |buf| <= len && |strm.ahead| < |old(strm.ahead)|
      ensures n > 0 ==> old(strm.ahead) == buf + (if chunkRemaining == 0 then CRLF else []) + strm.ahead
                        && old(chunkRemaining) == |buf| + chunkRemaining
      ensures |strm.ahead| <= |old(strm.ahead)| && n != 0
      ensures old(At(cur, chunks, tail)) ==>
                n > 0 && At(cur2, chunks, tail) && cur == buf + cur2
                && total == lastChunkTotal && offset == old(lastChunkOffset)
    {
      hide Holds, IsLine;
      ghost var before := strm.ahead;
      cur2 := cur;
      var toRead := if chunkRemaining < len then chunkRemaining else len;
      buf := strm.Read(toRead);
      if buf == [] {
        if Holds(before, cur, chunks, tail) && |cur| > 0 {
          HoldsMore(before, cur, chunks, tail);
        }
        return -1, buf, 0, 0, cur2;
      }
      offset, total := lastChunkOffset, lastChunkTotal;
      lastChunkOffset := lastChunkOffset + |buf|;
      chunkRemaining := chunkRemaining - |buf|;
      if Holds(before, cur, chunks, tail) && |buf| <= |cur| {
        TakeFrom(before, cur, chunks, tail, buf, strm.ahead);
        cur2 := cur[|buf|..];
      }
      if chunkRemaining == 0 {
        CrlfIsLine();
        ghost var behind := strm.ahead;
        var ok, line := GetLine(strm, CRLF);
        if !ok || line != CRLF {
          return -1, buf, offset, total, cur2;
        }
        assert behind[2..] == strm.ahead;
        assert before == buf + CRLF + strm.ahead;
      }
      assert buf + [] + strm.ahead == buf + strm.ahead;
      n := |buf|;
    }
  }

  lemma HoldsMore(ahead: seq<Byte>, cur: seq<Byte>, chunks: seq<seq<Byte>>, tail: seq<Byte>)
    requires Holds(ahead, cur, chunks, tail) && cur != []
    ensures ahead != []
  {
  }

  lemma ConcatFront(chunks: seq<seq<Byte>>)
    ensures chunks != [] ==> Concat(chunks) == chunks[0] + Concat(chunks[1..])
    ensures Concat([]) == []
  {
  }

  /** The line in front. */
  lemma FrontLine(whole: seq<Byte>, chunks: seq<seq<Byte>>, tail: seq<Byte>)
    requires Holds(whole, [], chunks, tail) && (chunks == [] ==> LAST_CHUNK <= tail)
    ensures var n := if chunks == [] then 0 else |chunks[0]|; Hex(n) + CRLF <= whole
  {
    if chunks == [] {
      assert Hex(0) + CRLF == LAST_CHUNK && whole == tail;
    } else {
      NextChunk(chunks, tail);
    }
  }

  /** What follows the line in front. */
  lemma AfterLine(whole: seq<Byte>, chunks: seq<seq<Byte>>, tail: seq<Byte>, ahead: seq<Byte>)
    requires Holds(whole, [], chunks, tail)
    ensures var n := if chunks == [] then 0 else |chunks[0]|;
            whole == (Hex(n) + CRLF) + ahead ==>
              if chunks == [] then LAST_CHUNK <= tail && ahead == tail[3..] else Holds(ahead, chunks[0], chunks[1..], tail)
  {
    if chunks == [] {
      assert Hex(0) + CRLF == LAST_CHUNK && whole == tail;
    } else {
      var n := |chunks[0]|;
      var more := Current(chunks[0]) + (Chunks(chunks[1..]) + tail);
      NextChunk(chunks, tail);
      SameFront(Hex(n) + CRLF, more, ahead);
    }
  }

  lemma OnlyTail(whole: seq<Byte>, tail: seq<Byte>)
    requires Holds(whole, [], [], tail)
    ensures whole == tail
  {
  }

  // ----- writing and reading -----

  /** Reads until the decoder is finished, with any positive length each time.  Whatever it reads successfully is
      chunked, and the content is that of the chunks.  Behind the last chunk it
      stops; without one it cannot stop before it has read all chunks, and fails if nothing follows. */
  method ReadAll(strm: InStream, ghost chunks: seq<seq<Byte>>, ghost tail: seq<Byte>) returns (ok: bool, content: seq<Byte>)
    requires Holds(strm.ahead, [], chunks, tail) && forall i :: 0 <= i < |chunks| ==> |chunks[i]| < WORD * WORD
    modifies strm
    ensures LAST_CHUNK <= tail ==> (ok <==> Countable(chunks)) && (ok ==> content == Concat(chunks) && strm.ahead == tail[3..])
    ensures ok ==> |strm.ahead| <= |tail| && tail != []
    ensures ok ==> IsChunked(old(strm.ahead), content, strm.ahead)
  {
    hide Holds, Concat, Countable, IsLine, StrToUl, ReadSoFar;
    ghost var whole, frames: seq<Frame>, open := strm.ahead, [], Frame([], []);
    NothingRead(whole);
    var dec := new ChunkedDecoder(strm);
    content := [];
    ghost var cur: seq<Byte>, left, beyond := [], chunks, false;
    ReadAllStarts(chunks);
    while true
      invariant fresh(dec) && dec.strm == strm && !dec.finished
      invariant ReadSoFar(whole, strm.ahead, frames, open, dec.chunkRemaining, content)
      invariant !beyond ==> dec.At(cur, left, tail)
                            && Concat(chunks) == content + (cur + Concat(left)) && (Countable(chunks) <==> Countable(left))
      invariant beyond ==> !(LAST_CHUNK <= tail) && |strm.ahead| <= |tail| && tail != []
      decreases |strm.ahead|
    {
      var len: int := *;
      if len < 1 {
        len := 1;
      }
      CountableFront(left);
      ghost var cur2, left2;
      var n, buf, offset, total;
      if !beyond && cur == [] && left == [] {
        OnlyTail(strm.ahead, tail);
        assert content + ([] + []) == content;
        beyond := !(LAST_CHUNK <= tail) && tail != [];
      }
      ghost var line, ahead, remaining := [], strm.ahead, dec.chunkRemaining;
      n, buf, offset, total, cur2, left2, line := dec.ReadPayload(len, cur, left, tail);
      if n < 0 {
        return false, content;
      }
      if n == 0 {
        ReadToEnd(whole, ahead, frames, open, content, line, strm.ahead);
        return true, content;
      }
      ReadOn(whole, ahead, frames, open, remaining, content, line, buf, dec.chunkRemaining, strm.ahead);
      open := Frame(if remaining == 0 then line else open.line, open.data + buf);
      if dec.chunkRemaining == 0 {
        frames, open := frames + [open], Frame([], []);
      }
      assert content + (buf + (cur2 + Concat(left2))) == (content + buf) + (cur2 + Concat(left2));
      content := content + buf;
      cur, left := cur2, left2;
    }
  }

  lemma ReadAllStarts(chunks: seq<seq<Byte>>)
    ensures Concat(chunks) == [] + ([] + Concat(chunks)) && Concat([]) == [] && Countable([])
  {
  }

  lemma CountableFront(chunks: seq<seq<Byte>>)
    ensures chunks != [] ==> (Countable(chunks) <==> |chunks[0]| < ULONG_MAX && Countable(chunks[1..]))
    ensures Concat([]) == [] && Countable([])
  {
    if chunks != [] && |chunks[0]| < ULONG_MAX && Countable(chunks[1..]) {
      forall i | 0 <= i < |chunks| ensures |chunks[i]| < ULONG_MAX {
        assert i > 0 ==> chunks[i] == chunks[1..][i - 1];
      }
    }
  }

  /** The writes that make chunks. */
  ghost function Solid(writes: seq<seq<Byte>>): seq<seq<Byte>> {
    if writes == [] then []
    else (if writes[0] == [] then [] else [writes[0]]) + Solid(writes[1..])
  }

  lemma {:induction false} SolidChunks(writes: seq<seq<Byte>>)
    ensures Chunks(Solid(writes)) == Chunks(writes)
    decreases |writes|
  {
    hide Chunk;
    if writes != [] {
      var more := Solid(writes[1..]);
      SolidChunks(writes[1..]);
      assert ([writes[0]] + more)[1..] == more;
      assert [] + more == more && [] + Chunks(more) == Chunks(more);
    }
  }

  lemma {:induction false} SolidConcat(writes: seq<seq<Byte>>)
    ensures Concat(Solid(writes)) == Concat(writes) && NonEmpty(Solid(writes))
    decreases |writes|
  {
    if writes != [] {
      var more := Solid(writes[1..]);
      SolidConcat(writes[1..]);
      assert ([writes[0]] + more)[1..] == more;
      assert [] + more == more && [] + Concat(more) == Concat(more);
    }
  }

  lemma {:induction false} SolidElements(writes: seq<seq<Byte>>, w: seq<Byte>)
    ensures w in Solid(writes) <==> w in writes && w != []
    decreases |writes|
  {
    if writes != [] {
      SolidElements(writes[1..], w);
    }
  }

  lemma SolidCountable(writes: seq<seq<Byte>>)
    ensures Countable(Solid(writes)) <==> Countable(writes)
    ensures (forall i :: 0 <= i < |writes| ==> |writes[i]| < WORD * WORD) ==>
              forall i :: 0 <= i < |Solid(writes)| ==> |Solid(writes)[i]| < WORD * WORD
  {
    var solid := Solid(writes);
    hide Solid;
    forall i | 0 <= i < |solid| ensures solid[i] in writes {
      SolidElements(writes, solid[i]);
    }
    forall i | 0 <= i < |writes| && writes[i] != [] ensures writes[i] in solid {
      SolidElements(writes, writes[i]);
    }
  }

  lemma {:induction false} ReachedAreWrites(groups: seq<seq<seq<Byte>>>, last: seq<seq<Byte>>, w: seq<Byte>)
    ensures w in Reached(groups) ==> w in AllWrites(groups, last)
    decreases |groups|
  {
    if groups != [] {
      ReachedAreWrites(groups[1..], last, w);
    }
  }

  /** Every write has a length that fits into a word of the machine. */
  ghost predicate Sizes(writes: seq<seq<Byte>>) {
    forall i :: 0 <= i < |writes| ==> |writes[i]| < WORD * WORD
  }

  lemma ReachedSizes(groups: seq<seq<seq<Byte>>>, last: seq<seq<Byte>>)
    requires Sizes(AllWrites(groups, last))
    ensures Sizes(Reached(groups))
  {
    var some := Reached(groups);
    hide Reached, AllWrites;
    forall i | 0 <= i < |some| ensures |some[i]| < WORD * WORD {
      ReachedAreWrites(groups, last, some[i]);
    }
  }

  /** Reads what was written by a provider, with whatever comes behind it. */
  method ReadBack(sent: seq<Byte>, rest: seq<Byte>, ghost writes: seq<seq<Byte>>, ghost tail: seq<Byte>)
      returns (ok: bool, content: seq<Byte>, behind: seq<Byte>)
    requires sent + rest == Chunks(writes) + tail && Sizes(writes)
    ensures LAST_CHUNK <= tail ==> (ok <==> Countable(writes)) && (ok ==> content == Concat(writes) && behind == tail[3..])
    ensures ok ==> |behind| <= |tail| && tail != []
  {
    hide Chunks, Countable, Concat, Solid, NonEmpty;
    SolidChunks(writes);
    SolidConcat(writes);
    SolidCountable(writes);
    assert sent + rest == [] + (Chunks(Solid(writes)) + tail);
    var input := new InStream(sent + rest);
    ok, content := ReadAll(input, Solid(writes), tail);
    behind := input.ahead;
  }

  /** The writes come back, the decoder is finished, and the trailer section is still to be read. */
  ghost predicate Delivered(ok: bool, content: seq<Byte>, behind: seq<Byte>, writes: seq<seq<Byte>>, trailer: seq<Field>,
                            rest: seq<Byte>) {
    ok && content == Concat(writes) && behind == FieldLines(trailer) + CRLF + rest
  }

  /** Writes in any grouping, sent and received in any fragments, read with any lengths, with anything
      behind them: exactly the written bytes come back, and then the decoder is finished, if and only if
      every write can be counted in its length line and no call before the last ends with an empty write.
      If one does and the connection ends there, the decoder fails. */
  method RoundTrip(strm: OutStream, groups: seq<seq<seq<Byte>>>, last: seq<seq<Byte>>, trailer: seq<Field>, rest: seq<Byte>)
      returns (sent: bool, ok: bool, content: seq<Byte>, behind: seq<Byte>)
    requires strm.sent == [] && Sizes(AllWrites(groups, last))
    modifies strm
    ensures strm.failed == (old(strm.failed) || !sent)
    ensures sent ==> (Delivered(ok, content, behind, AllWrites(groups, last), trailer, rest)
                      <==> Countable(AllWrites(groups, last)) && KeepsGoing(groups))
    ensures sent && !Countable(AllWrites(groups, last)) && KeepsGoing(groups) ==> !ok
    ensures sent && !KeepsGoing(groups) && rest == [] ==> !ok
  {
    hide Chunks, Written, Countable, Concat, Calls, AllWrites, Reached, KeepsGoing, Sizes;
    ok, content, behind := false, [], [];
    sent := WriteContentChunked(strm, Calls(groups, last, trailer));
    if sent {
      assert [] + Written(Calls(groups, last, trailer)) == strm.sent;
      WrittenIs(groups, last, trailer);
      ReachedSizes(groups, last);
      ghost var after := FieldLines(trailer) + CRLF + rest;
      ghost var writes := if KeepsGoing(groups) then AllWrites(groups, last) else Reached(groups);
      ghost var tail := if KeepsGoing(groups) then LAST_CHUNK + after else rest;
      assert strm.sent + rest == Chunks(writes) + tail;
      ok, content, behind := ReadBack(strm.sent, rest, writes, tail);
    }
  }

  /** One write of 2^32 - 1 bytes: its length line reads as the value that stands for an error. */
  method HugeChunkLost(strm: OutStream, b: Byte, trailer: seq<Field>, rest: seq<Byte>) returns (sent: bool, ok: bool)
    requires strm.sent == []
    modifies strm
    ensures sent ==> !ok
    ensures strm.failed == (old(strm.failed) || !sent)
  {
    hide Countable, KeepsGoing, AllWrites, Sizes, Delivered;
    var huge := seq(ULONG_MAX, _ => b);
    HugeChunk(huge);
    var content, behind;
    sent, ok, content, behind := RoundTrip(strm, [], [huge], trailer, rest);
  }

  lemma HugeChunk(huge: seq<Byte>)
    requires |huge| == ULONG_MAX
    ensures !Countable(AllWrites([], [huge])) && KeepsGoing([]) && Sizes(AllWrites([], [huge]))
  {
    assert [huge][0] == huge;
  }
}
