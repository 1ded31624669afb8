/** Byte streams as the network delivers them: a write takes some of the bytes, a read returns at least
    one byte while there are any, but no certain number. */
module Streams {
  import opened Bytes

  class OutStream {
    var sent: seq<Byte>
    ghost var failed: bool  // some write has failed

    constructor ()
      ensures sent == [] && !failed
    {
      sent, failed := [], false;
    }

    /** Stream::write: how many bytes were taken, or a negative number. */
    method Write(d: seq<Byte>) returns (n: int)
      requires d != []
      modifies this
      ensures (n < 0 || 0 < n <= |d|) && failed == (old(failed) || n < 0)
      ensures sent == if n < 0 then old(sent) else old(sent) + d[..n]
    {
      n := *;
      if n == 0 || n > |d| {
        n := |d|;
      }
      if n > 0 {
        sent := sent + d[..n];
      }
      failed := failed || n < 0;
    }
  }

  /** write_data: everything, or a failure. */
  method WriteData(strm: OutStream, d: seq<Byte>) returns (ok: bool)
    modifies strm
    ensures ok ==> strm.sent == old(strm.sent) + d
    ensures strm.failed == (old(strm.failed) || !ok)
  {
    var offset := 0;
    while offset < |d|
      invariant 0 <= offset <= |d| && strm.sent == old(strm.sent) + d[..offset] && strm.failed == old(strm.failed)
    {
      var length := strm.Write(d[offset..]);
      if length < 0 {
        return false;
      }
      assert old(strm.sent) + d[..offset] + d[offset..][..length] == old(strm.sent) + d[..offset + length];
      offset := offset + length;
    }
    assert d[..|d|] == d;
    ok := true;
  }

  class InStream {
    var ahead: seq<Byte>  // bytes still to be delivered

    constructor (data: seq<Byte>)
      ensures ahead == data
    {
      ahead := data;
    }

    /** Stream::read of at most n bytes: empty only at the end of the stream. */
    method Read(n: nat) returns (buf: seq<Byte>)
      requires 0 < n
      modifies this
      ensures old(ahead) == buf + ahead && |buf| <= n && (buf == [] <==> old(ahead) == [])
    {
      var k: int := *;
      if k < 1 || k > n || k > |ahead| {
        k := if n <= |ahead| then n else |ahead|;
      }
      buf := ahead[..k];
      ahead := ahead[k..];
    }
  }

  const MAX_LINE_LENGTH := 32768

  ghost predicate Break(s: seq<Byte>, i: nat) {
    i + 1 < |s| && s[i] == CR && s[i + 1] == LF
  }

  /** A line is its bytes up to the first CR LF, which closes it. */
  ghost predicate IsLine(s: seq<Byte>) {
    2 <= |s| && Break(s, |s| - 2) && forall i :: 0 <= i < |s| - 2 ==> !Break(s, i)
  }

  /** No line has ended yet. */
  ghost predicate Unbroken(s: seq<Byte>) {
    forall i :: 0 <= i < |s| - 1 ==> !Break(s, i)
  }

  lemma AppendByte(s: seq<Byte>, b: Byte)
    requires Unbroken(s)
    ensures if s != [] && s[|s| - 1] == CR && b == LF then IsLine(s + [b]) else Unbroken(s + [b])
  {
    var t := s + [b];
    forall i | 0 <= i < |s| - 1 ensures !Break(t, i) {
      assert Break(t, i) <==> Break(s, i);
    }
  }

  /** Two lines at the front of the same bytes are the same line. */
  lemma LineIsUnique(whole: seq<Byte>, line: seq<Byte>, l: seq<Byte>)
    requires line <= whole && l <= whole && IsLine(line) && IsLine(l)
    ensures l == line
  {
    assert |l| < |line| ==> Break(line, |l| - 2);
    assert |l| > |line| ==> Break(l, |line| - 2);
  }

  /** Bytes without a line end do not contain a line. */
  lemma NoShortLine(whole: seq<Byte>, line: seq<Byte>, l: seq<Byte>)
    requires line <= whole && l <= whole && Unbroken(line) && |l| <= |line|
    ensures !IsLine(l)
  {
    if IsLine(l) {
      assert Break(line, |l| - 2);
    }
  }

  /** stream_line_reader::getline: reads byte by byte up to CR LF, the end of the stream, or the limit.
      Whatever line below the limit stands at the front of the stream is what it finds. */
  method GetLine(strm: InStream, ghost l: seq<Byte>) returns (ok: bool, line: seq<Byte>)
    modifies strm
    ensures old(strm.ahead) == line + strm.ahead && (ok ==> line != [])
    ensures ok ==> IsLine(line) || (strm.ahead == [] && Unbroken(line))
    ensures IsLine(l) && |l| < MAX_LINE_LENGTH && l <= old(strm.ahead) ==> ok && line == l
  {
    hide IsLine, Unbroken;
    line := [];
    var prevByte: Byte := 0;
    ghost var whole := strm.ahead;
    NothingYet();
    while true
      invariant whole == line + strm.ahead && Unbroken(line)
      invariant prevByte == if line == [] then 0 else line[|line| - 1]
      decreases |strm.ahead|
    {
      if |line| >= MAX_LINE_LENGTH {
        if l <= whole && |l| < MAX_LINE_LENGTH {
          NoShortLine(whole, line, l);
        }
        return false, line;
      }
      var buf := strm.Read(1);
      if buf == [] {
        if l <= whole {
          NoShortLine(whole, line, l);
        }
        return line != [], line;
      }
      assert buf == [buf[0]];
      AppendByte(line, buf[0]);
      line := line + buf;
      if prevByte == CR && buf[0] == LF {
        break;
      }
      prevByte := buf[0];
    }
    if IsLine(l) && l <= whole {
      LineIsUnique(whole, line, l);
    }
    ok := true;
  }

  lemma NothingYet()
    ensures Unbroken([])
  {
  }
}
