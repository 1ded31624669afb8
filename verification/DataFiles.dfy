/** MAIN.DAT as an open file: bytes, a cursor, and writes that can be cut short. */
module DataFiles {
  import opened Helpers
  import opened Bytes

  /** w written over b from position p on. */
  function Overlay(b: seq<Byte>, p: nat, w: seq<Byte>): (r: seq<Byte>)
    requires p <= |b|
    ensures |r| == if p + |w| < |b| then |b| else p + |w|
  {
    b[..p] + w + if p + |w| < |b| then b[p + |w|..] else []
  }

  /** n as k bytes, least significant first. */
  function Le(n: nat, k: nat): (s: seq<Byte>)
    ensures |s| == k
  {
    if k == 0 then [] else [(n % 256) as Byte] + Le(n / 256, k - 1)
  }

  function FromLe(s: seq<Byte>): nat {
    if s == [] then 0 else s[0] as int + 256 * FromLe(s[1..])
  }

  function Power256(k: nat): (p: nat)
    ensures p > 0
  {
    if k == 0 then 1 else 256 * Power256(k - 1)
  }

  lemma {:induction false} LeRoundTrip(n: nat, k: nat)
    requires n < Power256(k)
    ensures FromLe(Le(n, k)) == n
  {
    if k > 0 {
      LeRoundTrip(n / 256, k - 1);
    }
  }

  /** No disk holds as many bytes as an object header cannot count. */
  const DISK_LIMIT := 0x80_0000_0000_0000  // 2^55

  class DataFile {
    var bytes: seq<Byte>
    var pos: nat
    ghost var failed: bool  // some write, or change of the end, has failed

    constructor (contents: seq<Byte>)
      ensures bytes == contents && pos == 0 && !failed
    {
      bytes, pos, failed := contents, 0, false;
    }

    /** SetFilePointerEx */
    method Seek(to: nat)
      modifies this`pos
      ensures pos == to
    {
      pos := to;
    }

    /** WriteFile: all of the buffer, or a cut after some of it. */
    method Write(buf: seq<Byte>) returns (ok: bool)
      requires pos <= |bytes|
      modifies this
      ensures exists n: nat :: n <= |buf| && (ok ==> n == |buf|) && bytes == Overlay(old(bytes), old(pos), buf[..n])
                               && pos == old(pos) + n
      ensures |old(bytes)| < DISK_LIMIT ==> |bytes| < DISK_LIMIT
      ensures failed == (old(failed) || !ok)
    {
      ok := *;
      var n: int := *;
      if ok || n < 0 || n > |buf| {
        n := |buf|;
      }
      if pos + n >= DISK_LIMIT {
        ok, n := false, 0;
      }
      bytes, pos, failed := Overlay(bytes, pos, buf[..n]), pos + n, failed || !ok;
    }

    /** SetEndOfFile: cuts the file at the cursor, or extends it up to there with whatever is on the disk. */
    method SetEnd() returns (ok: bool)
      modifies this`bytes, this`failed
      ensures failed == (old(failed) || !ok)
      ensures !ok ==> bytes == old(bytes)
      ensures |old(bytes)| < DISK_LIMIT ==> |bytes| < DISK_LIMIT
      ensures ok ==> |bytes| == pos && bytes[..Min(pos, |old(bytes)|)] == old(bytes)[..Min(pos, |old(bytes)|)]
    {
      ok := *;
      if pos >= DISK_LIMIT && pos > |bytes| {
        ok := false;
      }
      failed := failed || !ok;
      if ok {
        if pos <= |bytes| {
          bytes := bytes[..pos];
        } else {
          var filler: seq<Byte> := *;
          if |filler| != pos - |bytes| {
            filler := seq(pos - |bytes|, _ => 0);
          }
          bytes := bytes + filler;
        }
      }
    }

    /** ReadFile: at most n bytes; nothing behind the end. */
    method Read(n: nat) returns (buf: seq<Byte>)
      modifies this`pos
      ensures pos == old(pos) + (if old(pos) <= |bytes| then Min(n, |bytes| - old(pos)) else 0)
      ensures buf == if old(pos) <= |bytes| then bytes[old(pos)..pos] else []
    {
      buf := [];
      if pos <= |bytes| {
        var k := Min(n, |bytes| - pos);
        buf := bytes[pos..pos + k];
        pos := pos + k;
      }
    }
  }
}
