/** Bytes, and 32-bit words in little-endian order. */
module Bytes {
  newtype Byte = x: int | 0 <= x < 256

  const WORD := 0x1_0000_0000

  const CR: Byte := 13
  const LF: Byte := 10
  const CRLF: seq<Byte> := [CR, LF]

  type Word32 = w: nat | w < WORD

  /** Unsigned 32-bit arithmetic wraps around. */
  function Wrap(n: int): (w: nat)
    ensures w < WORD
    ensures 0 <= n < WORD ==> w == n
  {
    n % WORD
  }

  function Le32(w: nat): (s: seq<Byte>)
    requires w < WORD
    ensures |s| == 4
  {
    [(w % 256) as Byte, (w / 0x100 % 256) as Byte, (w / 0x1_0000 % 256) as Byte, (w / 0x100_0000) as Byte]
  }

  function FromLe32(s: seq<Byte>): (w: nat)
    requires |s| == 4
    ensures w < WORD
  {
    s[0] as int + 0x100 * s[1] as int + 0x1_0000 * s[2] as int + 0x100_0000 * s[3] as int
  }

  lemma Le32RoundTrip(w: nat)
    requires w < WORD
    ensures FromLe32(Le32(w)) == w
  {
    var a := w / 0x100;
    var b := a / 0x100;
    assert w / 0x1_0000 == b && w / 0x100_0000 == b / 0x100;
  }

  // ----- pieces -----

  function Concat(pieces: seq<seq<Byte>>): seq<Byte> {
    if pieces == [] then [] else pieces[0] + Concat(pieces[1..])
  }

  lemma {:induction false} ConcatAppend(x: seq<seq<Byte>>, y: seq<seq<Byte>>)
    ensures Concat(x + y) == Concat(x) + Concat(y)
    decreases |x|
  {
    if x == [] {
      assert x + y == y;
    } else {
      ConcatAppend(x[1..], y);
      var z := x + y;
      assert z[0] == x[0] && z[1..] == x[1..] + y;
      assert Concat(z) == x[0] + Concat(x[1..] + y);
    }
  }

  /** One piece more. */
  lemma ConcatGrows(pieces: seq<seq<Byte>>, i: nat)
    requires i < |pieces|
    ensures Concat(pieces[..i + 1]) == Concat(pieces[..i]) + pieces[i]
    ensures Concat(pieces[..i + 1]) <= Concat(pieces)
  {
    hide Concat;
    var front, next := pieces[..i], pieces[..i + 1];
    TakeMore(pieces, i);
    ConcatAppend(front, [pieces[i]]);
    ConcatOne(pieces[i]);
    ConcatAppend(next, pieces[i + 1..]);
  }

  lemma TakeMore<T>(s: seq<T>, i: nat)
    requires i < |s|
    ensures s[..i + 1] == s[..i] + [s[i]] && s == s[..i + 1] + s[i + 1..]
  {
  }

  lemma ConcatOne(p: seq<Byte>)
    ensures Concat([p]) == p
  {
    assert [p][1..] == [] && p + [] == p;
  }
}
