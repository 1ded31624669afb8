/** The header line of a patch: the hand-written matcher accepts exactly the lines of the pattern
    @@ -digits[,digits] +digits[,digits] @@ . */
module PatchHeader {
  import opened DiffList
  import opened Options
  import opened Numerals

  const AT: Char16 := 64
  const SPACE: Char16 := 32
  const PLUS_SIGN: Char16 := 43
  const COMMA: Char16 := 44

  const OPENING: Text := [AT, AT, SPACE, MINUS]
  const MIDDLE: Text := [SPACE, PLUS_SIGN]
  const CLOSING: Text := [SPACE, AT, AT]

  const SIZE_T := 0x1_0000_0000_0000_0000

  datatype Coord = Coord(start: Text, length: Text, rest: Text)

  datatype Fields = Fields(start1: Text, length1: Text, start2: Text, length2: Text)

  // ----- the pattern -----

  function DigitLen(s: Text): (n: nat)
    ensures n <= |s|
    ensures forall i :: 0 <= i < n ==> IsDigit(s[i])
    ensures n < |s| ==> !IsDigit(s[n])
  {
    if s != [] && IsDigit(s[0]) then 1 + DigitLen(s[1..]) else 0
  }

  lemma DigitLenIs(s: Text, n: nat)
    requires n <= |s| && (forall i :: 0 <= i < n ==> IsDigit(s[i])) && (n < |s| ==> !IsDigit(s[n]))
    ensures DigitLen(s) == n
  {
    var m := DigitLen(s);
    assert m < |s| ==> !IsDigit(s[m]);
  }

  lemma DigitLenAtLeast(s: Text, n: nat)
    requires n <= |s| && forall i :: 0 <= i < n ==> IsDigit(s[i])
    ensures n <= DigitLen(s)
  {
    var m := DigitLen(s);
    assert m < |s| ==> !IsDigit(s[m]);
  }

  /** Without a comma at the front. */
  function DropComma(s: Text): Text {
    if s != [] && s[0] == COMMA then s[1..] else s
  }

  /** digits[,digits] and what follows. */
  function ReadCoord(s: Text): Option<Coord> {
    var n := DigitLen(s);
    var r := DropComma(s[n..]);
    var m := DigitLen(r);
    if n == 0 then None else Some(Coord(s[..n], r[..m], r[m..]))
  }

  /** The four fields of a header line. */
  function Match(line: Text): Option<Fields> {
    if !(OPENING <= line) then None
    else
      match ReadCoord(line[4..])
      case None => None
      case Some(a) =>
        if !(MIDDLE <= a.rest) then None
        else
          match ReadCoord(a.rest[2..])
          case None => None
          case Some(b) =>
            if b.rest == CLOSING then Some(Fields(a.start, a.length, b.start, b.length)) else None
  }

  // ----- the matcher -----

  /** The character at a place of a NUL-terminated string. */
  function Char(s: Text, i: nat): Char16 {
    if i < |s| then s[i] else 0
  }

  /** Unsigned subtraction of one, which wraps around below zero. */
  function Less(l: nat): nat {
    if l == 0 then SIZE_T - 1 else l - 1
  }

  function Unsigned(l: int): int {
    if l < 0 then l + SIZE_T else l
  }

  /** The token ends where the line or the string does. */
  ghost predicate Ends(s: Text, end: nat) {
    end <= |s| < SIZE_T / 2 && (end < |s| ==> s[end] == 10)
  }

  ghost predicate AllDigits(s: Text) {
    forall i :: 0 <= i < |s| ==> IsDigit(s[i])
  }

  /** Digits, with or without a comma behind them, more digits, and the rest. */
  lemma CoordOf(d: Text, w: Text, e: Text, rest: Text)
    requires d != [] && AllDigits(d) && (w != [] ==> !IsDigit(w[0]))
    requires DropComma(w) == e + rest && AllDigits(e)
    ensures ReadCoord(d + w).Some? && |ReadCoord(d + w).value.rest| <= |rest|
    ensures (rest != [] ==> !IsDigit(rest[0])) ==> ReadCoord(d + w) == Some(Coord(d, e, rest))
  {
    FrontDigits(d, w);
    FrontDigits(e, rest);
    hide DigitLen, DropComma, AllDigits, IsDigit;
  }

  lemma FrontDigits(d: Text, w: Text)
    requires AllDigits(d)
    ensures var s := d + w;
            && s[..|d|] == d && s[|d|..] == w && |d| <= DigitLen(s)
            && ((w != [] ==> !IsDigit(w[0])) ==> DigitLen(s) == |d|)
  {
    hide DigitLen, IsDigit;
    var s := d + w;
    assert forall i :: 0 <= i < |d| ==> s[i] == d[i];
    DigitLenAtLeast(s, |d|);
    if w != [] ==> !IsDigit(w[0]) {
      DigitLenIs(s, |d|);
    }
  }

  lemma DigitsBetween(s: Text, i: nat, j: nat)
    requires i <= j <= |s| && forall k :: i <= k < j ==> IsDigit(s[k])
    ensures AllDigits(s[i..j])
  {
  }

  lemma SliceJoined(s: Text, a: nat, b: nat, c: nat)
    requires a <= b <= c <= |s|
    ensures s[a..c] == s[a..b] + s[b..c] && (b < c ==> s[b..c][0] == s[b])
  {
  }

  /** What is left after the digits s[t0..t], the comma and the digits that follow. */
  lemma CoordIs(s: Text, t0: nat, t: nat, u: nat, v: nat, end: nat)
    requires Ends(s, end) && t0 < t <= u <= v <= end
    requires (forall i :: t0 <= i < t ==> IsDigit(s[i])) && !IsDigit(Char(s, t))
    requires u == if Char(s, t) == COMMA then t + 1 else t
    requires (forall i :: u <= i < v ==> IsDigit(s[i]))
    ensures ReadCoord(s[t0..end]).Some? && |ReadCoord(s[t0..end]).value.rest| <= end - v
    ensures !IsDigit(Char(s, v)) ==> ReadCoord(s[t0..end]) == Some(Coord(s[t0..t], s[u..v], s[v..end]))
  {
    hide ReadCoord, DropComma, AllDigits, IsDigit;
    DigitsBetween(s, t0, t);
    DigitsBetween(s, u, v);
    SliceJoined(s, t0, t, end);
    SliceJoined(s, u, v, end);
    CommaDropped(s, t, u, end);
    CoordOf(s[t0..t], s[t..end], s[u..v], s[v..end]);
  }

  lemma CommaDropped(s: Text, t: nat, u: nat, end: nat)
    requires Ends(s, end) && t <= u <= end && u == if Char(s, t) == COMMA then t + 1 else t
    ensures DropComma(s[t..end]) == s[u..end]
  {
    if u == t + 1 {
      assert s[t..end][1..] == s[u..end];
    }
  }

  /** The first pair of numbers; stops for good when no characters are left for the second pair. */
  method FirstCoord(s: Text, t0: nat, end: nat, l0: nat) returns (start: Text, length: Text, t: nat, l: nat)
    requires Ends(s, end) && t0 < end && IsDigit(s[t0]) && 0 < l0 < SIZE_T
    ensures ReadCoord(s[t0..end]).Some? && t0 <= t
    ensures l > 0 ==> t <= end && l == l0 - (t - t0) && ReadCoord(s[t0..end]).value == Coord(start, length, s[t..end])
    ensures l == 0 ==> |ReadCoord(s[t0..end]).value.rest| + l0 <= end - t0
  {
    hide ReadCoord, DigitLen;
    start, length, t, l := [], [], t0, l0;
    var more := true;
    while more
      invariant t0 <= t <= end && (more ==> t < end && IsDigit(s[t]))
      invariant more || l > 0 ==> l == l0 - (t - t0) > 0 && start == s[t0..t]
      invariant !more && l == 0 ==> t < end && l0 == t + 1 - t0 && start == s[t0..t + 1]
      invariant forall i :: t0 <= i < t ==> IsDigit(s[i])
      invariant !more ==> t0 < t || l == 0
      invariant !more && l > 0 ==> !IsDigit(Char(s, t))
      invariant !more && l == 0 ==> IsDigit(s[t])
      decreases more, end - t
    {
      start, l, more := start + [s[t]], Less(l), false;
      if l > 0 {
        t := t + 1;
        more := IsDigit(Char(s, t));
      }
    }
    if l == 0 {
      DigitsConsumed(s, t0, t + 1, end);
      return;
    }
    ghost var afterDigits := t;
    if Char(s, t) == COMMA {
      t, l := t + 1, Less(l);
    }
    ghost var u := t;
    while l > 0 && IsDigit(Char(s, t))
      invariant u <= t <= end && l == l0 - (t - t0) && length == s[u..t]
      invariant forall i :: u <= i < t ==> IsDigit(s[i])
      decreases l
    {
      l, length, t := Less(l), length + [Char(s, t)], t + 1;
    }
    CoordIs(s, t0, afterDigits, u, t, end);
  }

  lemma DigitsConsumed(s: Text, t0: nat, t: nat, end: nat)
    requires Ends(s, end) && t0 < t <= end && forall i :: t0 <= i < t ==> IsDigit(s[i])
    ensures ReadCoord(s[t0..end]).Some? && |ReadCoord(s[t0..end]).value.rest| <= end - t
  {
    DigitLenAtLeast(s[t0..end], t - t0);
  }

  /** The second pair of numbers. */
  method SecondCoord(s: Text, t0: nat, end: nat, l0: nat) returns (start: Text, length: Text, t: nat, l: nat)
    requires Ends(s, end) && t0 < end && IsDigit(s[t0]) && 0 < l0 < SIZE_T
    ensures ReadCoord(s[t0..end]).Some? && t0 < t <= end && l == Unsigned(l0 - (t - t0))
    ensures ReadCoord(s[t0..end]).value == Coord(start, length, s[t..end])
            || (l == 0 && Char(s, t) != SPACE && |ReadCoord(s[t0..end]).value.rest| < end - t)
  {
    hide ReadCoord, DigitLen;
    start, length, t, l := [], [], t0, l0;
    var more := true;
    while more
      invariant t0 <= t <= end && (more ==> t < end && IsDigit(s[t])) && start == s[t0..t]
      invariant l == Unsigned(l0 - (t - t0))
      invariant forall i :: t0 <= i < t ==> IsDigit(s[i])
      invariant !more ==> t0 < t && !IsDigit(Char(s, t))
      decreases more, end - t
    {
      start, l := start + [s[t]], Less(l);
      t := t + 1;
      more := IsDigit(Char(s, t));
    }
    ghost var afterDigits := t;
    if l > 0 && Char(s, t) == COMMA {
      t, l := t + 1, Less(l);
    }
    ghost var u := t;
    while l > 0 && IsDigit(Char(s, t))
      invariant u <= t <= end && l == Unsigned(l0 - (t - t0)) && length == s[u..t]
      invariant forall i :: u <= i < t ==> IsDigit(s[i])
      decreases end - t
    {
      l, length, t := Less(l), length + [Char(s, t)], t + 1;
    }
    if u == afterDigits && Char(s, afterDigits) == COMMA {
      CoordIs(s, t0, afterDigits, afterDigits + 1, afterDigits + 1, end);
    } else {
      CoordIs(s, t0, afterDigits, u, t, end);
      if IsDigit(Char(s, t)) {
        CoordIs(s, t0, afterDigits, u, t + 1, end);
      }
    }
  }

  // ----- the whole line -----

  /** A line that matches has at least a digit in each pair of numbers. */
  lemma MatchLength(line: Text)
    ensures Match(line).Some? ==> 11 <= |line|
    ensures OPENING <= line && ReadCoord(line[4..]).Some? && |ReadCoord(line[4..]).value.rest| < 6 ==> Match(line).None?
  {
    hide DigitLen;
    if OPENING <= line {
      CoordLength(line[4..]);
      var a := ReadCoord(line[4..]);
      if a.Some? && MIDDLE <= a.value.rest {
        CoordLength(a.value.rest[2..]);
      }
    }
  }

  lemma CoordLength(s: Text)
    ensures ReadCoord(s).Some? ==> |ReadCoord(s).value.rest| < |s|
    ensures ReadCoord(s).Some? <==> s != [] && IsDigit(s[0])
  {
    if s != [] && IsDigit(s[0]) {
      DigitLenAtLeast(s, 1);
    }
  }

  lemma OpeningIs(s: Text, text: nat, end: nat)
    requires Ends(s, end) && text <= end
    ensures var opens := Char(s, text) == AT && Char(s, text + 1) == AT && Char(s, text + 2) == SPACE
                         && Char(s, text + 3) == MINUS && IsDigit(Char(s, text + 4));
            if opens then text + 4 < end && OPENING <= s[text..end] && s[text..end][4..] == s[text + 4..end]
            else Match(s[text..end]).None?
  {
    var line := s[text..end];
    if OPENING <= line {
      CoordLength(line[4..]);
      assert line[0] == s[text] && line[1] == s[text + 1] && line[2] == s[text + 2] && line[3] == s[text + 3];
      if |line| > 4 {
        assert line[4..][0] == s[text + 4];
      }
    }
    if Char(s, text) == AT && Char(s, text + 1) == AT && Char(s, text + 2) == SPACE && Char(s, text + 3) == MINUS
       && IsDigit(Char(s, text + 4))
    {
      assert line[..4] == OPENING;
    }
  }

  lemma MiddleIs(s: Text, t: nat, end: nat)
    requires Ends(s, end) && t <= end
    ensures var goes := Char(s, t) == SPACE && Char(s, t + 1) == PLUS_SIGN && IsDigit(Char(s, t + 2));
            if goes then t + 2 < end && MIDDLE <= s[t..end] && s[t..end][2..] == s[t + 2..end]
            else !(MIDDLE <= s[t..end]) || ReadCoord(s[t..end][2..]).None?
  {
    var rest := s[t..end];
    if MIDDLE <= rest {
      CoordLength(rest[2..]);
      assert rest[0] == s[t] && rest[1] == s[t + 1];
      if |rest| > 2 {
        assert rest[2..][0] == s[t + 2];
      }
    }
    if Char(s, t) == SPACE && Char(s, t + 1) == PLUS_SIGN && IsDigit(Char(s, t + 2)) {
      assert rest[..2] == MIDDLE;
    }
  }

  lemma ClosingIs(s: Text, t: nat, end: nat)
    requires Ends(s, end) && t <= end
    ensures s[t..end] == CLOSING
            <==> end - t == 3 && Char(s, t) == SPACE && Char(s, t + 1) == AT && Char(s, t + 2) == AT
  {
    var rest := s[t..end];
    if |rest| == 3 {
      assert rest[0] == s[t] && rest[1] == s[t + 1] && rest[2] == s[t + 2];
    }
  }

  /** The header matcher of patch_fromText, with its unsigned count of the characters left. */
  method ParseHeader(s: Text, text: nat, textLen: nat) returns (r: Option<Fields>)
    requires Ends(s, text + textLen)
    ensures r == Match(s[text..text + textLen])
  {
    hide ReadCoord, IsDigit;
    ghost var end, line := text + textLen, s[text..text + textLen];
    MatchLength(line);
    var l := Unsigned(textLen - 9);
    OpeningIs(s, text, end);
    if !(l > 0 && Char(s, text) == AT && Char(s, text + 1) == AT && Char(s, text + 2) == SPACE
         && Char(s, text + 3) == MINUS && IsDigit(Char(s, text + 4)))
    {
      return None;
    }
    var t := text + 4;
    var start1, length1, start2, length2;
    start1, length1, t, l := FirstCoord(s, t, text + textLen, l);
    MiddleIs(s, if t <= end then t else end, end);
    if !(l > 0 && Char(s, t) == SPACE && Char(s, t + 1) == PLUS_SIGN && IsDigit(Char(s, t + 2))) {
      return None;
    }
    t := t + 2;
    start2, length2, t, l := SecondCoord(s, t, text + textLen, l);
    ClosingIs(s, t, end);
    if l == 0 && Char(s, t) == SPACE && Char(s, t + 1) == AT && Char(s, t + 2) == AT {
      return Some(Fields(start1, length1, start2, length2));
    }
    return None;
  }
}
