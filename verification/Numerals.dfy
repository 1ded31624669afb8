/** Decimal numbers in the text formats. */
module Numerals {
  import opened DiffList

  const INT_MAX := 0x7FFF_FFFF

  const MINUS: Char16 := 45

  predicate IsDigit(c: int) { 48 <= c <= 57 }

  /** iswspace, for ASCII. */
  predicate IsSpace(c: int) { 9 <= c <= 13 || c == 32 }

  function Digits(n: nat): (s: Text)
    ensures s != []
    ensures forall i :: 0 <= i < |s| ==> IsDigit(s[i])
  {
    if n < 10 then [48 + n] else Digits(n / 10) + [48 + n % 10]
  }

  function Decimal(n: int): Text {
    if n < 0 then [MINUS] + Digits(-n) else Digits(n)
  }

  /** The digits that are left of the ones written. */
  ghost function Front(m: nat): Text {
    if m == 0 then [] else Digits(m)
  }

  lemma FrontStep(m: nat)
    ensures Digits(m) == Front(m / 10) + [48 + m % 10]
  {
  }

  lemma Moved(front: Text, c: Char16, tail: Text)
    ensures (front + [c]) + tail == front + ([c] + tail)
  {
  }

  /** The first loop of to_string. */
  method CountDigits(n: nat) returns (l: nat)
    ensures l == |Digits(n)|
  {
    hide Digits;
    l := 1;
    var m: nat := n / 10;
    FrontStep(n);
    while m > 0
      invariant l + |Front(m)| == |Digits(n)|
    {
      FrontStep(m);
      l, m := l + 1, m / 10;
    }
  }

  /** The second loop of to_string: the digits are filled in from the right. */
  method FillDigits(a: array<Char16>, n: nat) returns (s: nat)
    requires |Digits(n)| <= a.Length
    modifies a
    ensures s == a.Length - |Digits(n)| && a[s..] == Digits(n)
  {
    hide Digits;
    FrontStep(n);
    s := a.Length - 1;
    a[s] := 48 + n % 10;
    assert a[s..] == [48 + n % 10];
    var m: nat := n / 10;
    while m > 0
      invariant s + |Digits(n)| == a.Length + |Front(m)| && s < a.Length
      invariant Digits(n) == Front(m) + a[s..]
    {
      FrontStep(m);
      ghost var tail := a[s..];
      s := s - 1;
      a[s] := 48 + m % 10;
      assert a[s + 1..] == tail && a[s..] == [48 + m % 10] + tail;
      Moved(Front(m / 10), 48 + m % 10, tail);
      m := m / 10;
    }
  }

  /** to_string */
  method ToString(n: int) returns (str: Text)
    requires -INT_MAX <= n <= INT_MAX
    ensures str == Decimal(n)
  {
    hide Digits;
    var m := if n < 0 then -n else n;
    var l := CountDigits(m);
    var a := new Char16[if n < 0 then l + 1 else l];
    var s := FillDigits(a, m);
    if n < 0 {
      a[0] := MINUS;
      assert a[..] == [MINUS] + a[1..];
    } else {
      assert a[0..] == a[..];
    }
    str := a[..];
  }

  // ----- reading -----

  /** The digits at the front of a text, continuing the number acc. */
  function Number(s: Text, acc: nat): nat {
    if s != [] && IsDigit(s[0]) then Number(s[1..], acc * 10 + (s[0] as int - 48)) else acc
  }

  function Skip(s: Text): Text {
    if s != [] && IsSpace(s[0]) then Skip(s[1..]) else s
  }

  /** wcstol to base 10: white space, a sign, digits; too large a value is cut off. */
  function ToInt(s: Text): (n: int)
    ensures -INT_MAX - 1 <= n <= INT_MAX
  {
    var t := Skip(s);
    if t != [] && t[0] == MINUS then
      var n := Number(t[1..], 0);
      if n > INT_MAX then -INT_MAX - 1 else -(n as int)
    else
      var n := Number(if t != [] && t[0] == 43 then t[1..] else t, 0);
      if n > INT_MAX then INT_MAX else n
  }

  lemma {:induction false} NumberSnoc(s: Text, c: Char16, acc: nat)
    requires IsDigit(c) && forall i :: 0 <= i < |s| ==> IsDigit(s[i])
    ensures Number(s + [c], acc) == Number(s, acc) * 10 + (c as int - 48)
    decreases |s|
  {
    if s == [] {
      assert [c][1..] == [];
    } else {
      NumberSnoc(s[1..], c, acc * 10 + (s[0] as int - 48));
      assert (s + [c])[1..] == s[1..] + [c];
    }
  }

  lemma {:induction false} NumberDigits(n: nat)
    ensures Number(Digits(n), 0) == n
  {
    if n >= 10 {
      NumberDigits(n / 10);
      NumberSnoc(Digits(n / 10), 48 + n % 10, 0);
    } else {
      assert [48 + n][1..] == [];
    }
  }

  lemma ToIntDigits(n: nat)
    requires n <= INT_MAX
    ensures ToInt(Digits(n)) == n
  {
    NumberDigits(n);
    hide Digits, Number;
  }
}
