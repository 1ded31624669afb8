/** Percent coding of the text formats: UTF-16 to UTF-8 to escaped text, and back in place. */
module TextCoding {
  import opened Helpers
  import opened DiffList
  import opened Options

  const PERCENT: Char16 := 37

  // ----- UTF-16 -----

  predicate High(c: int) { 0xD800 <= c <= 0xDBFF }

  predicate Low(c: int) { 0xDC00 <= c <= 0xDFFF }

  /** How many units the next code point takes: a high surrogate that is not the last unit is taken
      together with whatever follows it. */
  function Units(s: Text): (k: nat)
    requires s != []
    ensures 1 <= k <= 2 && k <= |s|
  {
    if High(s[0]) && |s| > 1 then 2 else 1
  }

  /** to_utf32 */
  function CodePoint(s: Text): (u: nat)
    requires s != []
    ensures u < 0x20_0000
  {
    var c: int := s[0];
    if Units(s) == 2 then c * 0x400 + (s[1] as int) - 0x35F_DC00 else c
  }

  /** from_utf32 */
  function FromCodePoint(u: nat): (s: Text)
    requires u < 0x20_0000
    ensures 1 <= |s| <= 2 && (|s| == 2 <==> u > 0xFFFF)
  {
    if u > 0xFFFF then [(u / 0x400 + 0xD800 - 0x40) % 0x1_0000, u % 0x400 + 0xDC00] else [u]
  }

  /** Every high surrogate, except one at the very end, starts a pair. */
  ghost predicate Paired(s: Text) {
    if s == [] then true
    else if Units(s) == 2 then Low(s[1]) && Paired(s[2..])
    else Paired(s[1..])
  }

  /** Parts of a paired text are paired, even where the cut goes through a pair. */
  lemma {:induction false} PairedParts(x: Text, y: Text)
    requires Paired(x + y)
    ensures Paired(x) && Paired(y)
    decreases |x|
  {
    var all := x + y;
    if x == [] {
      assert all == y;
    } else if Units(all) == 2 && |x| == 1 {
      assert all[2..] == y[1..] && all[1] == y[0];
    } else {
      var k := Units(all);
      assert all[k..] == x[k..] + y;
      PairedParts(x[k..], y);
    }
  }

  /** What decoding makes of a text. */
  ghost function Normalized(s: Text): (r: Text)
    ensures |r| <= |s|
  {
    if s == [] then [] else FromCodePoint(CodePoint(s)) + Normalized(s[Units(s)..])
  }

  /** A text survives exactly when its surrogates are paired. */
  lemma {:induction false} NormalizedIff(s: Text)
    ensures Normalized(s) == s <==> Paired(s)
    decreases |s|
  {
    if s != [] {
      var k, u := Units(s), CodePoint(s);
      var first, rest := FromCodePoint(u), Normalized(s[k..]);
      NormalizedIff(s[k..]);
      assert s == s[..k] + s[k..];
      if |first| < k {
        assert |Normalized(s)| < |s|;
      } else if first == s[..k] {
        SameFront(first, rest, s[k..]);
      } else {
        assert Normalized(s)[..k] == first;
      }
      PairSurvives(s);
    }
  }

  /** The first code point comes back as it was, unless it is a high surrogate with a wrong partner. */
  lemma PairSurvives(s: Text)
    requires s != []
    ensures FromCodePoint(CodePoint(s)) == s[..Units(s)] <==> (Units(s) == 2 ==> Low(s[1]))
  {
    if Units(s) == 2 {
      var u, h: int, d: int := CodePoint(s), s[0], s[1];
      assert u == (h - 0xD800 + 0x40) * 0x400 + d - 0xDC00;
      assert s[..2] == [s[0], s[1]];
      if Low(s[1]) {
        assert u / 0x400 == h - 0xD800 + 0x40;
      }
    } else {
      assert s[..1] == [s[0]];
    }
  }

  // ----- UTF-8 -----

  function Utf8(u: nat): (s: Text)
    requires u < 0x20_0000
    ensures 1 <= |s| <= 4 && forall i :: 0 <= i < |s| ==> s[i] < 0x100
  {
    if u < 0x80 then [u]
    else if u < 0x800 then [u / 0x40 + 0xC0, u % 0x40 + 0x80]
    else if u < 0x1_0000 then [u / 0x1000 + 0xE0, u / 0x40 % 0x40 + 0x80, u % 0x40 + 0x80]
    else [u / 0x4_0000 + 0xF0, u / 0x1000 % 0x40 + 0x80, u / 0x40 % 0x40 + 0x80, u % 0x40 + 0x80]
  }

  ghost function Utf8All(s: Text): Text {
    if s == [] then [] else Utf8(CodePoint(s)) + Utf8All(s[Units(s)..])
  }

  /** A continuation byte, as the decoder tests it. */
  predicate Continues(s: Text, i: nat) {
    i < |s| && s[i] / 0x40 % 4 == 2
  }

  /** The length of the UTF-8 sequence that a unit announces; 0 if none. */
  function Announced(c: Char16): (n: nat)
    ensures n <= 4
  {
    if c < 0x80 then 1 else if c / 0x20 == 6 then 2 else if c / 0x10 == 0xE then 3 else if c / 8 == 0x1E then 4 else 0
  }

  /** The payload of a continuation byte. */
  function Six(c: int): (d: nat)
    ensures d < 0x40
  {
    c % 0x40
  }

  /** The code point of a complete sequence of n units. */
  function Assembled(s: Text, n: nat): (u: nat)
    requires 1 <= n <= |s| && n == Announced(s[0])
    ensures u < 0x20_0000 && (n < 4 ==> u <= 0xFFFF)
  {
    var c: int := s[0];
    if n == 1 then c
    else if n == 2 then c % 0x20 * 0x40 + Six(s[1])
    else if n == 3 then c % 0x10 * 0x1000 + Six(s[1]) * 0x40 + Six(s[2])
    else c % 8 * 0x4_0000 + Six(s[1]) * 0x1000 + Six(s[2]) * 0x40 + Six(s[3])
  }

  /** How many units of the announced sequence are there; a broken one stops at the unit that breaks it. */
  function Present(s: Text): (k: nat)
    requires s != []
    ensures 1 <= k <= |s| && k <= 4
    ensures Announced(s[0]) > 0 ==> k <= Announced(s[0])
  {
    var n := Announced(s[0]);
    if n < 2 || !Continues(s, 1) then 1
    else if n < 3 || !Continues(s, 2) then 2
    else if n < 4 || !Continues(s, 3) then 3
    else 4
  }

  /** The second pass of the decoder: broken sequences are dropped. */
  ghost function Utf8Decode(s: Text): Text {
    if s == [] then []
    else
      var k := Present(s);
      (if k == Announced(s[0]) then FromCodePoint(Assembled(s, k)) else []) + Utf8Decode(s[k..])
  }

  lemma Utf8RoundTrip(u: nat, rest: Text)
    requires u < 0x20_0000
    ensures Utf8Decode(Utf8(u) + rest) == FromCodePoint(u) + Utf8Decode(rest)
  {
    var bytes := Utf8(u);
    var s := bytes + rest;
    Utf8Shape(u, rest);
    assert s[|bytes|..] == rest;
  }

  lemma Utf8Shape(u: nat, rest: Text)
    requires u < 0x20_0000
    ensures var s := Utf8(u) + rest;
            Announced(s[0]) == Present(s) == |Utf8(u)| && Assembled(s, |Utf8(u)|) == u
  {
    var a := u / 0x40;
    var b := a / 0x40;
    var c := b / 0x40;
    var s := Utf8(u) + rest;
    if u < 0x80 {
      assert s[0] == u;
    } else if u < 0x800 {
      Continuation(s, 1, u);
      LeadByte(a, 0xC0);
    } else if u < 0x1_0000 {
      assert u / 0x1000 == b;
      Continuation(s, 1, a);
      Continuation(s, 2, u);
      LeadByte(b, 0xE0);
    } else {
      assert u / 0x1000 == b && u / 0x4_0000 == c;
      Continuation(s, 1, b);
      Continuation(s, 2, a);
      Continuation(s, 3, u);
      LeadByte(c, 0xF0);
    }
  }

  lemma Continuation(s: Text, i: nat, v: nat)
    requires i < |s| && s[i] as int == v % 0x40 + 0x80
    ensures Continues(s, i) && Six(s[i]) == v % 0x40
  {
    var c: int := s[i];
    assert c == 2 * 0x40 + v % 0x40;
  }

  /** The lead byte announces its sequence and carries its payload. */
  lemma LeadByte(v: nat, mark: nat)
    requires (mark == 0xC0 && v < 0x20) || (mark == 0xE0 && v < 0x10) || (mark == 0xF0 && v < 8)
    ensures Announced(v + mark) == if mark == 0xC0 then 2 else if mark == 0xE0 then 3 else 4
    ensures (v + mark) % (if mark == 0xC0 then 0x20 else if mark == 0xE0 then 0x10 else 8) == v
  {
  }

  lemma {:induction false} DecodeUtf8All(s: Text)
    ensures Utf8Decode(Utf8All(s)) == Normalized(s)
    decreases |s|
  {
    hide CodePoint, FromCodePoint, Utf8, Utf8Decode;
    if s == [] {
      EmptyDecode();
    } else {
      DecodeUtf8All(s[Units(s)..]);
      Utf8RoundTrip(CodePoint(s), Utf8All(s[Units(s)..]));
    }
  }

  lemma EmptyDecode()
    ensures Utf8Decode([]) == [] && Unescape([]) == Some([])
  {
  }

  // ----- escapes -----

  /** Characters written as they are; the table of the source includes its closing NUL. */
  predicate Safe(b: int) {
    || b == 0 || 32 <= b <= 33 || 35 <= b <= 36 || 38 <= b <= 59 || b == 61 || 63 <= b <= 90 || b == 95
    || 97 <= b <= 122 || b == 126
  }

  function HexDigit(d: nat): Char16
    requires d < 16
  {
    if d < 10 then 48 + d else 55 + d
  }

  function HexValue(c: Char16): Option<nat> {
    if 48 <= c <= 57 then Some(c - 48)
    else if 65 <= c <= 70 then Some(c - 55)
    else if 97 <= c <= 102 then Some(c - 87)
    else None
  }

  function Escape(b: Char16): (s: Text)
    requires b < 0x100
    ensures |s| == 1 || |s| == 3
  {
    if Safe(b) then [b] else [PERCENT, HexDigit(b / 16), HexDigit(b % 16)]
  }

  function EscapeAll(bytes: Text): Text
    requires forall i :: 0 <= i < |bytes| ==> bytes[i] < 0x100
  {
    if bytes == [] then [] else Escape(bytes[0]) + EscapeAll(bytes[1..])
  }

  /** The escaped form of a text. */
  ghost function Encode(s: Text): Text {
    if s == [] then [] else EscapeAll(Utf8(CodePoint(s))) + Encode(s[Units(s)..])
  }

  /** A text in ASCII. */
  function Chars(s: string): (t: Text)
    requires forall i :: 0 <= i < |s| ==> s[i] < '\U{80}'
    ensures |t| == |s|
  {
    seq(|s|, i requires 0 <= i < |s| => s[i] as int)
  }

  /** Letters, digits, blanks and the punctuation of the table are written as they are. */
  lemma {:induction false} EncodeSafe(s: Text)
    requires forall i :: 0 <= i < |s| ==> Safe(s[i])
    ensures Encode(s) == s
  {
    if s != [] {
      hide Encode, EscapeAll, Utf8, Safe, Units, CodePoint, Cost;
      EncodeSafe(s[1..]);
      SafeIsOne(s);
      CostIsLength(s[0]);
      EncodeFront(s);
      assert s == [s[0]] + s[1..];
    }
  }

  lemma SafeIsOne(s: Text)
    requires s != [] && Safe(s[0])
    ensures Units(s) == 1 && CodePoint(s) == s[0] && Cost(s[0]) == 1
  {
  }

  function Cons(c: Char16, rest: Option<Text>): Option<Text> {
    match rest
    case None => None
    case Some(s) => Some([c] + s)
  }

  /** The first pass of the decoder; None where it throws. */
  function Unescape(s: Text): Option<Text> {
    if s == [] then Some([])
    else if s[0] != PERCENT then Cons(s[0], Unescape(s[1..]))
    else if |s| < 3 || HexValue(s[1]).None? || HexValue(s[2]).None? then None
    else Cons(HexValue(s[1]).value * 16 + HexValue(s[2]).value, Unescape(s[3..]))
  }

  function Prepend(p: Text, rest: Option<Text>): Option<Text> {
    match rest
    case None => None
    case Some(s) => Some(p + s)
  }

  lemma {:induction false} UnescapeEscaped(bytes: Text, rest: Text)
    requires forall i :: 0 <= i < |bytes| ==> bytes[i] < 0x100
    ensures Unescape(EscapeAll(bytes) + rest) == Prepend(bytes, Unescape(rest))
    decreases |bytes|
  {
    if bytes == [] {
      assert [] + rest == rest;
      assert Unescape(rest).Some? ==> [] + Unescape(rest).value == Unescape(rest).value;
    } else {
      var b, tail := bytes[0], EscapeAll(bytes[1..]) + rest;
      UnescapeEscaped(bytes[1..], rest);
      assert EscapeAll(bytes) + rest == Escape(b) + tail;
      UnescapeOne(b, tail);
      hide Escape, Unescape;
      assert bytes == [b] + bytes[1..];
      PrependOne(b, bytes[1..], Unescape(rest));
    }
  }

  lemma PrependOne(b: Char16, p: Text, rest: Option<Text>)
    ensures Cons(b, Prepend(p, rest)) == Prepend([b] + p, rest)
  {
    if rest.Some? {
      assert [b] + (p + rest.value) == ([b] + p) + rest.value;
    }
  }

  lemma UnescapeOne(b: Char16, rest: Text)
    requires b < 0x100
    ensures Unescape(Escape(b) + rest) == Cons(b, Unescape(rest))
  {
    var s := Escape(b) + rest;
    assert s[|Escape(b)|..] == rest;
  }

  lemma {:induction false} UnescapeEncode(s: Text)
    ensures Unescape(Encode(s)) == Some(Utf8All(s))
    decreases |s|
  {
    hide CodePoint, Utf8, EscapeAll, Unescape;
    if s == [] {
      EmptyDecode();
    } else {
      UnescapeEncode(s[Units(s)..]);
      UnescapeEscaped(Utf8(CodePoint(s)), Encode(s[Units(s)..]));
    }
  }

  /** What the decoder makes of a text; None where it throws. */
  ghost function Decode(s: Text): Option<Text> {
    match Unescape(s)
    case None => None
    case Some(t) => Some(Utf8Decode(t))
  }

  /** Coding and decoding: every text comes back whose surrogates are paired, and no other. */
  lemma DecodeEncode(s: Text)
    ensures Decode(Encode(s)) == Some(Normalized(s))
    ensures Decode(Encode(s)) == Some(s) <==> Paired(s)
  {
    hide Encode, Unescape, Utf8Decode, Utf8All, Normalized, Paired;
    UnescapeEncode(s);
    DecodeUtf8All(s);
    NormalizedIff(s);
  }

  /** Escaped text is plain ASCII without separators. */
  ghost predicate Plain(s: Text) {
    forall i :: 0 <= i < |s| ==> Safe(s[i]) || s[i] == PERCENT
  }

  lemma {:induction false} EscapeAllPlain(bytes: Text)
    requires forall i :: 0 <= i < |bytes| ==> bytes[i] < 0x100
    ensures Plain(EscapeAll(bytes))
  {
    if bytes != [] {
      EscapeAllPlain(bytes[1..]);
      assert Plain(Escape(bytes[0]));
    }
  }

  lemma {:induction false} EncodePlain(s: Text)
    ensures Plain(Encode(s))
    decreases |s|
  {
    if s != [] {
      hide EscapeAll, CodePoint, Utf8, Safe;
      EncodePlain(s[Units(s)..]);
      EscapeAllPlain(Utf8(CodePoint(s)));
    }
  }

  // ----- the coder -----

  /** Characters that a code point adds to the escaped form, as the source counts them. */
  function Cost(u: nat): nat
    requires u < 0x20_0000
  {
    if u >= 0x1_0000 then 12 else if u >= 0x800 then 9 else if u >= 0x80 then 6 else if Safe(u) then 1 else 3
  }

  lemma {:induction false} EscapeAllLength(bytes: Text)
    requires forall i :: 0 <= i < |bytes| ==> 0x80 <= bytes[i] < 0x100
    ensures |EscapeAll(bytes)| == 3 * |bytes|
  {
    if bytes != [] {
      EscapeAllLength(bytes[1..]);
    }
  }

  lemma CostIsLength(u: nat)
    requires u < 0x20_0000
    ensures |EscapeAll(Utf8(u))| == Cost(u)
    ensures Cost(u) == 1 ==> u < 0x80 && EscapeAll(Utf8(u)) == [u]
  {
    if u < 0x80 {
      assert Utf8(u)[1..] == [];
    } else {
      EscapeAllLength(Utf8(u));
    }
  }

  /** A code point never costs less than its units; equal only for safe characters. */
  lemma CostAtLeast(s: Text)
    requires s != []
    ensures Units(s) <= Cost(CodePoint(s))
    ensures Units(s) == Cost(CodePoint(s)) ==> EscapeAll(Utf8(CodePoint(s))) == s[..Units(s)]
  {
    CostIsLength(CodePoint(s));
    if Cost(CodePoint(s)) == 1 {
      assert s[..1] == [s[0]];
    }
  }

  lemma JoinedLengths(x: Text, y: Text, p: Text, q: Text)
    requires |x| <= |p| && (|x| == |p| ==> p == x) && |y| <= |q| && (|y| == |q| ==> q == y)
    ensures |x + y| <= |p + q| && (|x + y| == |p + q| ==> p + q == x + y)
  {
  }

  lemma {:induction false} EncodeLength(s: Text)
    ensures |s| <= |Encode(s)|
    ensures |s| == |Encode(s)| ==> Encode(s) == s
    decreases |s|
  {
    if s != [] {
      EncodeFront(s);
      hide Encode, Units, EscapeAll, Utf8, CodePoint;
      var k := Units(s);
      EncodeLength(s[k..]);
      JoinedLengths(s[..k], s[k..], EscapeAll(Utf8(CodePoint(s))), Encode(s[k..]));
      assert s == s[..k] + s[k..];
    }
  }

  /** The code of the first code point, and the code of the rest. */
  lemma EncodeFront(s: Text)
    requires s != []
    ensures Encode([]) == []
    ensures var k, first := Units(s), EscapeAll(Utf8(CodePoint(s)));
            && 0 < k <= |s| && Encode(s) == first + Encode(s[k..])
            && k <= |first| && (k == |first| ==> first == s[..k])
  {
    hide EscapeAll, Utf8, CodePoint, Cost;
    CostAtLeast(s);
    CostIsLength(CodePoint(s));
  }

  /** Escapes the bytes of one code point, as the inner loop does. */
  method AppendEscaped(s1: Text, bytes: Text) returns (r: Text)
    requires forall i :: 0 <= i < |bytes| ==> bytes[i] < 0x100
    ensures r == s1 + EscapeAll(bytes)
  {
    hide EscapeAll, Escape;
    r := s1;
    EscapeAllStep(r, bytes, 0);
    for i := 0 to |bytes|
      invariant r + EscapeAll(bytes[i..]) == s1 + EscapeAll(bytes)
    {
      EscapeAllStep(r, bytes, i);
      if Safe(bytes[i]) {
        r := r + [bytes[i]];
      } else {
        r := r + [PERCENT] + [HexDigit(bytes[i] / 16)] + [HexDigit(bytes[i] % 16)];
      }
    }
    EscapeAllStep(r, bytes, |bytes|);
  }

  lemma EscapeAllStep(r: Text, bytes: Text, i: nat)
    requires i <= |bytes| && forall j :: 0 <= j < |bytes| ==> bytes[j] < 0x100
    ensures bytes[0..] == bytes
    ensures i == |bytes| ==> r + EscapeAll(bytes[i..]) == r
    ensures i < |bytes| ==> r + EscapeAll(bytes[i..])
                            == (if Safe(bytes[i]) then r + [bytes[i]]
                                else r + [PERCENT] + [HexDigit(bytes[i] / 16)] + [HexDigit(bytes[i] % 16)])
                               + EscapeAll(bytes[i + 1..])
  {
    hide Safe, HexDigit;
    if i < |bytes| {
      assert bytes[i..][1..] == bytes[i + 1..];
    }
  }

  /** append_percent_encoded: appends the text as it is if every character is safe. */
  method AppendPercentEncoded(s1: Text, s2: Text) returns (r: Text)
    ensures r == s1 + Encode(s2)
  {
    hide EscapeAll, Utf8, CodePoint, Cost;
    var n, c := 0, 0;
    while c < |s2|
      invariant 0 <= c <= |s2| && n + |Encode(s2[c..])| == |Encode(s2)|
    {
      var rest := s2[c..];
      CostIsLength(CodePoint(rest));
      n := n + Cost(CodePoint(rest));
      assert rest[Units(rest)..] == s2[c + Units(rest)..];
      c := c + Units(rest);
    }
    if n == |s2| {
      EncodeLength(s2);
      return s1 + s2;
    }
    r, c := s1, 0;
    while c < |s2|
      invariant 0 <= c <= |s2| && r + Encode(s2[c..]) == s1 + Encode(s2)
    {
      var rest := s2[c..];
      var utf8 := Utf8(CodePoint(rest));
      ghost var next := Encode(rest[Units(rest)..]);
      assert r + (EscapeAll(utf8) + next) == (r + EscapeAll(utf8)) + next;
      r := AppendEscaped(r, utf8);
      assert rest[Units(rest)..] == s2[c + Units(rest)..];
      c := c + Units(rest);
    }
  }

  // ----- the decoder, in place -----

  lemma PrependSnoc(p: Text, c: Char16, rest: Option<Text>)
    ensures Prepend(p + [c], rest) == Prepend(p, Cons(c, rest))
  {
    if rest.Some? {
      assert (p + [c]) + rest.value == p + ([c] + rest.value);
    }
  }

  /** Where the first pass stands: p is written, and `from` is still to be read. */
  ghost predicate Unescaping(whole: Text, p: Text, from: nat) {
    from <= |whole| && Unescape(whole) == Prepend(p, Unescape(whole[from..]))
  }

  lemma UnescapeStep(whole: Text, p: Text, from: nat)
    requires Unescaping(whole, p, from) && from < |whole|
    ensures whole[from] != PERCENT ==> Unescaping(whole, p + [whole[from]], from + 1)
    ensures whole[from] == PERCENT ==>
              if |whole| - from < 3 || HexValue(whole[from + 1]).None? || HexValue(whole[from + 2]).None?
              then Unescape(whole).None?
              else Unescaping(whole, p + [HexValue(whole[from + 1]).value * 16 + HexValue(whole[from + 2]).value], from + 3)
  {
    var rest := whole[from..];
    hide HexValue;
    if whole[from] != PERCENT {
      PrependSnoc(p, whole[from], Unescape(whole[from + 1..]));
      assert rest[1..] == whole[from + 1..];
    } else if |rest| >= 3 && HexValue(rest[1]).Some? && HexValue(rest[2]).Some? {
      var c := HexValue(rest[1]).value * 16 + HexValue(rest[2]).value;
      PrependSnoc(p, c, Unescape(whole[from + 3..]));
      assert rest[3..] == whole[from + 3..];
    }
  }

  lemma UnescapeEnds(whole: Text, p: Text)
    ensures Unescaping(whole, [], 0)
    ensures Unescaping(whole, p, |whole|) ==> Unescape(whole) == Some(p)
  {
    assert whole[0..] == whole && whole[|whole|..] == [];
    assert Unescape(whole).Some? ==> [] + Unescape(whole).value == Unescape(whole).value;
    assert p + [] == p;
  }

  /** The first pass: escapes become single units, written over what is already read. */
  method UnescapeInPlace(a: array<Char16>) returns (r: Option<nat>)
    modifies a
    ensures r.None? <==> Unescape(old(a[..])).None?
    ensures r.Some? ==> r.value <= a.Length && a[..r.value] == Unescape(old(a[..])).value
  {
    hide Unescape, Unescaping, HexValue;
    ghost var whole := a[..];
    var s1, s2 := 0, 0;
    UnescapeEnds(whole, []);
    while s1 != a.Length
      invariant 0 <= s2 <= s1 <= a.Length && a[s1..] == whole[s1..]
      invariant Unescaping(whole, a[..s2], s1)
      decreases a.Length - s1
    {
      UnescapeStep(whole, a[..s2], s1);
      ghost var p := a[..s2];
      assert a[s1] == whole[s1];
      if a[s1] != PERCENT {
        a[s2] := a[s1];
        s1, s2 := s1 + 1, s2 + 1;
      } else {
        if s1 + 2 >= a.Length {
          return None;
        }
        assert a[s1 + 1] == whole[s1 + 1] && a[s1 + 2] == whole[s1 + 2];
        var h, l := HexValue(a[s1 + 1]), HexValue(a[s1 + 2]);
        if h.None? || l.None? {
          return None;
        }
        HexBelow(a[s1 + 1]);
        HexBelow(a[s1 + 2]);
        a[s2] := h.value * 16 + l.value;
        s1, s2 := s1 + 3, s2 + 1;
      }
      assert a[..s2] == p + [a[s2 - 1]];
    }
    UnescapeEnds(whole, a[..s2]);
    r := Some(s2);
  }

  lemma HexBelow(c: Char16)
    ensures HexValue(c).Some? ==> HexValue(c).value < 16
  {
  }

  /** Reads one UTF-8 sequence before `end`; the cursor stops at a unit that breaks it. */
  method ReadSequence(a: array<Char16>, s3: nat, end: nat) returns (next: nat, u: Option<nat>)
    requires s3 < end <= a.Length
    ensures var rest := a[s3..end];
            && next == s3 + Present(rest)
            && u == if Present(rest) == Announced(rest[0]) then Some(Assembled(rest, Present(rest))) else None
  {
    ghost var rest := a[s3..end];
    var c: int := a[s3];
    u, next := None, s3 + 1;
    if c < 0x80 {
      u := Some(c);
    } else if c / 0x20 == 6 {
      if next == end || a[next] / 0x40 % 4 != 2 {
        return;
      }
      u, next := Some(c % 0x20 * 0x40 + Six(a[next])), next + 1;
    } else if c / 0x10 == 0xE {
      if next == end || a[next] / 0x40 % 4 != 2 {
        return;
      }
      var v := c % 0x10 * 0x1000 + Six(a[next]) * 0x40;
      next := next + 1;
      if next == end || a[next] / 0x40 % 4 != 2 {
        return;
      }
      u, next := Some(v + Six(a[next])), next + 1;
    } else if c / 8 == 0x1E {
      if next == end || a[next] / 0x40 % 4 != 2 {
        return;
      }
      var v := c % 8 * 0x4_0000 + Six(a[next]) * 0x1000;
      next := next + 1;
      if next == end || a[next] / 0x40 % 4 != 2 {
        return;
      }
      v := v + Six(a[next]) * 0x40;
      next := next + 1;
      if next == end || a[next] / 0x40 % 4 != 2 {
        return;
      }
      u, next := Some(v + Six(a[next])), next + 1;
    }
  }

  /** What is written so far and what is still to be read, as it stood at first, amount to the decoded text. */
  ghost predicate Decoding(whole: Text, done: Text, rest: Text, from: nat) {
    from <= |whole| && rest == whole[from..] && Utf8Decode(whole) == done + Utf8Decode(rest)
  }

  /** Reads one sequence and writes its units. */
  method DecodeSequence(a: array<Char16>, from: nat, at: nat, end: nat, ghost whole: Text) returns (s3: nat, s4: nat)
    requires at <= from < end <= a.Length && |whole| == end && Decoding(whole, a[..at], a[from..end], from)
    modifies a
    ensures from < s3 && s4 <= s3 <= end && Decoding(whole, a[..s4], a[s3..end], s3)
  {
    hide Utf8Decode, Present, Assembled, FromCodePoint;
    ghost var done, rest := a[..at], a[from..end];
    DecodeStep(rest, done);
    var u;
    s3, u := ReadSequence(a, from, end);
    s4 := at;
    assert rest[s3 - from..] == whole[s3..] == a[s3..end];
    if u.Some? {
      PresentCovers(rest);
      var units := FromCodePoint(u.value);
      ghost var before := a[..];
      s4 := WriteUnits(a, at, units);
      Spliced(before, a[..], at, units, s3, end);
      assert a[..][..s4] == a[..s4] && a[..][s3..end] == a[s3..end];
      assert before[..at] == done && before[s3..end] == whole[s3..];
    }
  }

  lemma Spliced(before: Text, after: Text, at: nat, units: Text, from: nat, end: nat)
    requires at + |units| <= from <= end <= |before|
    requires |after| == |before| && after[..at + |units|] == before[..at] + units
    requires after[at + |units|..] == before[at + |units|..]
    ensures after[from..end] == before[from..end]
  {
    var k := at + |units|;
    assert after[from..end] == after[k..][from - k..end - k] && before[from..end] == before[k..][from - k..end - k];
  }

  /** The second pass: decoded units are written behind each other, never past the cursor. */
  method DecodeUtf8InPlace(a: array<Char16>, end: nat) returns (s4: nat)
    requires end <= a.Length
    modifies a
    ensures s4 <= end && a[..s4] == Utf8Decode(old(a[..end]))
  {
    hide Utf8Decode;
    ghost var whole := a[..end];
    EmptyDecode();
    var s3 := 0;
    s4 := 0;
    assert whole[0..] == whole;
    while s3 != end
      invariant 0 <= s4 <= s3 <= end && Decoding(whole, a[..s4], a[s3..end], s3)
      decreases end - s3
    {
      s3, s4 := DecodeSequence(a, s3, s4, end, whole);
    }
    assert whole[end..] == [];
  }

  method WriteUnits(a: array<Char16>, at: nat, units: Text) returns (next: nat)
    requires at + |units| <= a.Length
    modifies a
    ensures next == at + |units| && a[..next] == old(a[..at]) + units && a[next..] == old(a[at + |units|..])
  {
    for i := 0 to |units|
      invariant a[..at + i] == old(a[..at]) + units[..i]
      invariant a[at + i..] == old(a[at + i..])
    {
      ghost var before := a[at + i..];
      a[at + i] := units[i];
      assert a[at + i + 1..] == before[1..] == old(a[at + i..])[1..];
      assert old(a[at + i..])[1..] == old(a[at + i + 1..]);
    }
    next := at + |units|;
  }

  lemma DecodeStep(rest: Text, done: Text)
    requires rest != []
    ensures var k := Present(rest);
            done + Utf8Decode(rest)
            == (if k == Announced(rest[0]) then done + FromCodePoint(Assembled(rest, k)) else done) + Utf8Decode(rest[k..])
  {
    var k := Present(rest);
    if k == Announced(rest[0]) {
      var units, tail := FromCodePoint(Assembled(rest, k)), Utf8Decode(rest[k..]);
      assert done + (units + tail) == (done + units) + tail;
    } else {
      assert [] + Utf8Decode(rest[k..]) == Utf8Decode(rest[k..]);
    }
  }

  /** A sequence yields no more units than it has bytes. */
  lemma PresentCovers(rest: Text)
    requires rest != [] && Present(rest) == Announced(rest[0])
    ensures |FromCodePoint(Assembled(rest, Present(rest)))| <= Present(rest)
  {
  }

  /** percent_decode: the text is replaced in place by what it stands for; None where it throws. */
  method PercentDecode(a: array<Char16>) returns (n: Option<nat>)
    modifies a
    ensures n.None? <==> Decode(old(a[..])).None?
    ensures n.Some? ==> n.value <= a.Length && a[..n.value] == Decode(old(a[..])).value
  {
    hide Unescape, Utf8Decode;
    var s2 := UnescapeInPlace(a);
    if s2.None? {
      return None;
    }
    var s4 := DecodeUtf8InPlace(a, s2.value);
    n := Some(s4);
  }

  /** The decoder on a string of its own. */
  method DecodeText(s: Text) returns (r: Option<Text>)
    ensures r == Decode(s)
  {
    hide Decode;
    var a := new Char16[|s|](i requires 0 <= i < |s| => s[i]);
    assert a[..] == s;
    var n := PercentDecode(a);
    r := if n.None? then None else Some(a[..n.value]);
  }
}
