/** The delta form of a diff list: tab-separated tokens, read back against the source text. */
module DeltaText {
  import opened DiffList
  import opened Options
  import opened TextCoding
  import opened Numerals

  const TAB: Char16 := 9
  const PLUS: Char16 := 43
  const EQUALS: Char16 := 61

  // ----- writing -----

  ghost function Token(d: Diff): (t: Text)
    ensures t != []
  {
    match d.op
    case Insert => [PLUS] + Encode(d.text)
    case Delete => [MINUS] + Digits(|d.text|)
    case Equal => [EQUALS] + Digits(|d.text|)
  }

  /** Every token, each followed by a tab. */
  ghost function Tokens(diffs: seq<Diff>): Text {
    if diffs == [] then [] else Tokens(diffs[..|diffs| - 1]) + (Token(diffs[|diffs| - 1]) + [TAB])
  }

  /** The delta text: the tokens with a tab between any two. */
  ghost function Written(diffs: seq<Diff>): Text {
    if diffs == [] then []
    else if |diffs| == 1 then Token(diffs[0])
    else Token(diffs[0]) + [TAB] + Written(diffs[1..])
  }

  lemma {:induction false} TokensWritten(diffs: seq<Diff>)
    ensures diffs == [] ==> Tokens(diffs) == []
    ensures diffs != [] ==> Tokens(diffs) == Written(diffs) + [TAB]
    decreases |diffs|
  {
    hide Token;
    if |diffs| == 1 {
      assert diffs[..0] == [];
      assert [] + (Token(diffs[0]) + [TAB]) == Token(diffs[0]) + [TAB];
    } else if |diffs| > 1 {
      TokensFront(diffs);
      TokensWritten(diffs[1..]);
      Assoc(Token(diffs[0]) + [TAB], Written(diffs[1..]), [TAB]);
    }
  }

  lemma {:induction false} TokensFront(diffs: seq<Diff>)
    requires diffs != []
    ensures Tokens(diffs) == Token(diffs[0]) + [TAB] + Tokens(diffs[1..])
    decreases |diffs|
  {
    hide Token;
    var n := |diffs| - 1;
    if n == 0 {
      assert diffs[..0] == [] && diffs[1..] == [];
    } else {
      var front, tail := diffs[..n], diffs[1..];
      TokensFront(front);
      assert front[1..] == tail[..n - 1] && tail[n - 1] == diffs[n] && front[0] == diffs[0];
      LastToken(diffs);
      LastToken(tail);
      hide Tokens;
      Assoc(Token(diffs[0]) + [TAB], Tokens(diffs[..n][1..]), Token(diffs[n]) + [TAB]);
    }
  }

  lemma LastToken(diffs: seq<Diff>)
    requires diffs != []
    ensures Tokens(diffs) == Tokens(diffs[..|diffs| - 1]) + (Token(diffs[|diffs| - 1]) + [TAB])
  {
  }

  /** Keep 3 characters, delete 2 characters, insert "ing": the example in the description of the format. */
  lemma DocumentedDelta(kept: Text, gone: Text)
    requires |kept| == 3 && |gone| == 2
    ensures Written([Diff(Equal, kept), Diff(Delete, gone), Diff(Insert, Chars("ing"))]) == Chars("=3\t-2\t+ing")
  {
    hide Chars, Written;
    DeltaChars();
    EncodeSafe([105, 110, 103]);
    WrittenDelta(kept, gone, [105, 110, 103]);
  }

  lemma WrittenDelta(kept: Text, gone: Text, added: Text)
    requires |kept| == 3 && |gone| == 2 && Encode(added) == added
    ensures Written([Diff(Equal, kept), Diff(Delete, gone), Diff(Insert, added)]) == [61, 51, 9, 45, 50, 9, 43] + added
  {
    hide Encode, Written, Token;
    ThreeTokens(Diff(Equal, kept), Diff(Delete, gone), Diff(Insert, added));
    TheTokens(kept, gone, added);
    assert [61, 51] + [TAB] + ([45, 50] + [TAB] + ([43] + added)) == [61, 51, 9, 45, 50, 9, 43] + added;
  }

  lemma TheTokens(kept: Text, gone: Text, added: Text)
    requires |kept| == 3 && |gone| == 2 && Encode(added) == added
    ensures Token(Diff(Equal, kept)) == [61, 51] && Token(Diff(Delete, gone)) == [45, 50]
    ensures Token(Diff(Insert, added)) == [43] + added
  {
    hide Encode;
  }

  lemma ThreeTokens(x: Diff, y: Diff, z: Diff)
    ensures Written([x, y, z]) == Token(x) + [TAB] + (Token(y) + [TAB] + Token(z))
  {
    hide Token;
    assert [x, y, z][1..] == [y, z] && [y, z][1..] == [z];
    assert Written([y, z]) == Token(y) + [TAB] + Token(z);
  }

  lemma DeltaChars()
    ensures Chars("ing") == [105, 110, 103]
    ensures Chars("=3\t-2\t+ing") == [61, 51, 9, 45, 50, 9, 43] + [105, 110, 103]
  {
  }

  predicate Countable(diffs: seq<Diff>) {
    forall i :: 0 <= i < |diffs| ==> |diffs[i].text| <= INT_MAX
  }

  /** The body of the loop of diff_toDelta. */
  method AppendToken(text0: Text, d: Diff) returns (text: Text)
    requires |d.text| <= INT_MAX
    ensures text == text0 + (Token(d) + [TAB])
  {
    hide Encode, Digits;
    match d.op {
      case Insert =>
        text := AppendPercentEncoded(text0 + [PLUS], d.text);
        text := text + [TAB];
      case Delete =>
        var n := ToString(|d.text|);
        text := text0 + [MINUS] + n + [TAB];
      case Equal =>
        var n := ToString(|d.text|);
        text := text0 + [EQUALS] + n + [TAB];
    }
  }

  /** diff_toDelta */
  method ToDelta(diffs: seq<Diff>) returns (text: Text)
    requires Countable(diffs)
    ensures text == Written(diffs)
  {
    hide Written, Token;
    text := [];
    for i := 0 to |diffs|
      invariant text == Tokens(diffs[..i])
    {
      assert diffs[..i + 1][..i] == diffs[..i];
      text := AppendToken(text, diffs[i]);
    }
    assert diffs[..|diffs|] == diffs;
    TokensWritten(diffs);
    EmptyWritten();
    if text != [] {
      text := text[..|text| - 1];
    }
  }

  lemma EmptyWritten()
    ensures Written([]) == []
  {
  }

  // ----- reading -----

  /** Length of the token at the front of s. */
  function TokenLen(s: Text, delim: Char16): (n: nat)
    ensures n <= |s|
    ensures forall i :: 0 <= i < n ==> s[i] != delim
    ensures n < |s| ==> s[n] == delim
  {
    if s == [] || s[0] == delim then 0 else 1 + TokenLen(s[1..], delim)
  }

  /** next_token */
  method NextToken(str: Text, delim: Char16, off: nat) returns (n: nat)
    requires off <= |str|
    ensures n == TokenLen(str[off..], delim)
  {
    var p := off;
    while p != |str|
      invariant off <= p <= |str| && p - off + TokenLen(str[p..], delim) == TokenLen(str[off..], delim)
      decreases |str| - p
    {
      assert str[p..][1..] == str[p + 1..];
      if str[p] == delim {
        break;
      }
      p := p + 1;
    }
    n := p - off;
  }

  /** safeMid: at most n characters from pos on; None where substr throws. */
  function SafeMid(str: Text, pos: nat, n: nat): Option<Text> {
    if pos > |str| then None
    else if pos + n <= |str| then Some(str[pos..pos + n])
    else Some(str[pos..])
  }

  /** The record of one token, at a position in the source text; None where reading throws. */
  ghost function ReadToken(text1: Text, pointer: nat, token: Text): Option<(Diff, nat)>
    requires token != []
  {
    var param := token[1..];
    if token[0] == PLUS then
      match Decode(param)
      case None => None
      case Some(t) => Some((Diff(Insert, t), pointer))
    else if token[0] != MINUS && token[0] != EQUALS then None
    else
      var n := ToInt(param);
      if n < 0 || SafeMid(text1, pointer, n).None? then None
      else Some((Diff(if token[0] == EQUALS then Equal else Delete, SafeMid(text1, pointer, n).value), pointer + n))
  }

  function Push(d: Diff, rest: Option<seq<Diff>>): Option<seq<Diff>> {
    match rest
    case None => None
    case Some(ds) => Some([d] + ds)
  }

  function PushAll(ds: seq<Diff>, rest: Option<seq<Diff>>): Option<seq<Diff>> {
    match rest
    case None => None
    case Some(es) => Some(ds + es)
  }

  /** What is left of the delta text after its first token. */
  function AfterToken(rest: Text, delim: Char16): (r: Text)
    requires rest != []
    ensures |r| < |rest|
  {
    var n := TokenLen(rest, delim);
    if n < |rest| then rest[n + 1..] else []
  }

  /** The records of a delta text; None where reading throws. */
  ghost function Read(text1: Text, pointer: nat, rest: Text): Option<seq<Diff>>
    decreases |rest|
  {
    if rest == [] then
      if pointer == |text1| then Some([]) else None
    else
      var n := TokenLen(rest, TAB);
      if n == 0 then Read(text1, pointer, AfterToken(rest, TAB))
      else
        match ReadToken(text1, pointer, rest[..n])
        case None => None
        case Some(t) => Push(t.0, Read(text1, t.1, AfterToken(rest, TAB)))
  }

  function From(delta: Text, token: nat): Text {
    if token < |delta| then delta[token..] else []
  }

  /** Where the reader stands: the records so far, and what is still to be read. */
  ghost predicate Reading(text1: Text, delta: Text, diffs: seq<Diff>, pointer: nat, token: nat) {
    Read(text1, 0, delta) == PushAll(diffs, Read(text1, pointer, From(delta, token)))
  }

  /** diff_fromDelta; None where it throws. */
  method FromDelta(text1: Text, delta: Text) returns (r: Option<seq<Diff>>)
    ensures r == Read(text1, 0, delta)
  {
    hide Read, ReadToken, TokenLen, Reading;
    var diffs: seq<Diff>, pointer: nat, token: nat := [], 0, 0;
    ReadingStarts(text1, delta);
    while token < |delta|
      invariant Reading(text1, delta, diffs, pointer, token)
      decreases |delta| - token
    {
      var tokenLen := NextToken(delta, TAB, token);
      ReadStep(text1, delta, diffs, pointer, token);
      if tokenLen != 0 {
        var t := OneToken(text1, pointer, delta[token..token + tokenLen]);
        if t.None? {
          return None;
        }
        diffs, pointer := diffs + [t.value.0], t.value.1;
      }
      token := token + tokenLen + 1;
    }
    ReadingEnds(text1, delta, diffs, pointer, token);
    if pointer != |text1| {
      return None;
    }
    r := Some(diffs);
  }

  lemma ReadingStarts(text1: Text, delta: Text)
    ensures Reading(text1, delta, [], 0, 0)
  {
    hide Read;
    assert From(delta, 0) == delta;
    PushNone(Read(text1, 0, delta));
  }

  lemma ReadingEnds(text1: Text, delta: Text, diffs: seq<Diff>, pointer: nat, token: nat)
    requires Reading(text1, delta, diffs, pointer, token) && token >= |delta|
    ensures Read(text1, 0, delta) == if pointer == |text1| then Some(diffs) else None
  {
    assert Read(text1, pointer, []) == if pointer == |text1| then Some([]) else None;
    hide Read;
    assert diffs + [] == diffs;
  }

  lemma ReadStep(text1: Text, delta: Text, diffs: seq<Diff>, pointer: nat, token: nat)
    requires Reading(text1, delta, diffs, pointer, token) && token < |delta|
    ensures var n := TokenLen(delta[token..], TAB);
            && token + n <= |delta|
            && if n == 0 then Reading(text1, delta, diffs, pointer, token + 1)
               else
                 var t := ReadToken(text1, pointer, delta[token..token + n]);
                 if t.None? then Read(text1, 0, delta).None?
                 else Reading(text1, delta, diffs + [t.value.0], t.value.1, token + n + 1)
  {
    hide ReadToken, TokenLen;
    var rest := delta[token..];
    var n := TokenLen(rest, TAB);
    After(delta, token, n);
    if n != 0 {
      assert rest[..n] == delta[token..token + n];
      var t := ReadToken(text1, pointer, rest[..n]);
      if t.Some? {
        PushMore(diffs, t.value.0, Read(text1, t.value.1, AfterToken(rest, TAB)));
      }
    }
  }

  lemma After(delta: Text, token: nat, n: nat)
    requires token < |delta| && n == TokenLen(delta[token..], TAB)
    ensures AfterToken(delta[token..], TAB) == From(delta, token + n + 1)
    ensures token + n <= |delta|
  {
    if token + n < |delta| {
      assert delta[token..][n + 1..] == delta[token + n + 1..];
    }
  }

  lemma PushNone(r: Option<seq<Diff>>)
    ensures PushAll([], r) == r
  {
    assert r.Some? ==> [] + r.value == r.value;
  }

  lemma PushMore(ds: seq<Diff>, d: Diff, r: Option<seq<Diff>>)
    ensures PushAll(ds, Push(d, r)) == PushAll(ds + [d], r)
  {
    if r.Some? {
      Assoc(ds, [d], r.value);
    }
  }

  /** The body of the token loop. */
  method OneToken(text1: Text, pointer: nat, token: Text) returns (t: Option<(Diff, nat)>)
    requires token != []
    ensures t == ReadToken(text1, pointer, token)
  {
    hide Decode, ToInt, SafeMid;
    var param := token[1..];
    if token[0] == PLUS {
      var text := DecodeText(param);
      return if text.None? then None else Some((Diff(Insert, text.value), pointer));
    }
    if token[0] != MINUS && token[0] != EQUALS {
      return None;
    }
    var n := ToInt(param);
    if n < 0 {
      return None;
    }
    var text := SafeMid(text1, pointer, n);
    if text.None? {
      return None;
    }
    t := Some((Diff(if token[0] == EQUALS then Equal else Delete, text.value), pointer + n));
  }

  // ----- the round trip -----

  /** The list as it comes back: inserted text is normalised. */
  ghost function Returned(diffs: seq<Diff>): seq<Diff> {
    if diffs == [] then []
    else [if diffs[0].op == Insert then Diff(Insert, Normalized(diffs[0].text)) else diffs[0]] + Returned(diffs[1..])
  }

  ghost predicate InsertsPaired(diffs: seq<Diff>) {
    forall i :: 0 <= i < |diffs| && diffs[i].op == Insert ==> Paired(diffs[i].text)
  }

  lemma {:induction false} ReturnedIff(diffs: seq<Diff>)
    ensures |Returned(diffs)| == |diffs|
    ensures Returned(diffs) == diffs <==> InsertsPaired(diffs)
    decreases |diffs|
  {
    hide Normalized, Paired;
    if diffs != [] {
      ReturnedIff(diffs[1..]);
      NormalizedIff(diffs[0].text);
      assert diffs == [diffs[0]] + diffs[1..];
      assert Returned(diffs)[1..] == Returned(diffs[1..]);
      if Returned(diffs) == diffs {
        assert Returned(diffs)[0] == diffs[0];
      }
    }
  }

  lemma {:induction false} TokenLenIs(t: Text, rest: Text, delim: Char16)
    requires forall i :: 0 <= i < |t| ==> t[i] != delim
    requires rest == [] || rest[0] == delim
    ensures TokenLen(t + rest, delim) == |t|
  {
    if t == [] {
      assert t + rest == rest;
    } else {
      TokenLenIs(t[1..], rest, delim);
      assert (t + rest)[1..] == t[1..] + rest;
    }
  }

  lemma TokenHasNoTab(d: Diff)
    ensures forall i :: 0 <= i < |Token(d)| ==> Token(d)[i] != TAB
  {
    hide Encode, Digits;
    if d.op == Insert {
      EncodePlain(d.text);
    }
  }

  /** One token reads back as its record, when the source text has the record's text at that place. */
  lemma ReadTokenBack(d: Diff, text1: Text, pointer: nat)
    requires |d.text| <= INT_MAX
    requires d.op != Insert ==> pointer + |d.text| <= |text1| && text1[pointer..pointer + |d.text|] == d.text
    ensures ReadToken(text1, pointer, Token(d))
         == Some((if d.op == Insert then Diff(Insert, Normalized(d.text)) else d,
                  pointer + if d.op == Insert then 0 else |d.text|))
  {
    hide Encode, Decode, Digits, ToInt, Normalized;
    if d.op == Insert {
      DecodeEncode(d.text);
      assert Token(d)[1..] == Encode(d.text);
    } else {
      ToIntDigits(|d.text|);
      assert Token(d)[1..] == Digits(|d.text|);
    }
  }

  lemma {:induction false} ReadBack(diffs: seq<Diff>, text1: Text, pointer: nat)
    requires Countable(diffs) && pointer <= |text1| && text1[pointer..] == Text1(diffs)
    ensures Read(text1, pointer, Written(diffs)) == Some(Returned(diffs))
    decreases |diffs|
  {
    hide Token, ReadToken, TokenLen, Normalized, Written, Read;
    if diffs == [] {
      ReadNothing(text1);
    } else {
      var d, more := diffs[0], Written(diffs[1..]);
      var next := pointer + if d.op == Insert then 0 else |d.text|;
      WrittenFront(diffs);
      SourceAt(diffs, text1, pointer);
      ReadTokenBack(d, text1, pointer);
      ReadFirst(text1, pointer, Token(d), more, |diffs| == 1) by { TokenHasNoTab(d); TokenStarts(d); }
      ReadBack(diffs[1..], text1, next);
    }
  }

  lemma ReadNothing(text1: Text)
    ensures Written([]) == [] && Read(text1, |text1|, []) == Some([])
  {
  }

  lemma TokenStarts(d: Diff)
    ensures Token(d) != []
  {
  }

  lemma WrittenFront(diffs: seq<Diff>)
    requires diffs != []
    ensures |diffs| == 1 ==> Written(diffs[1..]) == []
    ensures Written(diffs) == Token(diffs[0]) + if |diffs| == 1 then [] else [TAB] + Written(diffs[1..])
  {
    hide Token;
  }

  /** Reading the token in front. */
  lemma ReadFirst(text1: Text, pointer: nat, token: Text, more: Text, last: bool)
    requires token != [] && (forall i :: 0 <= i < |token| ==> token[i] != TAB) && (last ==> more == [])
    ensures var t := ReadToken(text1, pointer, token);
            Read(text1, pointer, token + if last then [] else [TAB] + more)
            == if t.None? then None else Push(t.value.0, Read(text1, t.value.1, more))
  {
    hide TokenLen, ReadToken, Push;
    TokenLenIs(token, if last then [] else [TAB] + more, TAB);
    FirstToken(token, more, last);
  }

  lemma FirstToken(token: Text, more: Text, last: bool)
    requires token != [] && (last ==> more == [])
    ensures var t := token + if last then [] else [TAB] + more;
            t[..|token|] == token && (TokenLen(t, TAB) == |token| ==> AfterToken(t, TAB) == more)
  {
    hide TokenLen;
  }

  /** The source text of a list starts with that of its first record. */
  lemma SourceAt(diffs: seq<Diff>, text1: Text, pointer: nat)
    requires diffs != [] && pointer <= |text1| && text1[pointer..] == Text1(diffs)
    ensures var d := diffs[0];
            && (d.op != Insert ==> pointer + |d.text| <= |text1| && text1[pointer..pointer + |d.text|] == d.text)
            && text1[pointer + (if d.op == Insert then 0 else |d.text|)..] == Text1(diffs[1..])
  {
    var d, tail := diffs[0], text1[pointer..];
    assert tail == Source(d) + Text1(diffs[1..]);
    if d.op != Insert {
      assert tail[..|d.text|] == d.text && tail[|d.text|..] == Text1(diffs[1..]);
      assert text1[pointer..pointer + |d.text|] == tail[..|d.text|];
      assert text1[pointer + |d.text|..] == tail[|d.text|..];
    }
  }

  /** Writing and reading: the list comes back exactly when the surrogates of its inserted texts are paired. */
  lemma DeltaRoundTrip(diffs: seq<Diff>)
    requires Countable(diffs)
    ensures Read(Text1(diffs), 0, Written(diffs)) == Some(diffs) <==> InsertsPaired(diffs)
  {
    hide Read, Written, Returned, InsertsPaired;
    assert Text1(diffs)[0..] == Text1(diffs);
    ReadBack(diffs, Text1(diffs), 0);
    ReturnedIff(diffs);
  }

  lemma {:induction false} DestinationPaired(diffs: seq<Diff>)
    requires Paired(Text2(diffs))
    ensures InsertsPaired(diffs)
  {
    hide Paired;
    if diffs != [] {
      assert diffs == [diffs[0]] + diffs[1..];
      Concat([diffs[0]], diffs[1..]);
      Single(diffs[0]);
      PairedParts(Destination(diffs[0]), Text2(diffs[1..]));
      DestinationPaired(diffs[1..]);
    }
  }

  /** A destination with paired surrogates always comes back, even if the records cut through its pairs. */
  lemma WellFormedReturns(diffs: seq<Diff>)
    requires Countable(diffs) && Paired(Text2(diffs))
    ensures Read(Text1(diffs), 0, Written(diffs)) == Some(diffs)
  {
    hide Paired;
    DestinationPaired(diffs);
    DeltaRoundTrip(diffs);
  }

  /** A high surrogate with a letter behind it does not come back. */
  lemma BrokenPairLost()
    ensures var diffs := [Diff(Insert, [0xD800, 65])]; Read(Text1(diffs), 0, Written(diffs)) != Some(diffs)
  {
    var diffs := [Diff(Insert, [0xD800, 65])];
    assert !Paired(diffs[0].text);
    DeltaRoundTrip(diffs);
  }
}
