/** The line-to-character encoding of diff_lineMode: each distinct line gets a number from 1 on,
    stored in one code unit.  It is faithful exactly as long as the numbers fit in a code unit. */
module LineMode {
  import opened Helpers
  import opened DiffList

  const NEWLINE: Char16 := 10
  const CHAR_LIMIT := 0x1_0000

  // ----- lines -----

  /** Length of the first line with its newline; the last line may lack one. */
  ghost function FirstLine(text: Text): (n: nat)
    ensures n <= |text| && (text != [] ==> 0 < n)
    ensures forall i :: 0 <= i < n - 1 ==> text[i] != NEWLINE
    ensures n < |text| ==> text[n - 1] == NEWLINE
  {
    if text == [] then 0 else if text[0] == NEWLINE then 1 else 1 + FirstLine(text[1..])
  }

  ghost function Lines(text: Text): (r: seq<Text>)
    decreases |text|
  {
    if text == [] then [] else [text[..FirstLine(text)]] + Lines(text[FirstLine(text)..])
  }

  ghost function SetOf(lines: seq<Text>): set<Text> {
    set l | l in lines
  }

  ghost function LineSet(text: Text): set<Text> {
    SetOf(Lines(text))
  }

  /** The first line is where the first newline says. */
  lemma {:induction false} FirstLineAt(text: Text, n: nat)
    requires 0 < n <= |text| && (forall i :: 0 <= i < n - 1 ==> text[i] != NEWLINE)
    requires n == |text| || text[n - 1] == NEWLINE
    ensures FirstLine(text) == n
  {
    if text[0] != NEWLINE && 1 < n {
      FirstLineAt(text[1..], n - 1);
    }
  }

  // ----- numbering -----

  /** Lines are numbered 1, 2, ... without repetition. */
  ghost predicate Numbered(hash: map<Text, nat>) {
    && (forall l :: l in hash ==> 1 <= hash[l] <= |hash|)
    && (forall l, m :: l in hash && m in hash && hash[l] == hash[m] ==> l == m)
  }

  ghost predicate Extends(hash: map<Text, nat>, hash': map<Text, nat>) {
    forall l :: l in hash ==> l in hash' && hash'[l] == hash[l]
  }

  ghost function Encode(lines: seq<Text>, hash: map<Text, nat>): Text
    requires forall l :: l in lines ==> l in hash
  {
    if lines == [] then [] else [hash[lines[0]] % CHAR_LIMIT] + Encode(lines[1..], hash)
  }

  lemma {:induction false} EncodeAppend(lines: seq<Text>, l: Text, hash: map<Text, nat>)
    requires l in hash && forall m :: m in lines ==> m in hash
    ensures forall m :: m in lines + [l] ==> m in hash
    ensures Encode(lines + [l], hash) == Encode(lines, hash) + [hash[l] % CHAR_LIMIT]
  {
    if lines == [] {
      assert lines + [l] == [l];
    } else {
      EncodeAppend(lines[1..], l, hash);
      assert (lines + [l])[1..] == lines[1..] + [l];
    }
  }

  lemma {:induction false} EncodeExtends(lines: seq<Text>, hash: map<Text, nat>, hash': map<Text, nat>)
    requires Extends(hash, hash') && forall l :: l in lines ==> l in hash
    ensures Encode(lines, hash') == Encode(lines, hash)
  {
    if lines != [] {
      EncodeExtends(lines[1..], hash, hash');
    }
  }

  /** The table after looking up one line. */
  ghost function Looked(hash: map<Text, nat>, line: Text): map<Text, nat> {
    if line in hash then hash else hash[line := |hash| + 1]
  }

  /** The table after numbering these lines, in order of first appearance. */
  ghost function Numbering(hash0: map<Text, nat>, lines: seq<Text>): map<Text, nat> {
    if lines == [] then hash0 else Looked(Numbering(hash0, lines[..|lines| - 1]), lines[|lines| - 1])
  }

  lemma LookedKeeps(hash0: map<Text, nat>, hash: map<Text, nat>, done: seq<Text>, line: Text)
    requires Numbered(hash) && Extends(hash0, hash) && hash.Keys == hash0.Keys + SetOf(done)
    ensures Numbered(Looked(hash, line)) && Extends(hash0, Looked(hash, line)) && line in Looked(hash, line)
    ensures Looked(hash, line).Keys == hash0.Keys + SetOf(done + [line])
  {
    hide SetOf, Numbered, Extends;
    SetOfAppend(done, line);
    LookedKeys(hash, line);
    var known, before := SetOf(done), hash0.Keys;
    assert (before + known) + {line} == before + (known + {line});
    if line !in hash {
      AddNumber(hash, line);
      ExtendsOn(hash0, hash, hash[line := |hash| + 1]);
    }
  }

  lemma LookedKeys(hash: map<Text, nat>, line: Text)
    ensures Looked(hash, line).Keys == hash.Keys + {line}
  {
  }

  lemma ExtendsOn(a: map<Text, nat>, b: map<Text, nat>, c: map<Text, nat>)
    requires Extends(a, b) && Extends(b, c)
    ensures Extends(a, c)
  {
  }

  lemma SetOfAppend(done: seq<Text>, line: Text)
    ensures SetOf(done + [line]) == SetOf(done) + {line}
  {
  }

  lemma AddNumber(hash: map<Text, nat>, line: Text)
    requires Numbered(hash) && line !in hash
    ensures Numbered(hash[line := |hash| + 1]) && Extends(hash, hash[line := |hash| + 1])
  {
    assert |hash[line := |hash| + 1]| == |hash| + 1;
  }

  lemma LookedEncodes(hash0: map<Text, nat>, hash: map<Text, nat>, done: seq<Text>, line: Text)
    requires hash.Keys == hash0.Keys + SetOf(done)
    ensures (forall l :: l in done ==> l in hash) && (forall l :: l in done + [line] ==> l in Looked(hash, line))
    ensures Encode(done + [line], Looked(hash, line))
         == Encode(done, hash) + [Looked(hash, line)[line] % CHAR_LIMIT]
  {
    assert forall l :: l in done ==> l in SetOf(done) && l in hash;
    EncodeExtends(done, hash, Looked(hash, line));
    EncodeAppend(done, line, Looked(hash, line));
  }

  /** Length of the next line: up to and including the next newline, or to the end of the text. */
  method LineLength(text: Text, pos: nat) returns (n: nat)
    requires pos < |text|
    ensures 0 < n <= |text| - pos && (forall i :: pos <= i < pos + n - 1 ==> text[i] != NEWLINE)
    ensures pos + n == |text| || text[pos + n - 1] == NEWLINE
  {
    n := 0;
    while pos + n < |text| && text[pos + n] != NEWLINE
      invariant pos + n <= |text|
      invariant forall i :: pos <= i < pos + n ==> text[i] != NEWLINE
    {
      n := n + 1;
    }
    if pos + n < |text| {
      n := n + 1;
    }
  }

  /** What has been read of the text so far and what was made of it. */
  ghost predicate Munging(text: Text, hash0: map<Text, nat>, done: seq<Text>, pos: nat, hash: map<Text, nat>, chars: Text) {
    && pos <= |text| && Lines(text) == done + Lines(text[pos..])
    && Numbered(hash) && Extends(hash0, hash) && hash.Keys == hash0.Keys + SetOf(done)
    && (forall l :: l in done ==> l in hash)
    && chars == Encode(done, hash) && hash == Numbering(hash0, done)
  }

  lemma MungeStep(text: Text, hash0: map<Text, nat>, done: seq<Text>, pos: nat, hash: map<Text, nat>, chars: Text, n: nat)
    requires Munging(text, hash0, done, pos, hash, chars)
    requires 0 < n <= |text| - pos && (forall i :: pos <= i < pos + n - 1 ==> text[i] != NEWLINE)
    requires pos + n == |text| || text[pos + n - 1] == NEWLINE
    ensures var line := text[pos..pos + n];
            var h := Looked(hash, line);
            line in h && Munging(text, hash0, done + [line], pos + n, h, chars + [h[line] % CHAR_LIMIT])
  {
    hide Encode, Lines, Numbered, Extends, SetOf, Looked;
    var line := text[pos..pos + n];
    assert (done + [line])[..|done|] == done;
    NextLine(text, done, pos, n);
    LookedKeeps(hash0, hash, done, line);
    LookedEncodes(hash0, hash, done, line);
  }

  /** diff_linesToCharsMunge: walks the text line by line, numbering lines not seen before. */
  method Munge(text: Text, hash0: map<Text, nat>) returns (chars: Text, hash: map<Text, nat>)
    requires Numbered(hash0)
    ensures Numbered(hash) && Extends(hash0, hash) && hash.Keys == hash0.Keys + LineSet(text)
    ensures chars == Encode(Lines(text), hash) && hash == Numbering(hash0, Lines(text))
  {
    hide Munging, Encode, Lines, Numbered, Extends, SetOf, Numbering;
    chars, hash := [], hash0;
    var pos := 0;
    ghost var done: seq<Text> := [];
    MungeStart(text, hash);
    while pos < |text|
      invariant pos <= |text| && Munging(text, hash0, done, pos, hash, chars)
      decreases |text| - pos
    {
      var n := LineLength(text, pos);
      var line := text[pos..pos + n];
      MungeStep(text, hash0, done, pos, hash, chars, n);
      if line !in hash {
        hash := hash[line := |hash| + 1];
      }
      chars := chars + [hash[line] % CHAR_LIMIT];
      done := done + [line];
      pos := pos + n;
    }
    MungeEnd(text, hash0, done, hash, chars);
  }

  lemma MungeStart(text: Text, hash: map<Text, nat>)
    requires Numbered(hash)
    ensures Munging(text, hash, [], 0, hash, [])
  {
    assert text[0..] == text && [] + Lines(text) == Lines(text);
  }

  lemma NextLine(text: Text, done: seq<Text>, pos: nat, n: nat)
    requires pos < |text| && 0 < n <= |text| - pos && Lines(text) == done + Lines(text[pos..])
    requires forall i :: pos <= i < pos + n - 1 ==> text[i] != NEWLINE
    requires pos + n == |text| || text[pos + n - 1] == NEWLINE
    ensures Lines(text) == (done + [text[pos..pos + n]]) + Lines(text[pos + n..])
  {
    LinesStep(text[pos..], n);
    hide Lines;
    assert text[pos..][..n] == text[pos..pos + n] by { SliceOfDrop(text, pos, n); }
    assert text[pos..][n..] == text[pos + n..] by { DropOfDrop(text, pos, n); }
    Assoc(done, [text[pos..pos + n]], Lines(text[pos + n..]));
  }

  lemma LinesStep(text: Text, n: nat)
    requires 0 < n <= |text| && (forall i :: 0 <= i < n - 1 ==> text[i] != NEWLINE)
    requires n == |text| || text[n - 1] == NEWLINE
    ensures Lines(text) == [text[..n]] + Lines(text[n..])
  {
    FirstLineAt(text, n);
  }

  lemma SliceOfDrop(t: Text, i: nat, p: nat)
    requires i + p <= |t|
    ensures t[i..][..p] == t[i..i + p]
  {
  }

  lemma DropOfDrop(t: Text, i: nat, p: nat)
    requires i + p <= |t|
    ensures t[i..][p..] == t[i + p..]
  {
  }

  lemma MungeEnd(text: Text, hash0: map<Text, nat>, done: seq<Text>, hash: map<Text, nat>, chars: Text)
    requires Munging(text, hash0, done, |text|, hash, chars)
    ensures Numbered(hash) && Extends(hash0, hash) && hash.Keys == hash0.Keys + LineSet(text)
    ensures chars == Encode(Lines(text), hash) && hash == Numbering(hash0, Lines(text))
  {
    hide Encode, Numbered, Extends, SetOf;
    assert Lines(text) == done;
  }

  // ----- back from characters to lines -----

  ghost predicate Within(chars: Text, n: int) {
    forall i :: 0 <= i < |chars| ==> chars[i] < n
  }

  ghost function Hydrate(chars: Text, lineArray: seq<Text>): Text
    requires Within(chars, |lineArray|)
  {
    if chars == [] then [] else lineArray[chars[0]] + Hydrate(chars[1..], lineArray)
  }

  /** The table of lines belongs to the numbering; entry 0 is blank. */
  ghost predicate TableOf(lineArray: seq<Text>, hash: map<Text, nat>) {
    && |lineArray| == |hash| + 1 && lineArray[0] == []
    && forall l :: l in hash ==> 1 <= hash[l] < |lineArray| && lineArray[hash[l]] == l
  }

  lemma WithinConcat(x: Text, y: Text, n: int)
    ensures Within(x + y, n) <==> Within(x, n) && Within(y, n)
  {
    if Within(x + y, n) {
      forall i | 0 <= i < |x| ensures x[i] < n { assert (x + y)[i] < n; }
      forall i | 0 <= i < |y| ensures y[i] < n { assert (x + y)[|x| + i] < n; }
    }
  }

  lemma {:induction false} HydrateConcat(x: Text, y: Text, lineArray: seq<Text>)
    requires Within(x, |lineArray|) && Within(y, |lineArray|)
    ensures Within(x + y, |lineArray|)
    ensures Hydrate(x + y, lineArray) == Hydrate(x, lineArray) + Hydrate(y, lineArray)
  {
    WithinConcat(x, y, |lineArray|);
    if x == [] {
      assert x + y == y;
    } else {
      assert (x + y)[0] == x[0] && (x + y)[1..] == x[1..] + y;
      HydrateConcat(x[1..], y, lineArray);
      Assoc(lineArray[x[0]], Hydrate(x[1..], lineArray), Hydrate(y, lineArray));
    }
  }

  function Joined(lines: seq<Text>): Text {
    if lines == [] then [] else lines[0] + Joined(lines[1..])
  }

  lemma {:induction false} JoinedLines(text: Text)
    ensures Joined(Lines(text)) == text
    decreases |text|
  {
    if text != [] {
      JoinedLines(text[FirstLine(text)..]);
      Cut(text, FirstLine(text));
    }
  }

  lemma {:induction false} EncodeInRange(lines: seq<Text>, hash: map<Text, nat>)
    requires Numbered(hash) && forall l :: l in lines ==> l in hash
    ensures Within(Encode(lines, hash), |hash| + 1)
  {
    if lines != [] {
      assert lines[0] in hash;
      EncodeInRange(lines[1..], hash);
      WithinConcat([hash[lines[0]] % CHAR_LIMIT], Encode(lines[1..], hash), |hash| + 1);
    }
  }

  /** With at most 65535 distinct lines the encoding is reversible. */
  lemma {:induction false} HydrateEncode(lines: seq<Text>, hash: map<Text, nat>, lineArray: seq<Text>)
    requires Numbered(hash) && TableOf(lineArray, hash) && |hash| < CHAR_LIMIT
    requires forall l :: l in lines ==> l in hash
    ensures Within(Encode(lines, hash), |lineArray|)
    ensures Hydrate(Encode(lines, hash), lineArray) == Joined(lines)
  {
    if lines != [] {
      var l := lines[0];
      assert l in hash && hash[l] % CHAR_LIMIT == hash[l];
      HydrateEncode(lines[1..], hash, lineArray);
      EncodeInRange(lines, hash);
    }
  }

  /** Every line survives its encoding exactly if the numbers fit in a code unit. */
  lemma EncodingFits(hash: map<Text, nat>, lineArray: seq<Text>)
    requires Numbered(hash) && TableOf(lineArray, hash)
    requires forall l :: l in hash ==> l != []
    requires forall k :: 1 <= k <= |hash| ==> lineArray[k] in hash && hash[lineArray[k]] == k
    ensures (forall l :: l in hash ==> hash[l] % CHAR_LIMIT < |lineArray| && lineArray[hash[l] % CHAR_LIMIT] == l)
       <==> |hash| < CHAR_LIMIT
  {
    if CHAR_LIMIT <= |hash| {
      var l := lineArray[CHAR_LIMIT];
      assert l in hash && hash[l] % CHAR_LIMIT == 0;
    }
  }

  // ----- too many lines -----

  lemma {:induction false} NumberingFacts(hash0: map<Text, nat>, lines: seq<Text>)
    requires Numbered(hash0)
    ensures Numbered(Numbering(hash0, lines)) && Extends(hash0, Numbering(hash0, lines))
    ensures forall l :: l in lines ==> l in Numbering(hash0, lines)
    decreases |lines|
  {
    if lines != [] {
      var front, last := lines[..|lines| - 1], lines[|lines| - 1];
      NumberingFacts(hash0, front);
      if last !in Numbering(hash0, front) {
        AddNumber(Numbering(hash0, front), last);
      }
      forall l | l in lines ensures l in Numbering(hash0, lines) {
        assert l == last || l in front;
      }
    }
  }

  /** Line i has the number v, and all lines before it have smaller ones. */
  ghost predicate FirstHas(hash: map<Text, nat>, lines: seq<Text>, v: nat, i: nat) {
    && i < |lines| && lines[i] in hash && hash[lines[i]] == v
    && forall j :: 0 <= j < i ==> lines[j] in hash && hash[lines[j]] < v
  }

  /** Where a new number first appears. */
  lemma {:induction false} FirstWith(hash0: map<Text, nat>, lines: seq<Text>, v: nat) returns (i: nat)
    requires Numbered(hash0) && |hash0| < v <= |Numbering(hash0, lines)|
    ensures FirstHas(Numbering(hash0, lines), lines, v, i)
    decreases |lines|
  {
    NumbersStay(hash0, lines);
    var n := |lines| - 1;
    var before, h := Numbering(hash0, lines[..n]), Numbering(hash0, lines);
    hide Numbering, Looked, Extends, Numbered;
    if v <= |before| {
      i := FirstWith(hash0, lines[..n], v);
      FirstStays(before, h, lines, n, v, i);
    } else {
      i := n;
    }
  }

  lemma FirstStays(before: map<Text, nat>, h: map<Text, nat>, lines: seq<Text>, n: nat, v: nat, i: nat)
    requires n <= |lines| && FirstHas(before, lines[..n], v, i)
    requires forall j :: 0 <= j < n ==> lines[j] in h && lines[j] in before && h[lines[j]] == before[lines[j]]
    ensures FirstHas(h, lines, v, i)
  {
    assert forall j :: 0 <= j <= i ==> lines[..n][j] == lines[j];
  }

  /** The last line changes no number but its own, and gets the next one if it is new. */
  lemma NumbersStay(hash0: map<Text, nat>, lines: seq<Text>)
    requires Numbered(hash0) && (lines == [] ==> |Numbering(hash0, lines)| > |hash0|)
    ensures lines != [] && (forall l :: l in lines ==> l in Numbering(hash0, lines))
    ensures var n, h, before := |lines| - 1, Numbering(hash0, lines), Numbering(hash0, lines[..|lines| - 1]);
            && (forall j :: 0 <= j < n ==> lines[j] in before && h[lines[j]] == before[lines[j]] <= |before|)
            && |h| <= |before| + 1 && (|h| > |before| ==> h[lines[n]] == |h|)
  {
    NumberingFacts(hash0, lines);
    var front := lines[..|lines| - 1];
    NumberingFacts(hash0, front);
    AddedOne(Numbering(hash0, front), lines[|lines| - 1]);
    forall j | 0 <= j < |lines| - 1 ensures lines[j] in Numbering(hash0, front) {
      assert lines[j] == front[j] && front[j] in front;
    }
  }

  lemma AddedOne(hash: map<Text, nat>, line: Text)
    ensures line in Looked(hash, line) && |Looked(hash, line)| <= |hash| + 1
    ensures |Looked(hash, line)| > |hash| ==> Looked(hash, line)[line] == |hash| + 1
  {
    assert line !in hash ==> |hash[line := |hash| + 1]| == |hash| + 1;
  }

  ghost function Newlines(t: Text): nat {
    if t == [] then 0 else (if t[0] == NEWLINE then 1 else 0) + Newlines(t[1..])
  }

  lemma {:induction false} NewlinesConcat(x: Text, y: Text)
    ensures Newlines(x + y) == Newlines(x) + Newlines(y)
    decreases |x|
  {
    if x == [] {
      assert x + y == y;
    } else {
      NewlinesConcat(x[1..], y);
      assert (x + y)[0] == x[0] && (x + y)[1..] == x[1..] + y;
    }
  }

  predicate Ended(l: Text) {
    l != [] && l[|l| - 1] == NEWLINE
  }

  /** A newline only at the end. */
  predicate GoodLine(l: Text) {
    forall i :: 0 <= i < |l| - 1 ==> l[i] != NEWLINE
  }

  lemma {:induction false} LineNewlines(l: Text)
    requires GoodLine(l)
    ensures Newlines(l) == if Ended(l) then 1 else 0
    decreases |l|
  {
    if 1 < |l| {
      LineNewlines(l[1..]);
    }
  }

  /** Lines are not empty, and only the last may lack its newline. */
  ghost predicate GoodLines(lines: seq<Text>) {
    forall i :: 0 <= i < |lines| ==> GoodLine(lines[i]) && lines[i] != [] && (i < |lines| - 1 ==> Ended(lines[i]))
  }

  lemma {:induction false} LinesAreGood(text: Text)
    ensures GoodLines(Lines(text))
    decreases |text|
  {
    if text != [] {
      var n := FirstLine(text);
      LinesAreGood(text[n..]);
      var rest := Lines(text[n..]);
      assert n == |text| ==> rest == [];
      forall i | 0 <= i < |Lines(text)|
        ensures GoodLine(Lines(text)[i]) && Lines(text)[i] != [] && (i < |Lines(text)| - 1 ==> Ended(Lines(text)[i]))
      {
        if i > 0 {
          assert Lines(text)[i] == rest[i - 1];
        }
      }
    }
  }

  /** The newlines of joined lines. */
  lemma {:induction false} JoinedNewlines(lines: seq<Text>)
    requires GoodLines(lines) && lines != []
    ensures Joined(lines) != [] && (Ended(Joined(lines)) <==> Ended(lines[|lines| - 1]))
    ensures Newlines(Joined(lines)) == if Ended(Joined(lines)) then |lines| else |lines| - 1
    decreases |lines|
  {
    LineNewlines(lines[0]);
    NewlinesConcat(lines[0], Joined(lines[1..]));
    if |lines| == 1 {
      assert Joined(lines[1..]) == [] && lines[0] + [] == lines[0];
    } else {
      var rest := lines[1..];
      assert rest[|rest| - 1] == lines[|lines| - 1];
      JoinedNewlines(rest);
    }
  }

  /** Decoded text has at most one newline for every code unit, and ends in one if it has as many. */
  lemma {:induction false} HydratedNewlines(chars: Text, lineArray: seq<Text>)
    requires Within(chars, |lineArray|) && forall k :: 0 <= k < |lineArray| ==> GoodLine(lineArray[k])
    ensures Newlines(Hydrate(chars, lineArray)) <= |chars|
    ensures chars != [] && Newlines(Hydrate(chars, lineArray)) == |chars| ==> Ended(Hydrate(chars, lineArray))
    decreases |chars|
  {
    if chars != [] {
      var l := lineArray[chars[0]];
      LineNewlines(l);
      NewlinesConcat(l, Hydrate(chars[1..], lineArray));
      HydratedNewlines(chars[1..], lineArray);
      if |chars| == 1 {
        assert Hydrate(chars[1..], lineArray) == [] && l + [] == l;
      }
    }
  }

  /** A line and more lines behind it are not what the code units of the lines behind it decode to. */
  lemma LineMissing(line: Text, rest: seq<Text>, chars: Text, lineArray: seq<Text>)
    requires GoodLines([line] + rest) && |chars| == |rest|
    requires Within(chars, |lineArray|) && forall k :: 0 <= k < |lineArray| ==> GoodLine(lineArray[k])
    ensures line + Joined(rest) != Hydrate(chars, lineArray)
  {
    var lines := [line] + rest;
    assert lines[0] == line && lines[1..] == rest;
    JoinedNewlines(lines);
    HydratedNewlines(chars, lineArray);
  }

  lemma {:induction false} EncodeConcat(x: seq<Text>, y: seq<Text>, hash: map<Text, nat>)
    requires forall l :: l in x + y ==> l in hash
    ensures (forall l :: l in x ==> l in hash) && (forall l :: l in y ==> l in hash)
    ensures Encode(x + y, hash) == Encode(x, hash) + Encode(y, hash)
    decreases |x|
  {
    forall l | l in x || l in y ensures l in x + y {}
    if x == [] {
      assert x + y == y;
    } else {
      assert (x + y)[0] == x[0] && (x + y)[1..] == x[1..] + y;
      forall l | l in x[1..] + y ensures l in hash { assert l in x + y; }
      EncodeConcat(x[1..], y, hash);
    }
  }

  lemma {:induction false} EncodeLength(lines: seq<Text>, hash: map<Text, nat>)
    requires forall l :: l in lines ==> l in hash
    ensures |Encode(lines, hash)| == |lines|
  {
    if lines != [] {
      EncodeLength(lines[1..], hash);
    }
  }

  lemma {:induction false} JoinedConcat(x: seq<Text>, y: seq<Text>)
    ensures Joined(x + y) == Joined(x) + Joined(y)
    decreases |x|
  {
    if x == [] {
      assert x + y == y;
    } else {
      assert (x + y)[0] == x[0] && (x + y)[1..] == x[1..] + y;
      JoinedConcat(x[1..], y);
      Assoc(x[0], Joined(x[1..]), Joined(y));
    }
  }

  /** The line with number 65536 is coded as 0, the blank entry: no text that has it comes back. */
  lemma BlankLine(text: Text, before: seq<Text>, line: Text, rest: seq<Text>, hash: map<Text, nat>, lineArray: seq<Text>)
    requires Lines(text) == before + ([line] + rest) && (forall l :: l in Lines(text) ==> l in hash)
    requires Numbered(hash) && TableOf(lineArray, hash) && (forall k :: 0 <= k < |lineArray| ==> GoodLine(lineArray[k]))
    requires line in hash && hash[line] == CHAR_LIMIT && forall l :: l in before ==> l in hash && hash[l] < CHAR_LIMIT
    ensures Within(Encode(Lines(text), hash), |lineArray|)
    ensures Hydrate(Encode(Lines(text), hash), lineArray) != text
  {
    EncodeInRange(Lines(text), hash);
    JoinedLines(text);
    LinesAreGood(text);
    assert GoodLines([line] + rest) by { GoodTail(before, [line] + rest); }
    hide Lines, Hydrate, Encode, Joined, GoodLines, Numbered, TableOf;
    EncodeConcat(before, [line] + rest, hash);
    EncodeConcat([line], rest, hash);
    EncodeLength(rest, hash);
    var a, b, c := Encode(before, hash), Encode([line], hash), Encode(rest, hash);
    WithinConcat(a, b + c, |lineArray|);
    HydrateConcat(a, b + c, lineArray);
    HydrateConcat(b, c, lineArray);
    CodedBlank(line, hash, lineArray);
    DecodesSmall(before, hash, lineArray);
    JoinedConcat(before, [line] + rest);
    JoinedConcat([line], rest);
    JoinedOne(line);
    LineMissing(line, rest, c, lineArray);
    assert [] + Hydrate(c, lineArray) == Hydrate(c, lineArray);
    SameFront(Joined(before), line + Joined(rest), Hydrate(c, lineArray));
  }

  lemma JoinedOne(line: Text)
    ensures Joined([line]) == line
  {
    assert [line][1..] == [] && line + [] == line;
  }

  lemma GoodTail(before: seq<Text>, lines: seq<Text>)
    requires GoodLines(before + lines)
    ensures GoodLines(lines)
  {
    forall i | 0 <= i < |lines| ensures GoodLine(lines[i]) && lines[i] != [] && (i < |lines| - 1 ==> Ended(lines[i])) {
      assert (before + lines)[|before| + i] == lines[i];
    }
  }

  lemma CodedBlank(line: Text, hash: map<Text, nat>, lineArray: seq<Text>)
    requires line in hash && hash[line] == CHAR_LIMIT && TableOf(lineArray, hash)
    ensures Within(Encode([line], hash), |lineArray|) && Hydrate(Encode([line], hash), lineArray) == []
  {
    assert [line][1..] == [];
    var chars := Encode([line], hash);
    assert chars == [0] + [] == [0] && chars[1..] == [];
  }

  lemma {:induction false} DecodesSmall(lines: seq<Text>, hash: map<Text, nat>, lineArray: seq<Text>)
    requires Numbered(hash) && TableOf(lineArray, hash) && forall l :: l in lines ==> l in hash && hash[l] < CHAR_LIMIT
    ensures Within(Encode(lines, hash), |lineArray|) && Hydrate(Encode(lines, hash), lineArray) == Joined(lines)
  {
    EncodeInRange(lines, hash);
    if lines != [] {
      assert lines[0] in lines && hash[lines[0]] % CHAR_LIMIT == hash[lines[0]];
      DecodesSmall(lines[1..], hash, lineArray);
    }
  }

  /** With more distinct lines than code units, the text in which line number 65536 first appears is lost. */
  lemma TooManyLines(text: Text, hash0: map<Text, nat>, hash: map<Text, nat>, lineArray: seq<Text>)
    requires Numbered(hash0) && |hash0| < CHAR_LIMIT <= |Numbering(hash0, Lines(text))|
    requires Numbered(hash) && Extends(Numbering(hash0, Lines(text)), hash) && TableOf(lineArray, hash)
    requires forall k :: 0 <= k < |lineArray| ==> GoodLine(lineArray[k])
    ensures forall l :: l in Lines(text) ==> l in hash
    ensures Within(Encode(Lines(text), hash), |lineArray|) && Hydrate(Encode(Lines(text), hash), lineArray) != text
  {
    hide Lines, Hydrate, Encode, Numbering, Numbered, TableOf, GoodLine;
    var lines := Lines(text);
    NumberingFacts(hash0, lines);
    var i := FirstWith(hash0, lines, CHAR_LIMIT);
    forall l | l in lines[..i] ensures l in hash && hash[l] < CHAR_LIMIT {
      var j :| 0 <= j < i && lines[j] == l;
    }
    assert lines[i] in lines;
    Around(lines, i);
    Assoc(lines[..i], [lines[i]], lines[i + 1..]);
    BlankLine(text, lines[..i], lines[i], lines[i + 1..], hash, lineArray);
  }

  /** Number i in four letters from a to p, and a newline. */
  function Spell(i: nat): Text
    requires i < CHAR_LIMIT
  {
    [97 + i / 16 / 16 / 16, 97 + i / 16 / 16 % 16, 97 + i / 16 % 16, 97 + i % 16, NEWLINE]
  }

  /** The first n numbers, a line for each. */
  function Spelled(n: nat): seq<Text>
    requires n <= CHAR_LIMIT
  {
    seq(n, i requires 0 <= i < n => Spell(i))
  }

  /** A text of n letters z, without a newline. */
  function Letters(n: nat): Text {
    seq(n, _ => 122)
  }

  lemma SpellDiffers(i: nat, j: nat)
    requires i < CHAR_LIMIT && j < CHAR_LIMIT && Spell(i) == Spell(j)
    ensures i == j
  {
    assert Spell(i)[0] == Spell(j)[0] && Spell(i)[1] == Spell(j)[1] && Spell(i)[2] == Spell(j)[2] && Spell(i)[3] == Spell(j)[3];
    assert i / 16 / 16 == j / 16 / 16;
    assert i / 16 == j / 16;
  }

  lemma {:induction false} LinesOfJoined(lines: seq<Text>)
    requires forall i :: 0 <= i < |lines| ==> GoodLine(lines[i]) && Ended(lines[i])
    ensures Lines(Joined(lines)) == lines
  {
    if lines != [] {
      LinesOfJoined(lines[1..]);
      hide Lines;
      FrontLine(lines[0], Joined(lines[1..]));
      LinesStep(Joined(lines), |lines[0]|);
    }
  }

  lemma FrontLine(line: Text, rest: Text)
    requires GoodLine(line) && Ended(line)
    ensures var text, n := line + rest, |line|;
            && text[..n] == line && text[n..] == rest && text[n - 1] == NEWLINE
            && forall i :: 0 <= i < n - 1 ==> text[i] != NEWLINE
  {
    assert forall i :: 0 <= i < |line| ==> (line + rest)[i] == line[i];
  }

  /** As many lines as there are, if they all differ. */
  lemma {:induction false} DifferentLines(lines: seq<Text>)
    requires forall i, j :: 0 <= i < j < |lines| ==> lines[i] != lines[j]
    ensures |SetOf(lines)| == |lines|
  {
    if lines != [] {
      var front, last := lines[..|lines| - 1], lines[|lines| - 1];
      DifferentLines(front);
      SetOfAppend(front, last);
      assert front + [last] == lines;
      assert last !in SetOf(front);
    }
  }

  lemma {:induction false} JoinedAvoids(lines: seq<Text>, n: nat, ch: Char16)
    requires forall i :: 0 <= i < |lines| ==> |lines[i]| == n && ch !in lines[i]
    ensures ch !in Joined(lines) && |Joined(lines)| == n * |lines|
  {
    if lines != [] {
      JoinedAvoids(lines[1..], n, ch);
      assert n * |lines| == n + n * (|lines| - 1);
    }
  }

  lemma {:induction false} JoinedEnds(lines: seq<Text>)
    requires lines != [] && forall i :: 0 <= i < |lines| ==> Ended(lines[i])
    ensures Ended(Joined(lines)) && Ended(lines[0]) && Joined(lines)[0] == lines[0][0]
  {
    if |lines| > 1 {
      JoinedEnds(lines[1..]);
    } else {
      assert Joined(lines[1..]) == [];
    }
  }

  /** What the text of the spelled numbers looks like. */
  lemma SpelledText(n: nat)
    requires 0 < n <= CHAR_LIMIT
    ensures var text := Joined(Spelled(n));
            && |text| == 5 * n && 122 !in text && text[0] == 97 && text[|text| - 1] == NEWLINE
            && |LineSet(text)| == n && forall l :: l in LineSet(text) ==> |l| == 5
  {
    hide Joined, Lines;
    var lines := Spelled(n);
    assert lines[0] == Spell(0);
    forall i, j | 0 <= i < j < |lines| ensures lines[i] != lines[j] {
      if lines[i] == lines[j] {
        SpellDiffers(i, j);
      }
    }
    forall i | 0 <= i < |lines| ensures |lines[i]| == 5 && 122 !in lines[i] && GoodLine(lines[i]) && Ended(lines[i]) {
      assert lines[i] == Spell(i);
    }
    LinesOfJoined(lines);
    DifferentLines(lines);
    JoinedAvoids(lines, 5, 122);
    JoinedEnds(lines);
  }

  lemma LettersAreOneLine(n: nat)
    requires 0 < n
    ensures LineSet(Letters(n)) == {Letters(n)}
  {
    var text := Letters(n);
    FirstLineAt(text, n);
    assert text[..n] == text && text[n..] == [];
    assert Lines(text) == [text] + Lines([]);
    assert SetOf([text]) == {text};
  }

  /** One line too many: 65535 numbers in letters, and a text of one other line. */
  lemma SpelledAreTooMany(k: nat)
    requires 5 < k
    ensures |LineSet(Joined(Spelled(CHAR_LIMIT - 1))) + LineSet(Letters(k))| == CHAR_LIMIT
  {
    hide Joined, LineSet, Spelled;
    SpelledText(CHAR_LIMIT - 1);
    LettersAreOneLine(k);
    var lines := LineSet(Joined(Spelled(CHAR_LIMIT - 1)));
    assert |Letters(k)| == k && Letters(k) !in lines;
    assert |lines + {Letters(k)}| == |lines| + 1;
  }

  /** Every entry of the table is a line of one of the texts, or blank. */
  lemma TableIsGood(text1: Text, text2: Text, lineArray: seq<Text>)
    requires forall k :: 0 <= k < |lineArray| ==> lineArray[k] == [] || lineArray[k] in LineSet(text1) + LineSet(text2)
    ensures forall k :: 0 <= k < |lineArray| ==> GoodLine(lineArray[k])
  {
    LinesAreGood(text1);
    LinesAreGood(text2);
    hide Lines;
    forall k | 0 <= k < |lineArray| ensures GoodLine(lineArray[k]) {
      var l := lineArray[k];
      if l in LineSet(text1) {
        var i :| 0 <= i < |Lines(text1)| && Lines(text1)[i] == l;
      } else if l in LineSet(text2) {
        var i :| 0 <= i < |Lines(text2)| && Lines(text2)[i] == l;
      }
    }
  }

  /** diff_linesToChars: both texts encoded with one numbering, and the table to undo it.  Both texts come
      back if and only if they have fewer distinct lines than there are code units. */
  method LinesToChars(text1: Text, text2: Text)
      returns (chars1: Text, chars2: Text, lineArray: seq<Text>, ghost hash: map<Text, nat>)
    ensures Numbered(hash) && TableOf(lineArray, hash) && hash.Keys == LineSet(text1) + LineSet(text2)
    ensures Coded(text1, chars1, hash) && Coded(text2, chars2, hash)
    ensures Within(chars1, |lineArray|) && Within(chars2, |lineArray|)
    ensures Hydrate(chars1, lineArray) == text1 && Hydrate(chars2, lineArray) == text2
       <==> |LineSet(text1) + LineSet(text2)| < CHAR_LIMIT
  {
    hide Encode, Lines, Hydrate, LineSet, SetOf, Joined, Within, Numbering, GoodLine, Numbered, TableOf, Extends, Coded;
    var hash1, hash2;
    NoNumbers();
    chars1, hash1 := Munge(text1, map[]);
    chars2, hash2 := Munge(text2, hash1);
    hash := hash2;
    assert hash.Keys == LineSet(text1) + LineSet(text2);
    assert |hash| == |hash.Keys|;
    lineArray := TableFrom(hash2);
    CodedTogether(text1, text2, chars1, chars2, hash1, hash2, lineArray);
    CodedIs(text1, chars1, hash);
    CodedIs(text2, chars2, hash);
  }

  /** A code unit for every line, by the numbers given. */
  ghost predicate Coded(text: Text, chars: Text, hash: map<Text, nat>) {
    (forall l :: l in Lines(text) ==> l in hash) && chars == Encode(Lines(text), hash)
  }

  lemma CodedIs(text: Text, chars: Text, hash: map<Text, nat>)
    requires (forall l :: l in Lines(text) ==> l in hash) && chars == Encode(Lines(text), hash)
    ensures Coded(text, chars, hash)
  {
  }

  lemma NoNumbers()
    ensures Numbered(map[])
  {
  }

  lemma CodedTogether(text1: Text, text2: Text, chars1: Text, chars2: Text, hash1: map<Text, nat>, hash2: map<Text, nat>,
                      lineArray: seq<Text>)
    requires Numbered(hash1) && hash1.Keys == LineSet(text1) && hash1 == Numbering(map[], Lines(text1))
    requires Numbered(hash2) && hash2.Keys == LineSet(text1) + LineSet(text2) && hash2 == Numbering(hash1, Lines(text2))
    requires Extends(hash1, hash2) && TableOf(lineArray, hash2)
    requires (forall l :: l in Lines(text1) ==> l in hash1) ==> chars1 == Encode(Lines(text1), hash1)
    requires (forall l :: l in Lines(text2) ==> l in hash2) ==> chars2 == Encode(Lines(text2), hash2)
    requires forall k :: 0 <= k < |lineArray| ==> lineArray[k] == [] || lineArray[k] in hash2
    ensures (forall l :: l in Lines(text1) ==> l in hash2) && (forall l :: l in Lines(text2) ==> l in hash2)
    ensures chars1 == Encode(Lines(text1), hash2) && chars2 == Encode(Lines(text2), hash2)
    ensures Within(chars1, |lineArray|) && Within(chars2, |lineArray|)
    ensures Hydrate(chars1, lineArray) == text1 && Hydrate(chars2, lineArray) == text2 <==> |hash2| < CHAR_LIMIT
  {
    hide Encode, Lines, Hydrate, LineSet, SetOf, Joined, Within, Numbering, GoodLine;
    LinesKnown(text1, hash1);
    LinesKnown(text2, hash2);
    EncodeExtends(Lines(text1), hash1, hash2);
    EncodeInRange(Lines(text1), hash2);
    EncodeInRange(Lines(text2), hash2);
    TableIsGood(text1, text2, lineArray);
    if |hash2| < CHAR_LIMIT {
      HydrateEncode(Lines(text1), hash2, lineArray);
      HydrateEncode(Lines(text2), hash2, lineArray);
      JoinedLines(text1);
      JoinedLines(text2);
    } else if CHAR_LIMIT <= |hash1| {
      TooManyLines(text1, map[], hash2, lineArray);
    } else {
      TooManyLines(text2, hash1, hash2, lineArray);
    }
  }

  lemma LinesKnown(text: Text, hash: map<Text, nat>)
    requires LineSet(text) <= hash.Keys
    ensures forall l :: l in Lines(text) ==> l in hash
  {
    forall l | l in Lines(text) ensures l in hash {
      assert l in LineSet(text);
    }
  }

  /** The vector of lines, filled entry by entry from the table of numbers. */
  method TableFrom(hash: map<Text, nat>) returns (lineArray: seq<Text>)
    requires Numbered(hash)
    ensures TableOf(lineArray, hash) && forall k :: 0 <= k < |lineArray| ==> lineArray[k] == [] || lineArray[k] in hash
  {
    lineArray := seq(|hash| + 1, _ => []);
    var todo := hash.Keys;
    while todo != {}
      invariant todo <= hash.Keys && |lineArray| == |hash| + 1 && lineArray[0] == []
      invariant forall l :: l in hash && l !in todo ==> lineArray[hash[l]] == l
      invariant forall k :: 0 <= k < |lineArray| ==> lineArray[k] == [] || lineArray[k] in hash
      decreases todo
    {
      var l :| l in todo;
      lineArray := lineArray[hash[l] := l];
      todo := todo - {l};
    }
  }

  ghost predicate InTable(diffs: seq<Diff>, lineArray: seq<Text>) {
    forall i :: 0 <= i < |diffs| ==> Within(diffs[i].text, |lineArray|)
  }

  /** Every character of a record is a character of one of the texts. */
  lemma {:induction false} TextsInTable(diffs: seq<Diff>, lineArray: seq<Text>)
    requires Within(Text1(diffs), |lineArray|) && Within(Text2(diffs), |lineArray|)
    ensures InTable(diffs, lineArray)
  {
    if diffs != [] {
      WithinConcat(Source(diffs[0]), Text1(diffs[1..]), |lineArray|);
      WithinConcat(Destination(diffs[0]), Text2(diffs[1..]), |lineArray|);
      TextsInTable(diffs[1..], lineArray);
    }
  }

  ghost function Hydrated(diffs: seq<Diff>, lineArray: seq<Text>): seq<Diff>
    requires InTable(diffs, lineArray)
  {
    if diffs == [] then []
    else [Diff(diffs[0].op, Hydrate(diffs[0].text, lineArray))] + Hydrated(diffs[1..], lineArray)
  }

  /** Replacing every record's characters by their lines does the same to both texts. */
  lemma {:induction false} HydratedTexts(diffs: seq<Diff>, lineArray: seq<Text>)
    requires Within(Text1(diffs), |lineArray|) && Within(Text2(diffs), |lineArray|)
    ensures InTable(diffs, lineArray)
    ensures Text1(Hydrated(diffs, lineArray)) == Hydrate(Text1(diffs), lineArray)
    ensures Text2(Hydrated(diffs, lineArray)) == Hydrate(Text2(diffs), lineArray)
  {
    TextsInTable(diffs, lineArray);
    if diffs != [] {
      var d, r := diffs[0], diffs[1..];
      WithinConcat(Source(d), Text1(r), |lineArray|);
      WithinConcat(Destination(d), Text2(r), |lineArray|);
      HydratedTexts(r, lineArray);
      HydrateConcat(Source(d), Text1(r), lineArray);
      HydrateConcat(Destination(d), Text2(r), lineArray);
    }
  }

  /** The lines of one record, appended one after the other. */
  method HydrateText(chars: Text, lineArray: seq<Text>) returns (text: Text)
    requires Within(chars, |lineArray|)
    ensures text == Hydrate(chars, lineArray)
  {
    text := [];
    for y := 0 to |chars|
      invariant Within(chars[..y], |lineArray|) && text == Hydrate(chars[..y], lineArray)
    {
      assert chars[..y + 1] == chars[..y] + [chars[y]];
      HydrateConcat(chars[..y], [chars[y]], lineArray);
      text := text + lineArray[chars[y]];
    }
    assert chars[..|chars|] == chars;
  }

  /** diff_charsToLines: rewrites the text of every record in place. */
  method CharsToLines(diffs0: seq<Diff>, lineArray: seq<Text>) returns (diffs: seq<Diff>)
    requires InTable(diffs0, lineArray)
    ensures diffs == Hydrated(diffs0, lineArray)
  {
    diffs := diffs0;
    HydratedAt(diffs0, lineArray);
    hide Hydrate, Within, Hydrated;
    for i := 0 to |diffs0|
      invariant |diffs| == |diffs0|
      invariant forall j :: i <= j < |diffs| ==> diffs[j] == diffs0[j]
      invariant forall j :: 0 <= j < i ==> diffs[j] == Hydrated(diffs0, lineArray)[j]
    {
      var text := HydrateText(diffs[i].text, lineArray);
      diffs := diffs[i := Diff(diffs[i].op, text)];
    }
  }

  lemma {:induction false} HydratedAt(diffs: seq<Diff>, lineArray: seq<Text>)
    requires InTable(diffs, lineArray)
    ensures |Hydrated(diffs, lineArray)| == |diffs|
    ensures forall i :: 0 <= i < |diffs| ==>
              Hydrated(diffs, lineArray)[i] == Diff(diffs[i].op, Hydrate(diffs[i].text, lineArray))
  {
    if diffs != [] {
      HydratedAt(diffs[1..], lineArray);
    }
  }

  // ----- when line mode is faithful -----

  /** Whatever parts of the texts reach line mode, their distinct lines can be numbered. */
  ghost predicate LinesFit(text1: Text, text2: Text) {
    forall i, j, k, l :: 0 <= i <= j <= |text1| && 0 <= k <= l <= |text2| ==>
      |LineSet(text1[i..j]) + LineSet(text2[k..l])| < CHAR_LIMIT
  }

  lemma LinesFitWithin(text1: Text, text2: Text, i: int, j: int, k: int, l: int)
    requires LinesFit(text1, text2) && 0 <= i <= j <= |text1| && 0 <= k <= l <= |text2|
    ensures LinesFit(text1[i..j], text2[k..l])
  {
    hide LineSet;
    forall i', j', k', l' | 0 <= i' <= j' <= j - i && 0 <= k' <= l' <= l - k
      ensures |LineSet(text1[i..j][i'..j']) + LineSet(text2[k..l][k'..l'])| < CHAR_LIMIT
    {
      SliceOfSlice(text1, i, j, i', j');
      SliceOfSlice(text2, k, l, k', l');
    }
  }

  lemma SliceOfSlice(t: Text, i: int, j: int, i': int, j': int)
    requires 0 <= i <= j <= |t| && 0 <= i' <= j' <= j - i
    ensures t[i..j][i'..j'] == t[i + i'..i + j']
  {
    var a, b := t[i..j][i'..j'], t[i + i'..i + j'];
    forall k | 0 <= k < |a| ensures a[k] == b[k] {}
  }

  lemma LinesFitHere(text1: Text, text2: Text)
    requires LinesFit(text1, text2)
    ensures |LineSet(text1) + LineSet(text2)| < CHAR_LIMIT
  {
    assert text1[0..|text1|] == text1 && text2[0..|text2|] == text2;
  }

  /** Cutting a text at its end adds at most one partial line. */
  lemma {:induction false} LinesOfTake(text: Text, j: nat) returns (p: Text)
    requires j <= |text|
    ensures LineSet(text[..j]) <= LineSet(text) + {p}
    decreases |text|
  {
    p := text[..j];
    if j == 0 {
      assert text[..j] == [] && LineSet([]) == {};
    } else {
      var n := FirstLine(text);
      LineSetStep(text);
      if j <= n {
        FirstLineAt(text[..j], j);
        LineSetStep(text[..j]);
        assert text[..j][..j] == p && text[..j][j..] == [];
      } else {
        p := LinesOfTake(text[n..], j - n);
        FirstLineAt(text[..j], n);
        LineSetStep(text[..j]);
        assert text[..j][n..] == text[n..][..j - n] && text[..j][..n] == text[..n];
      }
    }
  }

  /** Cutting a text at its start adds at most one partial line. */
  lemma {:induction false} LinesOfDrop(text: Text, i: nat) returns (p: Text)
    requires i <= |text|
    ensures LineSet(text[i..]) <= LineSet(text) + {p}
    decreases |text|
  {
    p := [];
    if i < |text| {
      var n := FirstLine(text);
      LineSetStep(text);
      if i < n {
        p := text[i..n];
        PartialFirst(text, i, n);
      } else {
        p := LinesOfDrop(text[n..], i - n);
        DropOfDrop(text, n, i - n);
      }
    }
  }

  /** A text starting inside its first line. */
  lemma PartialFirst(text: Text, i: nat, n: nat)
    requires i < n == FirstLine(text)
    ensures LineSet(text[i..]) == {text[i..n]} + LineSet(text[n..])
  {
    hide LineSet, FirstLine;
    PartialLength(text, i, n);
    LineSetStep(text[i..]);
    SliceOfDrop(text, i, n - i);
    DropOfDrop(text, i, n - i);
  }

  lemma PartialLength(text: Text, i: nat, n: nat)
    requires i < n == FirstLine(text)
    ensures FirstLine(text[i..]) == n - i
  {
    var rest := text[i..];
    assert forall k :: 0 <= k < n - i - 1 ==> rest[k] == text[i + k] != NEWLINE;
    assert n < |text| ==> rest[n - i - 1] == NEWLINE;
    hide FirstLine;
    FirstLineAt(rest, n - i);
  }

  lemma LineSetStep(text: Text)
    requires text != []
    ensures LineSet(text) == {text[..FirstLine(text)]} + LineSet(text[FirstLine(text)..])
    ensures LineSet([]) == {}
  {
    var f, r := text[..FirstLine(text)], Lines(text[FirstLine(text)..]);
    assert SetOf([f] + r) == {f} + SetOf(r);
  }

  lemma {:induction false} LinesAtMost(text: Text)
    ensures |Lines(text)| <= |text| && |LineSet(text)| <= |text|
    decreases |text|
  {
    if text != [] {
      var rest := text[FirstLine(text)..];
      LinesAtMost(rest);
      assert LineSet(text) == {text[..FirstLine(text)]} + LineSet(rest) by { SetOfFront(text[..FirstLine(text)], Lines(rest)); }
    } else {
      assert LineSet(text) == {};
    }
  }

  lemma SetOfFront(line: Text, lines: seq<Text>)
    ensures SetOf([line] + lines) == {line} + SetOf(lines)
  {
  }

  /** Short texts always fit. */
  lemma ShortTextsFit(text1: Text, text2: Text)
    requires |text1| + |text2| < CHAR_LIMIT
    ensures LinesFit(text1, text2)
  {
    forall i, j, k, l | 0 <= i <= j <= |text1| && 0 <= k <= l <= |text2|
      ensures |LineSet(text1[i..j]) + LineSet(text2[k..l])| < CHAR_LIMIT
    {
      hide LineSet;
      LinesAtMost(text1[i..j]);
      LinesAtMost(text2[k..l]);
      UnionAtMost(LineSet(text1[i..j]), LineSet(text2[k..l]));
    }
  }

  lemma UnionAtMost(x: set<Text>, y: set<Text>)
    ensures |x + y| <= |x| + |y|
  {
    assert x + y == x + (y - x);
    assert y == (y - x) + (y * x);
  }

  /** Four numbers to spare for the partial lines at the cuts are enough. */
  lemma FewLinesFit(text1: Text, text2: Text)
    requires |LineSet(text1) + LineSet(text2)| + 4 < CHAR_LIMIT
    ensures LinesFit(text1, text2)
  {
    forall i, j, k, l | 0 <= i <= j <= |text1| && 0 <= k <= l <= |text2|
      ensures |LineSet(text1[i..j]) + LineSet(text2[k..l])| < CHAR_LIMIT
    {
      hide LineSet;
      var p := LinesOfTake(text1, j);
      var q := LinesOfDrop(text1[..j], i);
      var r := LinesOfTake(text2, l);
      var s := LinesOfDrop(text2[..l], k);
      assert text1[..j][i..] == text1[i..j] && text2[..l][k..] == text2[k..l];
      var all := LineSet(text1) + LineSet(text2);
      Fits(LineSet(text1[i..j]) + LineSet(text2[k..l]), all, p, q, r, s);
    }
  }

  lemma Fits(part: set<Text>, all: set<Text>, p: Text, q: Text, r: Text, s: Text)
    requires part <= all + {p} + {q} + {r} + {s}
    ensures |part| <= |all| + 4
  {
    Subset(all, {p});
    Subset(all + {p}, {q});
    Subset(all + {p} + {q}, {r});
    Subset(all + {p} + {q} + {r}, {s});
    var big := all + {p} + {q} + {r} + {s};
    assert big == part + (big - part);
    assert |big| == |part| + |big - part|;
  }

  lemma Subset(x: set<Text>, y: set<Text>)
    ensures |x + y| <= |x| + |y|
  {
  }
}
