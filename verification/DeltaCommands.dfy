/** The delta form of a file: copies of the parent's blocks and literal bytes, how they are written as
    32-bit words, and the decoder that says what they mean. */
module DeltaCommands {
  import opened Bytes
  import opened Options

  const DELTA_BUFFER_SIZE := 1024 * 1024

  datatype Command = Copy(block: nat) | Literal(bytes: seq<Byte>)

  /** Block i of a file cut into blocks of `size` bytes. */
  function Block(file: seq<Byte>, size: nat, i: nat): (b: seq<Byte>)
    requires size * (i + 1) <= |file|
    ensures |b| == size
  {
    BlockEnd(size, i);
    file[size * i..size * (i + 1)]
  }

  lemma BlockEnd(size: nat, i: nat)
    ensures size * (i + 1) == size * i + size
  {
  }

  predicate WellFormed(c: Command, parent: seq<Byte>, size: nat) {
    match c
    case Copy(i) => i < WORD / 2 && size * (i + 1) <= |parent|
    case Literal(bytes) => 0 < |bytes| < WORD / 2
  }

  predicate AllWellFormed(cmds: seq<Command>, parent: seq<Byte>, size: nat) {
    forall i :: 0 <= i < |cmds| ==> WellFormed(cmds[i], parent, size)
  }

  function Meaning(c: Command, parent: seq<Byte>, size: nat): seq<Byte>
    requires WellFormed(c, parent, size)
  {
    match c
    case Copy(i) => Block(parent, size, i)
    case Literal(bytes) => bytes
  }

  /** The file that the commands stand for. */
  function Decode(cmds: seq<Command>, parent: seq<Byte>, size: nat): seq<Byte>
    requires AllWellFormed(cmds, parent, size)
  {
    if cmds == [] then []
    else Decode(cmds[..|cmds| - 1], parent, size) + Meaning(cmds[|cmds| - 1], parent, size)
  }

  lemma DecodeAppend(cmds: seq<Command>, c: Command, parent: seq<Byte>, size: nat)
    requires AllWellFormed(cmds, parent, size) && WellFormed(c, parent, size)
    ensures AllWellFormed(cmds + [c], parent, size)
    ensures Decode(cmds + [c], parent, size) == Decode(cmds, parent, size) + Meaning(c, parent, size)
  {
    assert (cmds + [c])[..|cmds|] == cmds;
  }

  // ----- the written form -----

  /** The command word: a block number, or the negated length of a literal, as an unsigned word. */
  function Word(c: Command): int {
    match c
    case Copy(i) => i
    case Literal(bytes) => WORD - |bytes|
  }

  function Data(c: Command): seq<Byte> {
    match c
    case Copy(_) => []
    case Literal(bytes) => bytes
  }

  /** One command as written; the encoded form writes the difference from the word before. */
  function Written(encoded: bool, prev: nat, c: Command): seq<Byte> {
    Le32(Wrap(if encoded then Word(c) - prev else Word(c))) + Data(c)
  }

  /** The word after which the next command is written. */
  function LastWord(prev: nat, cmds: seq<Command>): nat {
    if cmds == [] then prev else Wrap(Word(cmds[|cmds| - 1]))
  }

  function Serialize(encoded: bool, prev: nat, cmds: seq<Command>): seq<Byte>
    decreases |cmds|
  {
    if cmds == [] then []
    else Written(encoded, prev, cmds[0]) + Serialize(encoded, Wrap(Word(cmds[0])), cmds[1..])
  }

  lemma SerializeFront(encoded: bool, prev: nat, c: Command, cmds: seq<Command>)
    ensures Serialize(encoded, prev, [c] + cmds)
         == Written(encoded, prev, c) + Serialize(encoded, Wrap(Word(c)), cmds)
  {
    hide Written;
    assert ([c] + cmds)[1..] == cmds;
  }

  lemma {:induction false} SerializeAppend(encoded: bool, prev: nat, cmds: seq<Command>, c: Command)
    ensures Serialize(encoded, prev, cmds + [c])
         == Serialize(encoded, prev, cmds) + Written(encoded, LastWord(prev, cmds), c)
    decreases |cmds|
  {
    if cmds == [] {
      hide Written, Wrap, Word;
      assert [c][1..] == [];
    } else {
      hide Written, Wrap, Word, Serialize;
      var first, more, next := cmds[0], cmds[1..], Wrap(Word(cmds[0]));
      SerializeAppend(encoded, next, more, c);
      SerializeFront(encoded, prev, first, more);
      SerializeFront(encoded, prev, first, more + [c]);
      assert cmds == [first] + more && cmds + [c] == [first] + (more + [c]);
    }
  }

  /** The decoder's reading of the bytes; None if they are cut short. */
  function Parse(encoded: bool, prev: nat, bytes: seq<Byte>): Option<seq<Command>>
    decreases |bytes|
  {
    if bytes == [] then Some([])
    else if |bytes| < 4 then None
    else
      var w := FromLe32(bytes[..4]);
      var word := if encoded then Wrap(w + prev) else w;
      var n := if word < WORD / 2 then 0 else WORD - word;
      if |bytes| - 4 < n then None
      else
        var c := if word < WORD / 2 then Copy(word) else Literal(bytes[4..4 + n]);
        Cons(c, Parse(encoded, word, bytes[4 + n..]))
  }

  function Cons(c: Command, rest: Option<seq<Command>>): Option<seq<Command>> {
    match rest
    case None => None
    case Some(cmds) => Some([c] + cmds)
  }

  /** The word read back is the word written, in both forms. */
  lemma WordRoundTrip(encoded: bool, prev: nat, word: nat)
    requires word < WORD
    ensures Wrap((if encoded then Wrap(word - prev) else Wrap(word)) + if encoded then prev else 0) == word
  {
  }

  lemma ParseOne(encoded: bool, prev: nat, c: Command, rest: seq<Byte>, parent: seq<Byte>, size: nat)
    requires WellFormed(c, parent, size)
    ensures Parse(encoded, prev, Written(encoded, prev, c) + rest) == Cons(c, Parse(encoded, Wrap(Word(c)), rest))
  {
    var bytes, word := Written(encoded, prev, c) + rest, Word(c);
    WordRoundTrip(encoded, prev, word);
    WrittenParts(encoded, prev, c, rest);
    ParseStep(encoded, prev, bytes);
    hide Le32, FromLe32, Wrap, Written, Parse, Cons;
  }

  lemma ParseStep(encoded: bool, prev: nat, bytes: seq<Byte>)
    requires 4 <= |bytes|
    ensures var w := FromLe32(bytes[..4]);
            var word := if encoded then Wrap(w + prev) else w;
            var n := if word < WORD / 2 then 0 else WORD - word;
            4 + n <= |bytes| ==>
              Parse(encoded, prev, bytes) == Cons(if word < WORD / 2 then Copy(word) else Literal(bytes[4..4 + n]),
                                                  Parse(encoded, word, bytes[4 + n..]))
  {
    hide FromLe32, Wrap, Cons;
  }

  /** The word, the data, and the rest. */
  lemma WrittenParts(encoded: bool, prev: nat, c: Command, rest: seq<Byte>)
    ensures var bytes, n := Written(encoded, prev, c) + rest, |Data(c)|;
            && 4 + n <= |bytes| && FromLe32(bytes[..4]) == Wrap(if encoded then Word(c) - prev else Word(c))
            && bytes[4..4 + n] == Data(c) && bytes[4 + n..] == rest
  {
    var bytes := Written(encoded, prev, c) + rest;
    var written := Wrap(if encoded then Word(c) - prev else Word(c));
    Le32RoundTrip(written);
    hide Le32, FromLe32, Wrap;
    assert bytes[..4] == Le32(written);
    assert bytes[4..4 + |Data(c)|] == Data(c) && bytes[4 + |Data(c)|..] == rest;
  }

  /** Reading back what was written gives the same commands, raw or as differences. */
  lemma {:induction false} ParseSerialize(encoded: bool, prev: nat, cmds: seq<Command>, parent: seq<Byte>, size: nat)
    requires AllWellFormed(cmds, parent, size)
    ensures Parse(encoded, prev, Serialize(encoded, prev, cmds)) == Some(cmds)
    decreases |cmds|
  {
    hide Written;
    if cmds != [] {
      var next := Wrap(Word(cmds[0]));
      ParseSerialize(encoded, next, cmds[1..], parent, size);
      ParseOne(encoded, prev, cmds[0], Serialize(encoded, next, cmds[1..]), parent, size);
      assert [cmds[0]] + cmds[1..] == cmds;
    }
  }

  /** The whole decoder, from bytes to the file. */
  function DecodeBytes(encoded: bool, bytes: seq<Byte>, parent: seq<Byte>, size: nat): Option<seq<Byte>> {
    match Parse(encoded, 0, bytes)
    case Some(cmds) => if AllWellFormed(cmds, parent, size) then Some(Decode(cmds, parent, size)) else None
    case None => None
  }

  lemma DecodeSerialized(encoded: bool, cmds: seq<Command>, parent: seq<Byte>, size: nat)
    requires AllWellFormed(cmds, parent, size)
    ensures DecodeBytes(encoded, Serialize(encoded, 0, cmds), parent, size) == Some(Decode(cmds, parent, size))
  {
    hide Parse, Serialize, Decode;
    ParseSerialize(encoded, 0, cmds, parent, size);
  }
}
