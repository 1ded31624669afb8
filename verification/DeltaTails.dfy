/** Which tails of a delta are lost: what the exact condition of the encoder says of the files a user has. */
module DeltaTails {
  import opened Bytes
  import opened DeltaCommands
  import opened DeltaEncoder
  import opened SaveChoices

  /** Fewer bytes than a block behind a copy, or at the start, are never copied. */
  lemma {:induction false} ShortRun(parent: seq<Byte>, size: nat, copied: seq<Byte>, t: seq<Byte>)
    requires RunLength(parent, size, copied) == 0 && |t| < size
    ensures RunLength(parent, size, copied + t) == |t|
    decreases |t|
  {
    if t == [] {
      assert copied + t == copied;
    } else {
      var front, ch := t[..|t| - 1], t[|t| - 1];
      ShortRun(parent, size, copied, front);
      RunLengthPush(parent, size, copied + front, ch);
      assert copied + t == copied + front + [ch];
    }
  }

  /** A block of the parent behind a copy, or at the start, is copied. */
  lemma BlockCopied(parent: seq<Byte>, size: nat, copied: seq<Byte>, block: seq<Byte>)
    requires RunLength(parent, size, copied) == 0 && |block| == size > 0 && IsBlock(parent, size, block)
    ensures RunLength(parent, size, copied + block) == 0
  {
    hide IsBlock;
    var front, ch := block[..size - 1], block[size - 1];
    ShortRun(parent, size, copied, front);
    RunLengthPush(parent, size, copied + front, ch);
    assert copied + block == copied + front + [ch];
    assert Last(copied + block, size) == block;
  }

  /** So are the blocks of the parent, one after the other. */
  lemma {:induction false} ParentCopied(parent: seq<Byte>, size: nat, q: nat)
    requires 0 < size && size * q <= |parent|
    ensures RunLength(parent, size, parent[..size * q]) == 0
    decreases q
  {
    if q > 0 {
      assert size * q == size * (q - 1) + size;
      ParentCopied(parent, size, q - 1);
      var copied, block := parent[..size * (q - 1)], Block(parent, size, q - 1);
      InRange(size, q - 1, |parent|);
      BlockCopied(parent, size, copied, block);
      assert copied + block == parent[..size * q];
    }
  }

  /** A tail shorter than a block behind a copy survives exactly if the last block of the file begins with it. */
  lemma TailAfterCopy(parent: seq<Byte>, size: nat, fresh0: seq<Byte>, copied: seq<Byte>, t: seq<Byte>)
    requires |fresh0| == size <= |copied| && RunLength(parent, size, copied) == 0 && |t| < size
    ensures TailSurvives(parent, size, fresh0, copied + t) <==> Last(copied + t, size)[..|t|] == t
  {
    ShortRun(parent, size, copied, t);
    TailOfLongFile(parent, size, fresh0, copied + t);
    assert Last(copied + t, |t|) == t;
  }

  /** One byte behind a copy is lost unless it is the second byte of what was copied. */
  lemma TailLost(parent: seq<Byte>, size: nat, fresh0: seq<Byte>, copied: seq<Byte>, x: Byte)
    requires |fresh0| == size <= |copied| && 2 <= size && RunLength(parent, size, copied) == 0
    ensures TailSurvives(parent, size, fresh0, copied + [x]) <==> copied[|copied| - size + 1] == x
  {
    TailAfterCopy(parent, size, fresh0, copied, [x]);
    assert Last(copied + [x], size)[..1] == [copied[|copied| - size + 1]];
  }

  /** A file shorter than a block is lost unless the first contents of the ring happen to continue it. */
  lemma ShortTail(parent: seq<Byte>, size: nat, fresh0: seq<Byte>, file: seq<Byte>)
    requires |fresh0| == size && 0 < |file| < size
    ensures TailSurvives(parent, size, fresh0, file) <==> (fresh0[|file|..] + file)[..|file|] == file
  {
    assert [] + file == file;
    ShortRun(parent, size, [], file);
    assert Last(fresh0 + file, size) == fresh0[|file|..] + file && Last(file, |file|) == file;
  }

  /** Whatever the ring held at first, such a file is lost if it does not repeat itself. */
  lemma ShortTailLost(parent: seq<Byte>, size: nat, fresh0: seq<Byte>, file: seq<Byte>, i: nat)
    requires |fresh0| == size && 0 < |file| < size
    requires size - |file| <= i < |file| && file[i] != file[i - (size - |file|)]
    ensures !TailSurvives(parent, size, fresh0, file)
  {
    ShortTail(parent, size, fresh0, file);
    assert (fresh0[|file|..] + file)[..|file|][i] == file[i - (size - |file|)];
  }

  // ----- files as they are saved -----

  /** A file of 602 bytes is kept with an embedded signature in blocks of 86 bytes.  Its next version, one byte
      longer, may be a delta, and then that byte is lost unless it is the same as byte 517. */
  lemma AppendedByteLost(s: Settings, parent: seq<Byte>, fresh0: seq<Byte>, x: Byte)
    requires |parent| == 602 && |fresh0| == 86 && x != parent[517] && s.embedSignature && !s.rawContent && !s.localSignature
    ensures var c := Choose(s, 602, false, false, false); c.writeSignature && c.bsnt == 86
    ensures !Choose(s, 603, true, false, true).raw
    ensures !TailSurvives(parent, 86, fresh0, parent + [x])
  {
    hide BlockSize, TailSurvives, RunLength;
    ChoicesMade();
    ParentCopied(parent, 86, 7);
    assert parent[..602] == parent;
    TailLost(parent, 86, fresh0, parent, x);
  }

  /** A file of 30000 bytes is kept in blocks of 601 bytes.  A next version of 600 bytes may be a delta, and
      is lost, whatever the ring held at first, unless its bytes are all the same. */
  lemma ShortVersionLost(s: Settings, parent: seq<Byte>, fresh0: seq<Byte>, file: seq<Byte>, i: nat)
    requires |parent| == 30000 && |fresh0| == 601 && |file| == 600 && 0 < i < 600 && file[i] != file[i - 1]
    requires s.embedSignature && !s.rawContent && !s.localSignature
    ensures var c := Choose(s, 30000, false, false, false); c.writeSignature && c.bsnt == 601
    ensures !Choose(s, 600, true, false, true).raw
    ensures !TailSurvives(parent, 601, fresh0, file)
  {
    hide BlockSize, TailSurvives, RunLength;
    ChoicesMade();
    ShortTailLost(parent, 601, fresh0, file, i);
  }

  lemma ChoicesMade()
    ensures BlockSize(602, true) == 86 && BlockSize(30000, true) == 601
    ensures BlockSize(600, false) <= 600 && BlockSize(602, false) <= 602 && BlockSize(603, false) <= 603
            && BlockSize(30000, false) <= 30000
  {
    hide BlockSize;
    BlockSizeIs(602, true, 85);
    BlockSizeIs(30000, true, 600);
    BlocksFit(600, false);
    BlocksFit(602, false);
    BlocksFit(603, false);
    BlocksFit(30000, false);
  }
}
