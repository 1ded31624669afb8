/** The streaming delta encoder: byte by byte it slides a window over the new file, sends a copy command
    when the window is a block of the parent, and collects everything else as literal bytes. */
module DeltaEncoder {
  import opened Helpers
  import opened Bytes
  import opened Options
  import opened RingBuffers
  import opened RollingHash
  import opened DeltaCommands
  import opened Signatures
  import opened SignatureIndex
  import opened Blake3Tree
  import opened Blake3Subtree
  import opened Blake3Hasher

  // ----- windows -----

  /** The last n elements. */
  function Last<T>(s: seq<T>, n: nat): (r: seq<T>)
    requires n <= |s|
    ensures |r| == n
  {
    s[|s| - n..]
  }

  lemma LastPush<T>(s: seq<T>, n: nat, x: T)
    requires n <= |s|
    ensures Last(s + [x], n + 1) == Last(s, n) + [x]
    ensures 0 < n ==> Last(s + [x], n) == Last(s, n)[1..] + [x]
  {
  }

  lemma LastLast<T>(s: seq<T>, n: nat, k: nat)
    requires k <= n <= |s|
    ensures Last(Last(s, n), k) == Last(s, k)
  {
  }

  /** The hashes of the run up to each of its last n bytes. */
  ghost function Prefixes(run: seq<Byte>, n: nat): (r: seq<nat>)
    requires n <= |run|
    ensures |r| == n
  {
    if n == 0 then [] else Prefixes(run[..|run| - 1], n - 1) + [Hash(run)]
  }

  lemma {:induction false} PrefixesHead(run: seq<Byte>, n: nat)
    requires 0 < n <= |run|
    ensures Prefixes(run, n)[0] == Hash(run[..|run| - n + 1])
    ensures Prefixes(run, n)[1..] == Prefixes(run, n - 1)
    decreases n
  {
    hide Hash;
    var front := run[..|run| - 1];
    if n > 1 {
      PrefixesHead(front, n - 1);
      assert front[..|front| - (n - 1) + 1] == run[..|run| - n + 1];
      assert Prefixes(run, n)[1..] == Prefixes(front, n - 1)[1..] + [Hash(run)];
    } else {
      assert run[..|run|] == run;
    }
  }

  lemma PrefixesPush(run: seq<Byte>, n: nat, x: Byte)
    requires n <= |run|
    ensures Prefixes(run + [x], n + 1) == Prefixes(run, n) + [Hash(run + [x])]
    ensures 0 < n ==> Prefixes(run + [x], n) == Prefixes(run, n)[1..] + [Hash(run + [x])]
  {
    hide Hash;
    assert (run + [x])[..|run|] == run;
    if 0 < n {
      PrefixesHead(run, n);
    }
  }

  /** The rings and the rolling hash describe the newest bytes of the file and of the run. */
  ghost predicate WindowIs(ring: seq<Byte>, hashes: seq<nat>, chash: nat, run: seq<Byte>, consumed: seq<Byte>,
                           size: nat)
  {
    && |ring| == |hashes| == size && |run| <= |consumed| && run == Last(consumed, |run|)
    && Last(ring, Min(|consumed|, size)) == Last(consumed, Min(|consumed|, size))
    && Last(hashes, Min(|run|, size)) == Prefixes(run, Min(|run|, size))
    && chash == Hash(run)
  }

  lemma EmptyWindow(ring: seq<Byte>, hashes: seq<nat>, size: nat)
    requires |ring| == |hashes| == size
    ensures WindowIs(ring, hashes, 0, [], [], size)
  {
    EmptyHash();
  }

  lemma NothingYet(zlib: bool, parent: seq<Byte>, size: nat)
    ensures Decode([], parent, size) == [] && Serialize(zlib, 0, []) == [] && RunLength(parent, size, []) == 0
    ensures Last<Byte>([], 0) == []
  {
  }

  lemma WindowCleared(ring: seq<Byte>, hashes: seq<nat>, chash: nat, run: seq<Byte>, consumed: seq<Byte>, size: nat)
    requires WindowIs(ring, hashes, chash, run, consumed, size)
    ensures WindowIs(ring, hashes, 0, [], consumed, size)
  {
    EmptyHash();
  }

  lemma LastDrop<T>(s: seq<T>, k: nat)
    requires k < |s|
    ensures Last(s[1..], k) == Last(s, k)
  {
  }

  /** The ring holds the newest of what it was made of and what came since. */
  ghost predicate RingIs(ring: seq<Byte>, fresh0: seq<Byte>, consumed: seq<Byte>, size: nat) {
    |fresh0| == size && ring == Last(fresh0 + consumed, size)
  }

  lemma RingStarts(ring: seq<Byte>)
    ensures RingIs(ring, ring, [], |ring|)
  {
    assert ring + [] == ring;
  }

  lemma RingGoesOn(ring: seq<Byte>, fresh0: seq<Byte>, consumed: seq<Byte>, size: nat, x: Byte)
    requires RingIs(ring, fresh0, consumed, size) && 0 < size
    ensures RingIs(ring[1..] + [x], fresh0, consumed + [x], size)
  {
    LastPush(fresh0 + consumed, size, x);
    assert (fresh0 + consumed) + [x] == fresh0 + (consumed + [x]);
  }

  /** A ring that holds the last bytes still does after a push. */
  lemma RingPushed<T>(ring: seq<T>, file: seq<T>, x: T)
    requires ring != [] && Last(ring, Min(|file|, |ring|)) == Last(file, Min(|file|, |ring|))
    ensures var pushed, longer := ring[1..] + [x], file + [x];
            Last(pushed, Min(|longer|, |ring|)) == Last(longer, Min(|longer|, |ring|))
  {
    hide Last;
    var n, k := Min(|file|, |ring|), Min(|file| + 1, |ring|);
    LastPush(ring, n, x);
    LastPush(file, n, x);
    assert Last(ring + [x], k) == Last(file + [x], k);
    LastDrop(ring + [x], k);
    assert ring[1..] + [x] == (ring + [x])[1..];
  }

  lemma HashesPushed(hashes: seq<nat>, run: seq<Byte>, x: Byte)
    requires hashes != [] && Last(hashes, Min(|run|, |hashes|)) == Prefixes(run, Min(|run|, |hashes|))
    ensures var pushed, longer := hashes[1..] + [Hash(run + [x])], run + [x];
            Last(pushed, Min(|longer|, |hashes|)) == Prefixes(longer, Min(|longer|, |hashes|))
  {
    hide Hash, Prefixes;
    var n, h := Min(|run|, |hashes|), Hash(run + [x]);
    LastPush(hashes, n, h);
    PrefixesPush(run, n, x);
    LastDrop(hashes + [h], Min(|run| + 1, |hashes|));
    hide Last;
    assert hashes[1..] + [h] == (hashes + [h])[1..];
  }

  lemma WindowPushed(ring: seq<Byte>, hashes: seq<nat>, chash: nat, run: seq<Byte>, consumed: seq<Byte>, size: nat,
                     ch: Byte)
    requires WindowIs(ring, hashes, chash, run, consumed, size) && 0 < size
    ensures Hash(run + [ch]) == Wrap(Wrap(chash * K) + ch as int)
    ensures WindowIs(ring[1..] + [ch], hashes[1..] + [Hash(run + [ch])], Hash(run + [ch]), run + [ch], consumed + [ch],
                     size)
  {
    hide Hash, Prefixes, Last;
    HashStep(run, ch);
    RingPushed(ring, consumed, ch);
    HashesPushed(hashes, run, ch);
    LastPush(consumed, |run|, ch);
  }

  /** The window of the ring, once it is full, is the end of the run. */
  lemma WindowNewest(ring: seq<Byte>, hashes: seq<nat>, chash: nat, run: seq<Byte>, consumed: seq<Byte>, size: nat)
    requires WindowIs(ring, hashes, chash, run, consumed, size)
    ensures var k := Min(|run|, size); Last(ring, k) == Last(run, k) == Last(consumed, k)
  {
    var n, k := Min(|consumed|, size), Min(|run|, size);
    hide Last;
    LastLast(ring, n, k);
    LastLast(consumed, n, k);
    LastLast(consumed, |run|, k);
  }

  /** Rolling: the hash of the next full window from the two hashes at hand. */
  lemma Rolled(hashes: seq<nat>, run: seq<Byte>, size: nat, ch: Byte)
    requires 0 < size <= |run| && hashes == Prefixes(run, size)
    ensures Hash(Last(run + [ch], size)) == Wrap(Hash(run + [ch]) - Wrap(hashes[0] * Wrap(Power(size))))
  {
    hide Hash, Prefixes, Last, Power;
    var longer := run + [ch];
    var before := longer[..|longer| - size];
    PrefixesHead(run, size);
    PrefixOfPush(run, |run| - size + 1, ch);
    SplitLast(longer, size);
    WindowHash(before, Last(longer, size));
  }

  lemma PrefixOfPush<T>(s: seq<T>, n: nat, x: T)
    requires n <= |s|
    ensures (s + [x])[..n] == s[..n]
  {
  }

  lemma SplitLast<T>(s: seq<T>, n: nat)
    requires n <= |s|
    ensures s[..|s| - n] + Last(s, n) == s
  {
  }

  lemma RolledOut(ring: seq<Byte>, hashes: seq<nat>, chash: nat, run: seq<Byte>, consumed: seq<Byte>, size: nat,
                  ch: Byte)
    requires WindowIs(ring, hashes, chash, run, consumed, size) && 0 < size <= |run|
    ensures size <= |consumed|
    ensures Hash(Last(consumed + [ch], size)) == Wrap(Hash(run + [ch]) - Wrap(hashes[0] * Wrap(Power(size))))
    ensures ring[0] == Last(run, size)[0]
  {
    hide Hash, Prefixes, Power;
    LastPush(consumed, |run|, ch);
    LastLast(consumed + [ch], |run| + 1, size);
    assert Last(hashes, size) == hashes;
    Rolled(hashes, run, size, ch);
    WindowNewest(ring, hashes, chash, run, consumed, size);
  }

  lemma HashIs(ring: seq<Byte>, hashes: seq<nat>, chash: nat, run: seq<Byte>, consumed: seq<Byte>, size: nat)
    requires WindowIs(ring, hashes, chash, run, consumed, size)
    ensures |run| == size ==> size <= |consumed| && chash == Hash(Last(consumed, size))
  {
  }

  // ----- the account of bytes -----

  lemma AccountGrow(decoded: seq<Byte>, literal: seq<Byte>, run: seq<Byte>, ch: Byte)
    ensures decoded + literal + Last(run, |run|) + [ch] == decoded + literal + Last(run + [ch], |run| + 1)
  {
  }

  /** The byte that leaves the window joins the literal bytes. */
  lemma AccountSlide(before: seq<Byte>, run: seq<Byte>, size: nat, ch: Byte)
    requires 0 < size <= |run|
    ensures before + Last(run, size) + [ch] == (before + [Last(run, size)[0]]) + Last(run + [ch], size)
  {
  }

  // ----- which blocks match -----

  ghost predicate IsBlock(parent: seq<Byte>, size: nat, window: seq<Byte>) {
    exists i: nat :: i < |parent| && size * (i + 1) <= |parent| && Block(parent, size, i) == window
  }

  /** No block of the parent is mistaken for the window by BLAKE3. */
  ghost predicate NoCollision(m: Mode, parent: seq<Byte>, size: nat, window: seq<Byte>) {
    forall i: nat {:trigger Block(parent, size, i)} :: size * (i + 1) <= |parent| && Digest(m, Block(parent, size, i)) == Digest(m, window) ==>
      Block(parent, size, i) == window
  }

  /** An entry with the hashes of the window is the entry of an equal block. */
  lemma EntryIsBlock(m: Mode, parent: seq<Byte>, size: nat, window: seq<Byte>, i: nat)
    requires 0 < size && NoCollision(m, parent, size, window) && i < |parent| / size
    requires SignatureOf(m, size, parent)[i] == EntryOf(m, window)
    ensures size * (i + 1) <= |parent| && Block(parent, size, i) == window && IsBlock(parent, size, window)
  {
    hide Digest, Hash, Sign, Block;
    WholeBlocks(size, |parent|);
    SignAt(m, size, parent, |parent| / size, i);
    InRange(size, i, |parent|);
  }

  /** A window equal to a block has an entry. */
  lemma BlockHasEntry(m: Mode, parent: seq<Byte>, size: nat, window: seq<Byte>)
    requires 0 < size && IsBlock(parent, size, window)
    ensures EntryOf(m, window) in SignatureOf(m, size, parent)
  {
    hide EntryOf, Sign, Block;
    WholeBlocks(size, |parent|);
    var i: nat :| i < |parent| && size * (i + 1) <= |parent| && Block(parent, size, i) == window;
    WithinSignature(size, i, |parent|);
    SignAt(m, size, parent, |parent| / size, i);
    assert SignatureOf(m, size, parent)[i] == EntryOf(m, window);
  }

  lemma InRange(size: nat, i: nat, n: nat)
    requires 0 < size && size * (i + 1) <= n
    ensures i < n
  {
    BlockEnd(size, i);
    Signatures.NonNegative(size - 1, i);
    Split(size, i);
  }

  lemma Split(size: nat, i: nat)
    requires 0 < size
    ensures size * i == (size - 1) * i + i
  {
  }

  lemma WithinSignature(size: nat, i: nat, n: nat)
    requires 0 < size && size * (i + 1) <= n
    ensures i < n / size
  {
    if n / size < i + 1 {
      MulGap(size, n / size, i + 1);
    }
  }

  ghost predicate NoCollisions(m: Mode, parent: seq<Byte>, size: nat, file: seq<Byte>) {
    forall n: nat :: size <= n <= |file| ==> NoCollision(m, parent, size, Last(file[..n], size))
  }

  // ----- what the encoder has to do, by the bytes alone -----

  /** The bytes after the last copy, when every window that is a block is copied at once. */
  ghost function RunLength(parent: seq<Byte>, size: nat, file: seq<Byte>): (n: nat)
    ensures n <= |file|
  {
    if file == [] then 0
    else
      var n := RunLength(parent, size, file[..|file| - 1]) + 1;
      if size <= n && IsBlock(parent, size, Last(file, size)) then 0 else n
  }

  lemma RunLengthPush(parent: seq<Byte>, size: nat, file: seq<Byte>, ch: Byte)
    ensures RunLength(parent, size, file + [ch])
         == var n := RunLength(parent, size, file) + 1;
            if size <= n && IsBlock(parent, size, Last(file + [ch], size)) then 0 else n
  {
    assert (file + [ch])[..|file|] == file;
  }

  /** How many windows are copied. */
  ghost function CopyCount(parent: seq<Byte>, size: nat, file: seq<Byte>): nat {
    if file == [] then 0
    else
      var front := file[..|file| - 1];
      CopyCount(parent, size, front)
      + if size <= RunLength(parent, size, front) + 1 && IsBlock(parent, size, Last(file, size)) then 1 else 0
  }

  lemma CopyCountPush(parent: seq<Byte>, size: nat, file: seq<Byte>, ch: Byte)
    ensures CopyCount(parent, size, file + [ch])
         == CopyCount(parent, size, file)
            + if size <= RunLength(parent, size, file) + 1 && IsBlock(parent, size, Last(file + [ch], size)) then 1 else 0
  {
    assert (file + [ch])[..|file|] == file;
  }

  /** The copies among the commands. */
  ghost function Copies(cmds: seq<Command>): (n: nat)
    ensures n <= |cmds|
  {
    if cmds == [] then 0 else Copies(cmds[..|cmds| - 1]) + if cmds[|cmds| - 1].Copy? then 1 else 0
  }

  ghost predicate Full(c: Command) {
    c.Literal? ==> |c.bytes| == DELTA_BUFFER_SIZE
  }

  /** A literal that another one follows fills the buffer. */
  ghost predicate Packed(cmds: seq<Command>) {
    forall i :: 0 <= i < |cmds| - 1 && cmds[i + 1].Literal? ==> Full(cmds[i])
  }

  /** So that a literal may follow. */
  ghost predicate Open(cmds: seq<Command>) {
    Packed(cmds) && (cmds != [] ==> Full(cmds[|cmds| - 1]))
  }

  lemma OneMoreCommand(cmds: seq<Command>, c: Command)
    ensures Copies(cmds + [c]) == Copies(cmds) + if c.Copy? then 1 else 0
    ensures Open(cmds) || (Packed(cmds) && c.Copy?) ==> Packed(cmds + [c]) && (Full(c) ==> Open(cmds + [c]))
  {
    var more := cmds + [c];
    assert more[..|cmds|] == cmds;
  }

  /** The delta is written as the commands of an encoder that copies every window it can, and packs the rest. */
  ghost predicate Greedy(zlib: bool, out: seq<Byte>, parent: seq<Byte>, size: nat, file: seq<Byte>) {
    exists cmds :: AllWellFormed(cmds, parent, size) && out == Serialize(zlib, 0, cmds)
      && Copies(cmds) == CopyCount(parent, size, file) && Packed(cmds)
  }

  /** The last bytes of the file are what the end of the file writes out: always when the window is
      empty or full, and otherwise only if the oldest bytes of the ring are those of the window.  The ring
      still holds some of its first contents if the file is shorter than a block. */
  ghost predicate TailSurvives(parent: seq<Byte>, size: nat, fresh0: seq<Byte>, file: seq<Byte>)
    requires |fresh0| == size
  {
    var k := RunLength(parent, size, file);
    k == 0 || size <= k || Last(fresh0 + file, size)[..k] == Last(file, k)
  }

  /** From one block on, the first contents of the ring do not matter. */
  lemma TailOfLongFile(parent: seq<Byte>, size: nat, fresh0: seq<Byte>, file: seq<Byte>)
    requires |fresh0| == size <= |file|
    ensures Last(fresh0 + file, size) == Last(file, size)
  {
  }

  /** The oldest k bytes of the ring are the newest k bytes of the file. */
  ghost predicate OldestIsNewest(ring: seq<Byte>, file: seq<Byte>, k: nat) {
    k <= |ring| && k <= |file| && ring[..k] == Last(file, k)
  }

  // ----- the encoder -----

  class Encoder {
    const m: Mode
    const degree: nat
    const blocksize: nat
    const useZlib: bool
    const filesize: nat
    const index: Index
    const dhashmul: nat
    const dbuffer: RingBuffer<Byte>
    const dhashes: RingBuffer<nat>
    var dprevcmd: nat
    var dcurbytes: nat
    var chash: nat
    var dbuf: seq<Byte>
    var bytespassed: nat
    var out: seq<Byte>             // the bytes handed to _process
    ghost const parent: seq<Byte>
    ghost const fresh0: seq<Byte>  // what the ring held when it was allocated
    ghost var cmds: seq<Command>   // what `out` says
    ghost var run: seq<Byte>       // the bytes since the last copy
    ghost var consumed: seq<Byte>

    ghost predicate Shape()
      reads this, dbuffer, dhashes
    {
      && Degree(degree) && 0 < blocksize < WORD / 2 - DELTA_BUFFER_SIZE && |parent| / blocksize < WORD / 2
      && dbuffer.Valid() && dhashes.Valid() && dbuffer.buffer.Length == dhashes.buffer.Length == blocksize
      && (dbuffer as object) != (dhashes as object) && (dbuffer.buffer as object) != (dhashes.buffer as object)
      && dhashmul == Wrap(Power(blocksize)) && |fresh0| == blocksize
      && dcurbytes == Min(|run|, blocksize) && bytespassed == |consumed|
    }

    ghost predicate Indexed()
      requires 0 < blocksize
    {
      Holds(index, SignatureOf(m, blocksize, parent)) && AllSorted(index)
    }

    /** The rings and the hash describe the window. */
    ghost predicate Windowed()
      requires Shape()
      reads this, dbuffer, dbuffer.buffer, dhashes, dhashes.buffer
    {
      && WindowIs(dbuffer.Contents(), dhashes.Contents(), chash, run, consumed, blocksize)
      && RingIs(dbuffer.Contents(), fresh0, consumed, blocksize)
    }

    /** The output is the written form of well-formed commands. */
    ghost predicate Emitted()
      reads this`cmds, this`out, this`dprevcmd
    {
      && AllWellFormed(cmds, parent, blocksize)
      && out == Serialize(useZlib, 0, cmds) && (useZlib ==> dprevcmd == LastWord(0, cmds))
    }

    /** Nothing is lost: the decoded commands, the literal buffer and the window are all there was. */
    ghost predicate Lossless()
      requires Shape() && Emitted()
      reads this, dbuffer, dhashes
    {
      |dbuf| <= DELTA_BUFFER_SIZE && consumed == Decode(cmds, parent, blocksize) + dbuf + Last(run, dcurbytes)
    }

    ghost predicate Sound()
      reads this, dbuffer, dbuffer.buffer, dhashes, dhashes.buffer
    {
      Shape() && Indexed() && Windowed() && Emitted() && Lossless() && Open(cmds)
    }

    ghost predicate Valid()
      reads this, dbuffer, dbuffer.buffer, dhashes, dhashes.buffer
    {
      Sound() && |run| == RunLength(parent, blocksize, consumed) && Copies(cmds) == CopyCount(parent, blocksize, consumed)
    }

    /** The file is complete, and written. */
    ghost predicate Completed()
      reads this, dbuffer
    {
      && Emitted() && dbuffer.Valid() && |fresh0| == blocksize
      && dbuf == [] && dcurbytes == 0 && bytespassed == |consumed| == filesize
      && (Decode(cmds, parent, blocksize) == consumed <==> TailSurvives(parent, blocksize, fresh0, consumed))
      && Copies(cmds) == CopyCount(parent, blocksize, consumed) && Packed(cmds)
    }

    /** The delta part of the constructor: reads the parent's signature. */
    constructor (mode: Mode, simdDegree: nat, size: nat, zlib: bool, total: nat, store: seq<Byte>,
                 ghost file: seq<Byte>)
      requires Degree(simdDegree) && 0 < size < WORD / 2 - DELTA_BUFFER_SIZE && |file| / size < WORD / 2
      requires store == Store(SignatureOf(mode, size, file))
      ensures Valid() && m == mode && blocksize == size && useZlib == zlib && parent == file && filesize == total
      ensures consumed == [] && cmds == [] && dcurbytes == 0 && out == [] && |fresh0| == size
      ensures fresh(dbuffer) && fresh(dbuffer.buffer) && fresh(dhashes) && fresh(dhashes.buffer)
    {
      hide Store, Holds, Sign, Power, WindowIs, AllSorted, Decode, Serialize, RunLength, Last;
      m, degree, blocksize, useZlib, filesize, parent := mode, simdDegree, size, zlib, total, file;
      var signature := BuildIndex(store, SignatureOf(mode, size, file));
      index := signature;
      var ring := new RingBuffer<Byte>(size);
      dbuffer := ring;
      dhashes := new RingBuffer<nat>(size);
      var mul := PowerOfK(size);
      dhashmul := mul;
      fresh0 := ring.Contents();
      dprevcmd, dcurbytes, chash, dbuf, out, bytespassed := 0, 0, 0, [], [], 0;
      cmds, run, consumed := [], [], [];
      new;
      EmptyWindow(dbuffer.Contents(), dhashes.Contents(), size);
      RingStarts(dbuffer.Contents());
      NothingYet(zlib, parent, size);
      assert Shape() && Windowed() && Emitted();
    }

    /** _send_delta_command together with the data that follows it. */
    method Send(c: Command)
      requires Emitted() && WellFormed(c, parent, blocksize)
      modifies this`dprevcmd, this`out, this`cmds
      ensures Emitted() && cmds == old(cmds) + [c]
      ensures Decode(cmds, parent, blocksize) == old(Decode(cmds, parent, blocksize)) + Meaning(c, parent, blocksize)
    {
      hide Serialize, Decode, Meaning;
      SerializeAppend(useZlib, 0, cmds, c);
      DecodeAppend(cmds, c, parent, blocksize);
      var ucmd := Wrap(Word(c));
      if useZlib {
        var xcmd := Wrap(ucmd - dprevcmd);
        dprevcmd := ucmd;
        out := out + Le32(xcmd);
      } else {
        out := out + Le32(ucmd);
      }
      out := out + Data(c);
      cmds := cmds + [c];
    }

    /** _flush_delta_buffer */
    method FlushDeltaBuffer()
      requires Emitted() && |dbuf| < WORD / 2
      modifies this`dprevcmd, this`out, this`cmds, this`dbuf
      ensures Emitted() && dbuf == []
      ensures Decode(cmds, parent, blocksize) == old(Decode(cmds, parent, blocksize) + dbuf)
      ensures cmds == if old(dbuf) == [] then old(cmds) else old(cmds) + [Literal(old(dbuf))]
    {
      hide Serialize, Decode;
      if dbuf != [] {
        Send(Literal(dbuf));
        dbuf := [];
      }
    }

    /** _push_delta_buffer */
    method PushDeltaBuffer(ch: Byte)
      requires Emitted() && |dbuf| <= DELTA_BUFFER_SIZE
      modifies this`dprevcmd, this`out, this`cmds, this`dbuf
      ensures Emitted() && |dbuf| <= DELTA_BUFFER_SIZE
      ensures Decode(cmds, parent, blocksize) + dbuf == old(Decode(cmds, parent, blocksize) + dbuf) + [ch]
      ensures Copies(cmds) == old(Copies(cmds)) && (old(Open(cmds)) ==> Open(cmds))
    {
      hide Emitted, Decode, Copies, Open, Packed;
      OneMoreCommand(cmds, Literal(dbuf));
      if |dbuf| == DELTA_BUFFER_SIZE {
        FlushDeltaBuffer();
      }
      dbuf := dbuf + [ch];
    }

    /** The lookup of _find_delta_hash: the window is hashed only when its weak hash is in the index. */
    method FindBlock(hsh: nat) returns (r: Option<nat>)
      requires Shape() && Indexed() && dcurbytes == blocksize && hsh == Hash(dbuffer.Contents())
      requires NoCollision(m, parent, blocksize, dbuffer.Contents())
      ensures r.Some? <==> IsBlock(parent, blocksize, dbuffer.Contents())
      ensures r.Some? ==> WellFormed(Copy(r.value), parent, blocksize)
                          && Meaning(Copy(r.value), parent, blocksize) == dbuffer.Contents()
    {
      hide Hash, Holds, AllSorted, IsBlock, Block, Sign, Digest;
      ghost var entries, window := SignatureOf(m, blocksize, parent), dbuffer.Contents();
      if hsh in index {
        var strong := RingDigest(m, degree, dbuffer);
        r := Lookup(index, hsh, strong, entries);
        if r.Some? {
          EntryIsBlock(m, parent, blocksize, window, r.value);
        }
      } else {
        NotIndexed(index, hsh, Digest(m, window), entries);
        r := None;
      }
      if IsBlock(parent, blocksize, window) {
        BlockHasEntry(m, parent, blocksize, window);
      }
    }

    /** Nothing is lost: commands, literal buffer and the newest bytes of the ring are the file so far. */
    lemma NewestTailIsRight()
      requires Valid()
      ensures Decode(cmds, parent, blocksize) + dbuf + Last(dbuffer.Contents(), dcurbytes) == consumed
    {
      WindowNewest(dbuffer.Contents(), dhashes.Contents(), chash, run, consumed, blocksize);
    }

    /** The window is sent as a copy, and the window is empty again. */
    method SendCopy(i: nat)
      requires Sound() && dcurbytes == blocksize && WellFormed(Copy(i), parent, blocksize)
      requires Meaning(Copy(i), parent, blocksize) == Last(run, blocksize)
      modifies this`dprevcmd, this`out, this`cmds, this`dbuf, this`dcurbytes, this`chash, this`run
      ensures Sound() && run == [] && Copies(cmds) == old(Copies(cmds)) + 1
    {
      hide Hash, Decode, Meaning, Emitted, Indexed, WindowIs, RingIs, Copies, Open, Packed;
      OneMoreCommand(cmds, Literal(dbuf));
      OneMoreCommand(cmds, Copy(i));
      OneMoreCommand(cmds + [Literal(dbuf)], Copy(i));
      OpenIsPacked(cmds);
      WindowCleared(dbuffer.Contents(), dhashes.Contents(), chash, run, consumed, blocksize);
      assert consumed + [] + [] == consumed;
      FlushDeltaBuffer();
      Send(Copy(i));
      dcurbytes, chash := 0, 0;
      run := [];
    }

    /** _find_delta_hash: a copy command is sent exactly when the window is a block of the parent. */
    method FindDeltaHash(hsh: nat)
      requires Sound() && dcurbytes == blocksize <= |consumed| && hsh == Hash(Last(consumed, blocksize))
      requires NoCollision(m, parent, blocksize, Last(consumed, blocksize))
      modifies this`dprevcmd, this`out, this`cmds, this`dbuf, this`dcurbytes, this`chash, this`run
      ensures Sound()
      ensures run == if IsBlock(parent, blocksize, Last(consumed, blocksize)) then [] else old(run)
      ensures Copies(cmds) == old(Copies(cmds)) + if IsBlock(parent, blocksize, Last(consumed, blocksize)) then 1 else 0
    {
      hide Copies, Open, Hash, Decode, Indexed, IsBlock, NoCollision, Meaning, Serialize, WindowIs, RingIs;
      WindowNewest(dbuffer.Contents(), dhashes.Contents(), chash, run, consumed, blocksize);
      assert dbuffer.Contents() == Last(consumed, blocksize);
      var r := FindBlock(hsh);
      if r.Some? {
        SendCopy(r.value);
      }
    }

    /** The window is not full yet: the byte joins it. */
    method Grow(ch: Byte)
      requires Sound() && dcurbytes < blocksize
      modifies this`chash, this`dcurbytes, this`run, this`consumed, this`bytespassed
      modifies dbuffer, dbuffer.buffer, dhashes, dhashes.buffer
      ensures Sound() && run == old(run) + [ch] && consumed == old(consumed) + [ch]
      ensures dcurbytes == blocksize ==> blocksize <= |consumed| && chash == Hash(Last(consumed, blocksize))
    {
      hide Open, Hash, Decode, Indexed, Serialize, WindowIs, RingIs;
      RingGoesOn(dbuffer.Contents(), fresh0, consumed, blocksize, ch);
      WindowPushed(dbuffer.Contents(), dhashes.Contents(), chash, run, consumed, blocksize, ch);
      AccountGrow(Decode(cmds, parent, blocksize), dbuf, run, ch);
      chash := Wrap(Wrap(chash * K) + ch as int);
      var _ := dhashes.Push(chash);
      var _ := dbuffer.Push(ch);
      dcurbytes := dcurbytes + 1;
      run, consumed, bytespassed := run + [ch], consumed + [ch], bytespassed + 1;
      HashIs(dbuffer.Contents(), dhashes.Contents(), chash, run, consumed, blocksize);
    }

    /** The window is full: it moves on by one byte, and the byte that leaves it becomes literal. */
    method Slide(ch: Byte) returns (hsh: nat)
      requires Sound() && dcurbytes == blocksize
      modifies this`chash, this`run, this`consumed, this`bytespassed, this`dprevcmd, this`out, this`cmds, this`dbuf
      modifies dbuffer, dbuffer.buffer, dhashes, dhashes.buffer
      ensures Sound() && run == old(run) + [ch] && consumed == old(consumed) + [ch] && dcurbytes == blocksize
      ensures blocksize <= |consumed| && hsh == Hash(Last(consumed, blocksize)) && Copies(cmds) == old(Copies(cmds))
    {
      hide Copies, Open, Hash, Decode, Indexed, Serialize, WindowIs, RingIs, Last;
      RingGoesOn(dbuffer.Contents(), fresh0, consumed, blocksize, ch);
      WindowPushed(dbuffer.Contents(), dhashes.Contents(), chash, run, consumed, blocksize, ch);
      RolledOut(dbuffer.Contents(), dhashes.Contents(), chash, run, consumed, blocksize, ch);
      AccountSlide(Decode(cmds, parent, blocksize) + dbuf, run, blocksize, ch);
      chash := Wrap(Wrap(chash * K) + ch as int);
      var phsh := dhashes.Push(chash);
      hsh := Wrap(chash - Wrap(phsh * dhashmul));
      var oldest := dbuffer.Push(ch);
      PushDeltaBuffer(oldest);
      run, consumed, bytespassed := run + [ch], consumed + [ch], bytespassed + 1;
    }

    /** One byte of process. */
    method Step(ch: Byte)
      requires Valid()
      requires blocksize <= |consumed| + 1 ==> NoCollision(m, parent, blocksize, Last(consumed + [ch], blocksize))
      modifies this, dbuffer, dbuffer.buffer, dhashes, dhashes.buffer
      ensures Valid() && consumed == old(consumed) + [ch]
    {
      hide Hash, Decode, Indexed, Emitted, Prefixes, IsBlock, NoCollision, Windowed, Lossless, Last, Copies, Open;
      RunLengthPush(parent, blocksize, consumed, ch);
      CopyCountPush(parent, blocksize, consumed, ch);
      if dcurbytes < blocksize {
        Grow(ch);
        if dcurbytes == blocksize {
          FindDeltaHash(chash);
        }
      } else {
        var hsh := Slide(ch);
        FindDeltaHash(hsh);
      }
    }

    /** The end of the file: the first `dcurbytes` bytes of the ring, oldest first, join the literal
        buffer, which is sent.  The file is whole again exactly when those bytes equal the newest ones. */
    method Finish()
      requires Valid() || Completed()
      modifies this`dprevcmd, this`out, this`cmds, this`dbuf, this`dcurbytes
      ensures Emitted() && dbuf == [] && dcurbytes == 0
      ensures old(Valid()) ==>
                (Decode(cmds, parent, blocksize) == consumed <==> OldestIsNewest(dbuffer.Contents(), consumed, old(dcurbytes)))
      ensures old(Completed()) ==> Decode(cmds, parent, blocksize) == old(Decode(cmds, parent, blocksize))
      ensures Copies(cmds) == old(Copies(cmds)) && Packed(cmds)
    {
      hide Copies, Open, Packed, Hash, Decode, Indexed, Serialize, WindowIs, RingIs, Last, TailSurvives;
      ghost var ring, k, valid := dbuffer.Contents(), dcurbytes, Valid();
      ghost var before := Decode(cmds, parent, blocksize) + dbuf;
      if valid {
        WindowNewest(ring, dhashes.Contents(), chash, run, consumed, blocksize);
      }
      if Completed() {
        assert before + ring[..k] == Decode(cmds, parent, blocksize);
      }
      EmitRing();
      if valid {
        SameFront(before, ring[..k], Last(consumed, k));
      }
    }

    /** The code at the end of the file. */
    method EmitRing()
      requires Emitted() && dbuffer.Valid() && dcurbytes <= dbuffer.buffer.Length && |dbuf| + dcurbytes < WORD / 2
      modifies this`dprevcmd, this`out, this`cmds, this`dbuf, this`dcurbytes
      ensures Emitted() && dbuf == [] && dcurbytes == 0
      ensures Decode(cmds, parent, blocksize)
           == old(Decode(cmds, parent, blocksize) + dbuf) + dbuffer.Contents()[..old(dcurbytes)]
      ensures Copies(cmds) == old(Copies(cmds)) && (old(Open(cmds)) ==> Packed(cmds))
      ensures old(dbuf) == [] && old(dcurbytes) == 0 ==> cmds == old(cmds)
    {
      hide Serialize, Decode, Copies, Open, Packed;
      OpenIsPacked(cmds);
      OneMoreCommand(cmds, Literal(dbuf + dbuffer.Contents()[..dcurbytes]));
      ghost var ring, k := dbuffer.Contents(), dcurbytes;
      ghost var decoded, literal := Decode(cmds, parent, blocksize), dbuf;
      var first, second := dbuffer.Serialize();
      OldestFirst(first, second, k);
      var have := Min(dcurbytes, |first|);
      dbuf := dbuf + first[..have];
      dcurbytes := dcurbytes - have;
      have := Min(dcurbytes, |second|);
      dbuf := dbuf + second[..have];
      dcurbytes := dcurbytes - have;
      assert dbuf == literal + ring[..k];
      assert decoded + (literal + ring[..k]) == (decoded + literal) + ring[..k];
      FlushDeltaBuffer();
    }

    /** The decoder reads the written bytes back as the commands. */
    lemma Decoded()
      requires Emitted()
      ensures AllWellFormed(cmds, parent, blocksize)
      ensures DecodeBytes(useZlib, out, parent, blocksize) == Some(Decode(cmds, parent, blocksize))
    {
      DecodeSerialized(useZlib, cmds, parent, blocksize);
    }

    lemma IsGreedy()
      requires Emitted() && Copies(cmds) == CopyCount(parent, blocksize, consumed) && Packed(cmds)
      ensures Greedy(useZlib, out, parent, blocksize, consumed)
    {
    }

    /** The delta part of process.  At the end of the file the written commands decode to the file exactly if
        its tail survives; an empty piece after that changes nothing. */
    method Process(buf: seq<Byte>) returns (ok: bool)
      requires (Valid() && NoCollisions(m, parent, blocksize, consumed + buf)) || (Completed() && buf == [])
      modifies this, dbuffer, dbuffer.buffer, dhashes, dhashes.buffer
      ensures consumed == old(consumed) + buf && (ok <==> |consumed| <= filesize)
      ensures |consumed| < filesize ==> Valid()
      ensures |consumed| == filesize ==> Completed()
    {
      hide Hash, Decode, Indexed, Emitted, Windowed, Lossless, NoCollision, Last, TailSurvives;
      if |buf| > 0 {
        ProcessBytes(buf);
      } else {
        assert consumed + buf == consumed;
      }
      if bytespassed > filesize {
        return false;
      }
      if bytespassed == filesize {
        if Valid() {
          TailCondition();
        }
        Finish();
      }
      ok := true;
    }

    /** All pieces of a file, empty ones among them or none at all. */
    method ProcessAll(pieces: seq<seq<Byte>>)
      requires Valid() && consumed == [] && filesize == |Concat(pieces)| && NoCollisions(m, parent, blocksize, Concat(pieces))
      modifies this, dbuffer, dbuffer.buffer, dhashes, dhashes.buffer
      ensures consumed == Concat(pieces) && Emitted() && Copies(cmds) == CopyCount(parent, blocksize, consumed) && Packed(cmds)
      ensures if pieces == [] then cmds == old(cmds) else Completed()
    {
      hide Sound, Emitted, NoCollisions, Completed;
      assert pieces[..0] == [];
      for i := 0 to |pieces|
        invariant if i == 0 then Valid() && cmds == old(cmds) else Completed() || (Valid() && |consumed| < filesize)
        invariant consumed == Concat(pieces[..i]) && |consumed| <= filesize
      {
        PieceFits(m, parent, blocksize, pieces, i);
        if i > 0 && Completed() {
          NothingMore();
        }
        var _ := Process(pieces[i]);
      }
      assert pieces[..|pieces|] == pieces;
      StillEmitted();
    }

    lemma NothingMore()
      requires Completed()
      ensures |consumed| == filesize
    {
    }

    lemma StillEmitted()
      requires Valid() || Completed()
      ensures Emitted() && Copies(cmds) == CopyCount(parent, blocksize, consumed) && Packed(cmds)
    {
    }

    /** Byte by byte. */
    method ProcessBytes(buf: seq<Byte>)
      requires Valid() && NoCollisions(m, parent, blocksize, consumed + buf)
      modifies this, dbuffer, dbuffer.buffer, dhashes, dhashes.buffer
      ensures Valid() && consumed == old(consumed) + buf
    {
      hide Hash, Decode, Indexed, Emitted, Windowed, Lossless, NoCollision, Last;
      ghost var file := consumed + buf;
      for i := 0 to |buf|
        invariant Valid() && consumed == old(consumed) + buf[..i]
      {
        assert consumed + [buf[i]] == file[..|consumed| + 1];
        Step(buf[i]);
        assert old(consumed) + buf[..i] + [buf[i]] == old(consumed) + buf[..i + 1];
      }
      assert buf[..|buf|] == buf;
    }

    /** What the end of the file writes out, in terms of the file and the first contents of the ring. */
    lemma TailCondition()
      requires Valid()
      ensures OldestIsNewest(dbuffer.Contents(), consumed, dcurbytes) <==> TailSurvives(parent, blocksize, fresh0, consumed)
    {
      hide WindowIs, Decode, Hash, Indexed, Emitted;
      assert |run| <= |consumed| by { WindowNewest(dbuffer.Contents(), dhashes.Contents(), chash, run, consumed, blocksize); RunFits(); }
      if dcurbytes == blocksize {
        TailOfLongFile(parent, blocksize, fresh0, consumed);
        assert Last(consumed, blocksize)[..blocksize] == Last(consumed, blocksize);
      }
    }

    lemma RunFits()
      requires Shape() && Windowed()
      ensures |run| <= |consumed|
    {
    }
  }

  lemma OpenIsPacked(cmds: seq<Command>)
    ensures Open(cmds) ==> Packed(cmds)
    ensures Open([])
  {
  }

  lemma OldestFirst(first: seq<Byte>, second: seq<Byte>, k: nat)
    requires k <= |first| + |second|
    ensures first[..Min(k, |first|)] + second[..k - Min(k, |first|)] == (first + second)[..k]
  {
  }

  // ----- a whole file -----

  /** The parent's signature as the constructor is given it. */
  method ReadSignature(psign: seq<Byte>, ghost size: nat, ghost entries: seq<Entry>)
      returns (blocksize: nat, store: seq<Byte>)
    requires psign == Stored(size, |entries|, entries) && size < WORD && ENTRY_LEN * |entries| < WORD
    ensures blocksize == size && store == Store(entries)
  {
    hide Store, Le32, FromLe32;
    ghost var sizes, body := Le32(Wrap(ENTRY_LEN * |entries|)) + Le32(Wrap(size)), Store(entries);
    Le32RoundTrip(ENTRY_LEN * |entries|);
    Le32RoundTrip(size);
    assert psign == sizes + body;
    assert psign[0..4] == Le32(ENTRY_LEN * |entries|) && psign[4..8] == Le32(size);
    var sigsize := FromLe32(psign[0..4]);
    blocksize := FromLe32(psign[4..8]);
    store := psign[8..8 + sigsize];
    assert store == body;
  }

  /** Encoding a file against a parent, whatever pieces it comes in: the written bytes decode to the
      file exactly when its tail survives.  The ring starts with whatever its memory held. */
  method EncodeFile(m: Mode, degree: nat, size: nat, zlib: bool, psign: seq<Byte>, ghost parent: seq<Byte>,
                    pieces: seq<seq<Byte>>) returns (out: seq<Byte>, ghost fresh0: seq<Byte>)
    requires Degree(degree) && 0 < size < WORD / 2 - DELTA_BUFFER_SIZE && ENTRY_LEN * (|parent| / size) < WORD / 2
    requires psign == StoredSignature(m, size, parent)
    requires NoCollisions(m, parent, size, Concat(pieces))
    ensures |fresh0| == size
    ensures DecodeBytes(zlib, out, parent, size) == Some(Concat(pieces))
       <==> TailSurvives(parent, size, fresh0, Concat(pieces))
    ensures Greedy(zlib, out, parent, size, Concat(pieces))
  {
    hide Decode, Store, Stored, NoCollision, Encoder.Sound, Encoder.Emitted, TailSurvives, DecodeBytes, Serialize,
         NoCollisions, Greedy, Packed, CopyCount, Copies;
    var blocksize, store := ReadSignature(psign, size, SignatureOf(m, size, parent));
    var e := new Encoder(m, degree, blocksize, zlib, Length(pieces), store, parent);
    fresh0 := e.fresh0;
    e.ProcessAll(pieces);
    out := e.out;
    NoFile(parent, size, fresh0);
    e.Decoded();
    e.IsGreedy();
  }

  lemma NoFile(parent: seq<Byte>, size: nat, fresh0: seq<Byte>)
    requires |fresh0| == size
    ensures Decode([], parent, size) == [] == Concat([]) && TailSurvives(parent, size, fresh0, [])
  {
  }

  function Length(pieces: seq<seq<Byte>>): (n: nat)
    ensures n == |Concat(pieces)|
  {
    if pieces == [] then 0 else |pieces[0]| + Length(pieces[1..])
  }

  /** A prefix of the pieces has no collisions either. */
  lemma PieceFits(m: Mode, parent: seq<Byte>, size: nat, pieces: seq<seq<Byte>>, i: nat)
    requires i < |pieces| && NoCollisions(m, parent, size, Concat(pieces))
    ensures Concat(pieces[..i]) + pieces[i] == Concat(pieces[..i + 1])
    ensures NoCollisions(m, parent, size, Concat(pieces[..i + 1]))
    ensures |Concat(pieces[..i + 1])| <= |Concat(pieces)|
  {
    hide NoCollision;
    ConcatGrows(pieces, i);
    var file, part := Concat(pieces), Concat(pieces[..i + 1]);
    forall n: nat | size <= n <= |part| ensures NoCollision(m, parent, size, Last(part[..n], size)) {
      assert part[..n] == file[..n];
    }
  }

  /** From parent to child: the signature collected while the parent was saved serves to encode the
      next version. */
  method SaveTwice(m: Mode, degree: nat, size: nat, zlib: bool, parent: seq<Byte>, pieces: seq<seq<Byte>>)
      returns (out: seq<Byte>, ghost fresh0: seq<Byte>)
    requires Degree(degree) && 0 < size < WORD / 2 - DELTA_BUFFER_SIZE && ENTRY_LEN * (|parent| / size) < WORD / 2
    requires NoCollisions(m, parent, size, Concat(pieces))
    ensures |fresh0| == size
    ensures DecodeBytes(zlib, out, parent, size) == Some(Concat(pieces))
       <==> TailSurvives(parent, size, fresh0, Concat(pieces))
    ensures Greedy(zlib, out, parent, size, Concat(pieces))
  {
    hide StoredSignature, TailSurvives, NoCollisions, DecodeBytes, Greedy, Signer.InProgress, Signer.Signed;
    var signer := new Signer(m, degree, size, |parent|);
    signer.Process(parent);
    assert [] + parent == parent;
    signer.Complete();
    out, fresh0 := EncodeFile(m, degree, size, zlib, signer.nsstore[..], parent, pieces);
  }
}
