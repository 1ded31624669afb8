/** Signatures: a weak and a strong hash for every whole block of a file, collected while the file
    passes by, stored, read back, and indexed for lookup. */
module Signatures {
  import opened Bytes
  import opened RingBuffers
  import opened RollingHash
  import opened DeltaCommands
  import opened Blake3Tree
  import opened Blake3Subtree
  import opened Blake3Hasher

  const ENTRY_LEN := 40

  ghost function Digest(m: Mode, bytes: seq<Byte>): Cv {
    RootBytes(m.c, Tree(m, 0, bytes), 0, OUT_LEN)
  }

  datatype Entry = Entry(weak: Word32, strong: Cv)

  ghost function EntryOf(m: Mode, block: seq<Byte>): Entry {
    Entry(Hash(block), Digest(m, block))
  }

  /** The entries of the first n blocks. */
  ghost function Sign(m: Mode, size: nat, file: seq<Byte>, n: nat): (s: seq<Entry>)
    requires size * n <= |file|
    ensures |s| == n
  {
    if n == 0 then []
    else
      BlockEnd(size, n - 1);
      Sign(m, size, file, n - 1) + [EntryOf(m, Block(file, size, n - 1))]
  }

  /** The signature of a file: its whole blocks, without a partial last one. */
  ghost function SignatureOf(m: Mode, size: nat, file: seq<Byte>): (s: seq<Entry>)
    requires 0 < size
    ensures |s| == |file| / size
  {
    WholeBlocks(size, |file|);
    Sign(m, size, file, |file| / size)
  }

  lemma WholeBlocks(size: nat, n: nat)
    requires 0 < size
    ensures size * (n / size) <= n
  {
  }

  lemma {:induction false} SignAt(m: Mode, size: nat, file: seq<Byte>, n: nat, i: nat)
    requires size * n <= |file| && i < n
    ensures size * (i + 1) <= |file| && Sign(m, size, file, n)[i] == EntryOf(m, Block(file, size, i))
    decreases n
  {
    hide EntryOf, Block;
    BlockEnd(size, n - 1);
    if i < n - 1 {
      SignAt(m, size, file, n - 1, i);
    }
  }

  /** Entries depend only on the bytes of their blocks. */
  lemma {:induction false} SignExtends(m: Mode, size: nat, file: seq<Byte>, more: seq<Byte>, n: nat)
    requires size * n <= |file|
    ensures Sign(m, size, file + more, n) == Sign(m, size, file, n)
    decreases n
  {
    hide EntryOf;
    if n > 0 {
      BlockEnd(size, n - 1);
      SignExtends(m, size, file, more, n - 1);
      assert Block(file + more, size, n - 1) == Block(file, size, n - 1);
    }
  }

  lemma QuotientIs(n: nat, size: nat, q: nat, r: nat)
    requires n == size * q + r && r < size
    ensures n / size == q
  {
    var p := n / size;
    if p < q {
      MulGap(size, p, q);
    } else if q < p {
      MulGap(size, q, p);
    }
  }

  lemma MulGap(size: nat, p: nat, q: nat)
    requires p < q
    ensures size * p + size <= size * q
  {
    var d := q - (p + 1);
    Distribute(size, p + 1, d);
    Distribute(size, p, 1);
    NonNegative(size, d);
  }

  lemma Distribute(size: nat, a: nat, b: nat)
    ensures size * (a + b) == size * a + size * b
  {
  }

  lemma NonNegative(a: nat, b: nat)
    ensures a * b >= 0
  {
  }

  // ----- the stored form -----

  function EntryBytes(e: Entry): (s: seq<Byte>)
    ensures |s| == ENTRY_LEN
  {
    var strong: seq<Byte> := e.strong;
    Le32(e.weak) + strong + [0, 0, 0, 0]
  }

  function Store(entries: seq<Entry>): (s: seq<Byte>)
    ensures |s| == ENTRY_LEN * |entries|
  {
    if entries == [] then [] else Store(entries[..|entries| - 1]) + EntryBytes(entries[|entries| - 1])
  }

  lemma StoreAppend(entries: seq<Entry>, e: Entry)
    ensures Store(entries + [e]) == Store(entries) + EntryBytes(e)
  {
    assert (entries + [e])[..|entries|] == entries;
  }

  /** What is stored: the length of the entries, the block size, the entries. */
  function Stored(size: nat, count: nat, entries: seq<Entry>): seq<Byte>
  {
    Le32(Wrap(ENTRY_LEN * count)) + Le32(Wrap(size)) + Store(entries)
  }

  lemma {:induction false} StoreAt(entries: seq<Entry>, i: nat)
    requires i < |entries|
    ensures Store(entries)[ENTRY_LEN * i..ENTRY_LEN * (i + 1)] == EntryBytes(entries[i])
    decreases |entries|
  {
    hide EntryBytes;
    var n := |entries| - 1;
    if i < n {
      var front := Store(entries[..n]);
      StoreAt(entries[..n], i);
      assert Store(entries)[ENTRY_LEN * i..ENTRY_LEN * (i + 1)] == front[ENTRY_LEN * i..ENTRY_LEN * (i + 1)];
    }
  }

  // ----- the strong hash of a ring buffer -----

  /** The ring is hashed in two pieces, oldest first; the hasher does not see the cut. */
  method RingDigest(m: Mode, degree: nat, ring: RingBuffer<Byte>) returns (d: Cv)
    requires Degree(degree) && ring.Valid() && ring.buffer.Length < TWO_TO_64
    ensures d == Digest(m, ring.Contents())
  {
    hide Tree, RootBytes, Hasher.Shape;
    var first, second := ring.Serialize();
    var h := new Hasher(m, degree);
    h.Update(first);
    h.Update(second);
    assert [] + first + second == ring.Contents();
    var out := new Byte[OUT_LEN];
    h.FinalizeSeek(0, out);
    d := out[..];
  }

  /** memcpy into an array. */
  method WriteAt(a: array<Byte>, pos: nat, bytes: seq<Byte>)
    requires pos + |bytes| <= a.Length
    modifies a
    ensures a[..pos + |bytes|] == old(a[..pos]) + bytes
  {
    ghost var before := a[..pos];
    for i := 0 to |bytes|
      invariant a[..pos + i] == before + bytes[..i]
    {
      a[pos + i] := bytes[i];
    }
  }

  // ----- signing a file as it passes by -----

  /** The part is all but the first n bytes. */
  ghost predicate Tail(seen: seq<Byte>, part: seq<Byte>, n: nat) {
    |seen| == n + |part| && part == seen[n..]
  }

  lemma TailPush(seen: seq<Byte>, part: seq<Byte>, n: nat, b: Byte)
    requires Tail(seen, part, n)
    ensures Tail(seen + [b], part + [b], n)
  {
  }

  class Signer {
    const m: Mode
    const degree: nat
    const bsnt: nat
    const filesize: nat
    const sigbuf: RingBuffer<Byte>
    var shash: nat
    const nsstore: array<Byte>
    var nsstoreLst: nat
    ghost var seen: seq<Byte>
    ghost var blocks: nat      // whole blocks seen
    ghost var part: seq<Byte>  // bytes of the block in progress

    ghost predicate Shape()
      reads this, sigbuf
    {
      && Degree(degree) && 0 < bsnt == sigbuf.buffer.Length < WORD && sigbuf.Valid()
      && (sigbuf.buffer as object) != (nsstore as object)
      && |seen| <= filesize && Tail(seen, part, bsnt * blocks)
      && nsstore.Length == 8 + ENTRY_LEN * (filesize / bsnt)
    }

    /** The block in progress is in the ring and in the rolling hash. */
    ghost predicate InProgress()
      requires Shape()
      reads this, sigbuf, sigbuf.buffer
    {
      && |part| == sigbuf.ptr && shash == Hash(part) && sigbuf.Contents()[bsnt - |part|..] == part
    }

    /** The entries of the whole blocks are in place. */
    ghost predicate Signed()
      requires Shape()
      reads this, sigbuf, nsstore
    {
      && nsstoreLst == 8 + ENTRY_LEN * blocks <= nsstore.Length
      && nsstore[..nsstoreLst] == Stored(bsnt, filesize / bsnt, Sign(m, bsnt, seen, blocks))
    }

    ghost predicate Valid()
      reads this, sigbuf, sigbuf.buffer, nsstore
    {
      Shape() && InProgress() && Signed()
    }

    constructor (mode: Mode, simdDegree: nat, blockSize: nat, size: nat)
      requires Degree(simdDegree) && 0 < blockSize < WORD
      ensures Valid() && seen == [] && m == mode && bsnt == blockSize && filesize == size
      ensures fresh(sigbuf) && fresh(sigbuf.buffer) && fresh(nsstore)
    {
      m, degree, bsnt, filesize := mode, simdDegree, blockSize, size;
      sigbuf := new RingBuffer<Byte>(blockSize);
      shash := 0;
      nsstore := new Byte[8 + ENTRY_LEN * (size / blockSize)];
      nsstoreLst := 8;
      seen, part, blocks := [], [], 0;
      new;
      WriteAt(nsstore, 0, Le32(Wrap(ENTRY_LEN * (size / blockSize))) + Le32(Wrap(blockSize)));
      assert nsstore[..0] == [];
      EmptyHash();
    }

    /** The signature part of process: a finished block is hashed and its entry appended. */
    method Process(buf: seq<Byte>)
      requires Valid() && |seen| + |buf| <= filesize
      modifies this`shash, this`nsstoreLst, this`seen, this`part, this`blocks, sigbuf, sigbuf.buffer, nsstore
      ensures Valid() && seen == old(seen) + buf
    {
      hide Hash, InProgress, Signed;
      for i := 0 to |buf|
        invariant Valid() && seen == old(seen) + buf[..i]
      {
        Step(buf[i]);
        assert old(seen) + buf[..i] + [buf[i]] == old(seen) + buf[..i + 1];
      }
      assert buf[..|buf|] == buf;
    }

    method Step(b: Byte)
      requires Valid() && |seen| < filesize
      modifies this`shash, this`nsstoreLst, this`seen, this`part, this`blocks, sigbuf, sigbuf.buffer, nsstore
      ensures Valid() && seen == old(seen) + [b]
    {
      hide Hash, Stored, Sign;
      SignExtends(m, bsnt, seen, [b], blocks);
      PushByte(b);
      if sigbuf.Full() {
        FinishBlock();
      }
    }

    /** The byte joins the block in progress. */
    method PushByte(b: Byte)
      requires Valid() && |seen| < filesize
      modifies this`shash, this`seen, this`part, sigbuf, sigbuf.buffer
      ensures Shape() && seen == old(seen) + [b] && part == old(part) + [b] && shash == Hash(part)
      ensures sigbuf.ptr == (if |part| == bsnt then 0 else |part|) && sigbuf.Contents()[bsnt - |part|..] == part
    {
      hide Hash, Signed, Tail;
      HashStep(part, b);
      SuffixPush(sigbuf.Contents(), part, b);
      TailPush(seen, part, bsnt * blocks, b);
      shash := Wrap(Wrap(shash * K) + b as int);
      var _ := sigbuf.Push(b);
      seen, part := seen + [b], part + [b];
    }

    /** A whole block: it is hashed, and its entry written behind the others. */
    method FinishBlock()
      requires Shape() && Signed() && |part| == bsnt && sigbuf.ptr == 0
      requires shash == Hash(part) && sigbuf.Contents() == part
      modifies this`shash, this`nsstoreLst, this`part, this`blocks, nsstore
      ensures Valid()
    {
      hide Hash, Signed, Digest;
      var strong := RingDigest(m, degree, sigbuf);
      AppendEntry(strong);
      EmptyHash();
    }

    /** The entry of the finished block, behind the others. */
    method AppendEntry(strong: Cv)
      requires Shape() && Signed() && |part| == bsnt && shash == Hash(part) && strong == Digest(m, part)
      modifies this`shash, this`nsstoreLst, this`part, this`blocks, nsstore
      ensures Shape() && Signed() && part == [] && shash == 0
    {
      hide Hash, Stored, Sign, Digest;
      NextBlock(blocks, |seen|, filesize, bsnt);
      SignNext(m, bsnt, seen, blocks);
      StoredNext(bsnt, filesize / bsnt, Sign(m, bsnt, seen, blocks), EntryOf(m, part));
      WriteAt(nsstore, nsstoreLst, EntryBytes(Entry(shash, strong)));
      nsstoreLst := nsstoreLst + ENTRY_LEN;
      shash, part, blocks := 0, [], blocks + 1;
    }

    /** Once the whole file has passed, the signature fills its place exactly. */
    lemma Complete()
      requires Valid() && |seen| == filesize
      ensures nsstoreLst == nsstore.Length == 8 + ENTRY_LEN * (filesize / bsnt)
      ensures nsstore[..] == StoredSignature(m, bsnt, seen)
    {
      QuotientIs(|seen|, bsnt, blocks, |part|);
    }
  }

  /** A suffix grows with the sequence, and with a ring that drops its oldest element. */
  lemma SuffixPush(s: seq<Byte>, part: seq<Byte>, b: Byte)
    requires |part| <= |s| && s[|s| - |part|..] == part
    ensures (s + [b])[|s| - |part|..] == part + [b]
    ensures |part| < |s| ==> (s[1..] + [b])[|s| - |part| - 1..] == part + [b]
  {
    if |part| < |s| {
      assert s[1..] + [b] == (s + [b])[1..];
    }
  }

  lemma EmptyHash()
    ensures Hash([]) == 0
  {
  }

  /** One more whole block than before, and room for its entry. */
  lemma NextBlock(n: nat, seen: nat, filesize: nat, size: nat)
    requires 0 < size && seen == size * n + size <= filesize
    ensures size * (n + 1) == seen && n + 1 <= filesize / size
  {
    BlockEnd(size, n);
    if filesize / size < n + 1 {
      MulGap(size, filesize / size, n + 1);
    }
  }

  lemma SignNext(m: Mode, size: nat, file: seq<Byte>, n: nat)
    requires size * n + size == |file| && size * (n + 1) == |file|
    ensures Sign(m, size, file, n + 1) == Sign(m, size, file, n) + [EntryOf(m, file[|file| - size..])]
  {
    hide EntryOf;
    assert Block(file, size, n) == file[|file| - size..];
  }

  lemma StoredNext(size: nat, count: nat, entries: seq<Entry>, e: Entry)
    ensures Stored(size, count, entries + [e]) == Stored(size, count, entries) + EntryBytes(e)
  {
    hide Store, EntryBytes;
    StoreAppend(entries, e);
  }

  /** The signature of a whole file as it is stored. */
  ghost function StoredSignature(m: Mode, size: nat, file: seq<Byte>): seq<Byte>
    requires 0 < size
  {
    Stored(size, |file| / size, SignatureOf(m, size, file))
  }
}
