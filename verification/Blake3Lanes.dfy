/** Where the hash tree and the word-level code meet: with the portable compression function in the
    place of the tree's parameter, the four-lane code delivers the chaining values the tree asks for. */
module Blake3Lanes {
  import opened Bytes
  import opened Blake3Tree
  import opened Blake3Subtree
  import Words = Blake3Words
  import Neon = Blake3Neon

  // ----- flags -----

  function Bit(b: bool, v: bv8): bv8 { if b then v else 0 }

  /** enum blake3_flags */
  function FlagBits(s: set<Flag>): bv8 {
    Bit(ChunkStart in s, 1) | Bit(ChunkEnd in s, 2) | Bit(Parent in s, 4) | Bit(Root in s, 8)
    | Bit(KeyedHash in s, 16) | Bit(DeriveKeyContext in s, 32) | Bit(DeriveKeyMaterial in s, 64)
  }

  const FLAGS := [ChunkStart, ChunkEnd, Parent, Root, KeyedHash, DeriveKeyContext, DeriveKeyMaterial]

  /** Bit i stands for the i-th flag, and no other bit is ever set. */
  lemma FlagPlaces(s: set<Flag>, i: nat)
    requires i < 8
    ensures FlagBits(s) & (1 << i) != 0 <==> i < 7 && FLAGS[i] in s
  {
    assert i == 0 || i == 1 || i == 2 || i == 3 || i == 4 || i == 5 || i == 6 || i == 7;
  }

  function Mask(s: set<Flag>): Byte { FlagBits(s) as Byte }

  lemma BitsUnion(a: set<Flag>, b: set<Flag>)
    ensures FlagBits(a + b) == FlagBits(a) | FlagBits(b)
    ensures FlagBits({}) == 0
  {
  }

  lemma OrOfBits(x: bv8, y: bv8)
    ensures Words.Or(x as Byte, y as Byte) == (x | y) as Byte
  {
    hide Words.Or;
    ByteBits(x);
    ByteBits(y);
    OrIs(x as Byte, y as Byte, x, y);
  }

  lemma ByteBits(x: bv8)
    ensures (x as Byte) as bv8 == x
  {
  }

  lemma OrIs(p: Byte, q: Byte, x: bv8, y: bv8)
    requires p as bv8 == x && q as bv8 == y
    ensures Words.Or(p, q) == (x | y) as Byte
  {
  }

  /** Or-ing flag bytes is the union of the flags. */
  lemma MaskUnion(a: set<Flag>, b: set<Flag>)
    ensures Mask(a + b) == Words.Or(Mask(a), Mask(b))
  {
    hide FlagBits, Words.Or;
    BitsUnion(a, b);
    OrOfBits(FlagBits(a), FlagBits(b));
  }

  lemma MaskNothing(a: Byte)
    ensures Words.Or(a, Mask({})) == a
  {
    hide FlagBits;
    BitsUnion({}, {});
    OrZero(a);
  }

  lemma OrZero(a: Byte)
    ensures Words.Or(a, 0) == a
  {
    assert ((a as bv8) | 0) == (a as bv8);
    assert ((0 as Byte) as bv8) == 0;
    assert ((a as bv8) as Byte) == a;
  }

  // ----- the portable compression function -----

  ghost predicate Fits(cv: seq<Word32>, block: seq<Byte>, blockLen: nat) {
    |cv| == 8 && |block| == BLOCK_LEN && blockLen <= BLOCK_LEN
  }

  /** Words that no call of the code can produce are sent anywhere. */
  ghost function Portable(): Compression {
    Compression(
      (cv, block, blockLen, counter, flags) =>
        if Fits(cv, block, blockLen) then Words.Compress(cv, block, blockLen, counter, Mask(flags)) else [],
      (cv, block, blockLen, counter, flags) =>
        if Fits(cv, block, blockLen) then Words.Stored(Words.CompressWide(cv, block, blockLen, counter, Mask(flags)))
        else seq(BLOCK_LEN, _ => 0),
      cv => if |cv| == 8 then Words.Stored(cv) else seq(OUT_LEN, _ => 0))
  }

  /** The first half of a block of output is the chaining value of the same compression. */
  lemma WideStartsWithCv(o: Output)
    requires Fits(o.inputCv, o.block, o.blockLen)
    ensures Portable().xof(o.inputCv, o.block, o.blockLen, o.counter, o.flags)[..OUT_LEN] == CvOf(Portable(), o)
  {
    var wide := Words.CompressWide(o.inputCv, o.block, o.blockLen, o.counter, Mask(o.flags));
    var cv := Words.Compress(o.inputCv, o.block, o.blockLen, o.counter, Mask(o.flags));
    assert wide[..8] == cv;
    StoredFront(wide, 8);
  }

  lemma {:induction false} StoredFront(words: seq<Word32>, n: nat)
    requires n <= |words|
    ensures Words.Stored(words)[..4 * n] == Words.Stored(words[..n])
  {
    if n == |words| {
      assert words[..n] == words;
    } else {
      StoredFront(words[..|words| - 1], n);
      assert words[..|words| - 1][..n] == words[..n];
    }
  }

  // ----- a row of blocks, from the front and from the back -----

  lemma {:induction false} HashBlocksSnoc(cv: seq<Word32>, input: seq<Byte>, n: nat, counter: nat, flags: Byte, first: Byte, end: Byte)
    requires |cv| == 8 && |input| == BLOCK_LEN * (n + 1)
    ensures Words.HashBlocks(cv, input, n + 1, counter, flags, first, end)
         == Words.Compress(Words.HashBlocks(cv, input[..BLOCK_LEN * n], n, counter, flags, first, Mask({})), input[BLOCK_LEN * n..],
                           BLOCK_LEN, counter, Words.Or(if n == 0 then first else flags, end))
    decreases n
  {
    hide Words.Compress, Words.Or;
    if n == 0 {
      assert input[..BLOCK_LEN] == input == input[0..];
    } else {
      var next := Words.Compress(cv, input[..BLOCK_LEN], BLOCK_LEN, counter, first);
      var rest := input[BLOCK_LEN..];
      HashBlocksSnoc(next, rest, n - 1, counter, flags, flags, end);
      MaskNothing(first);
      var front := input[..BLOCK_LEN * n];
      assert front[..BLOCK_LEN] == input[..BLOCK_LEN];
      assert front[BLOCK_LEN..] == rest[..BLOCK_LEN * (n - 1)];
      assert rest[BLOCK_LEN * (n - 1)..] == input[BLOCK_LEN * n..];
    }
  }

  /** A mode that runs on the portable code. */
  ghost predicate OnWords(m: Mode) {
    m.c == Portable() && |m.key| == 8
  }

  /** The first block carries the start flag as well. */
  function First(m: Mode, start: set<Flag>): Byte {
    Words.Or(Mask(m.flags), Mask(start))
  }

  lemma {:induction false} FedIsWords(m: Mode, start: set<Flag>, counter: nat, input: seq<Byte>, n: nat)
    requires OnWords(m) && |input| == BLOCK_LEN * n
    ensures Fed(m, start, counter, input)
         == Words.HashBlocks(m.key, input, n, counter, Mask(m.flags), First(m, start), Mask({}))
    decreases n
  {
    hide Words.Compress, Words.Or, Mask;
    if n > 0 {
      var front := input[..BLOCK_LEN * (n - 1)];
      FedIsWords(m, start, counter, front, n - 1);
      HashBlocksSnoc(m.key, input, n - 1, counter, Mask(m.flags), First(m, start), Mask({}));
      MaskUnion(m.flags, start);
      MaskNothing(First(m, start));
      MaskNothing(Mask(m.flags));
      assert m.flags + {} == m.flags;
    }
  }

  /** The chaining value of whole blocks, as the tree asks for it, is what hash_one computes on words. */
  lemma HashOneIsWords(m: Mode, start: set<Flag>, end: set<Flag>, counter: nat, input: seq<Byte>, n: nat)
    requires OnWords(m) && |input| == BLOCK_LEN * n
    ensures HashOneCv(m, start, end, counter, input)
         == Words.Stored(Words.HashBlocks(m.key, input, n, counter, Mask(m.flags), First(m, start), Mask(end)))
  {
    hide Words.Compress, Words.Or, Mask, Words.Stored;
    if n > 0 {
      var flags := m.flags + (if n == 1 then start else {});
      FedIsWords(m, start, counter, input[..BLOCK_LEN * (n - 1)], n - 1);
      HashBlocksSnoc(m.key, input, n - 1, counter, Mask(m.flags), First(m, start), Mask(end));
      MaskUnion(m.flags, start);
      MaskUnion(flags, end);
      assert m.flags + {} == m.flags;
    }
  }

  // ----- hash_many -----

  /** The outputs of the four-lane code, read as chaining values, are those of the inputs: what the wide
      subtree function needs from its many-input hash, whether for chunks or for parents. */
  method HashManyOnLanes(ghost m: Mode, key: seq<Word32>, flags: Byte, inputs: seq<seq<Byte>>, n: nat, counter: nat,
                         increment: bool, start: set<Flag>, end: set<Flag>) returns (cvs: seq<Cv>)
    requires OnWords(m) && key == m.key && flags == Mask(m.flags)
    requires forall i :: 0 <= i < |inputs| ==> |inputs[i]| == BLOCK_LEN * n
    ensures |cvs| == |inputs|
    ensures forall i :: 0 <= i < |inputs| ==>
              cvs[i] == HashOneCv(m, start, end, if increment then counter + i else counter, inputs[i])
  {
    hide Words.HashBlocks, Words.Or, Mask, Words.Stored, HashOneCv, Fed;
    var out := new Word32[8 * |inputs|];
    assert forall i :: 0 <= i < |inputs| ==> Words.BLOCK * n <= |inputs[i]|;
    Neon.HashManyNeon(inputs, n, key, counter, increment, flags, Mask(start), Mask(end), out);
    ghost var all := out[..];
    cvs := [];
    for i := 0 to |inputs|
      invariant |cvs| == i && out[..] == all
      invariant forall j :: 0 <= j < i ==>
                  cvs[j] == HashOneCv(m, start, end, if increment then counter + j else counter, inputs[j])
    {
      var at := Neon.CounterAt(counter, increment, i);
      ghost var words := Words.HashBlocks(key, inputs[i], n, at, flags, First(m, start), Mask(end));
      assert Neon.Placed(all, i, words) by {
        assert words == Words.HashBlocks(key, inputs[i], n, Neon.CounterAt(counter, increment, i), flags,
                                         Words.Or(flags, Mask(start)), Mask(end));
      }
      assert out[8 * i..8 * i + 8] == all[8 * i..8 * i + 8] == words;
      HashOneIsWords(m, start, end, at, inputs[i], n);
      var cv: Cv := Words.Stored(out[8 * i..8 * i + 8]);
      cvs := cvs + [cv];
    }
  }
}
