/** The reference: the BLAKE3 hash tree of a message, as sections 2.1 and 2.4 to 2.6 of the BLAKE3
    specification define it.  The compression function is a parameter. */
module Blake3Tree {
  import opened Blake3Bits
  import opened Bytes

  type Words = seq<Word32>

  /** The byte form of a chaining value, and one block of output. */
  type Cv = s: seq<Byte> | |s| == OUT_LEN witness seq(OUT_LEN, _ => 0)
  type XofBlock = s: seq<Byte> | |s| == BLOCK_LEN witness seq(BLOCK_LEN, _ => 0)

  datatype Flag = ChunkStart | ChunkEnd | Parent | Root | KeyedHash | DeriveKeyContext | DeriveKeyMaterial

  const OUT_LEN := 32
  const BLOCK_LEN := 64
  const CHUNK_LEN := 1024

  /** The two forms of the compression function, and the byte form of a chaining value. */
  datatype Compression = Compression(
    compress: (Words, seq<Byte>, nat, nat, set<Flag>) -> Words,
    xof: (Words, seq<Byte>, nat, nat, set<Flag>) -> XofBlock,
    store: Words -> Cv)

  /** What stays the same over one hash. */
  datatype Mode = Mode(c: Compression, key: Words, flags: set<Flag>)

  /** A node whose last compression is still open, because it might be the root. */
  datatype Output = Output(inputCv: Words, block: seq<Byte>, blockLen: nat, counter: nat, flags: set<Flag>)

  function CvOf(c: Compression, o: Output): Cv {
    c.store(c.compress(o.inputCv, o.block, o.blockLen, o.counter, o.flags))
  }

  /** A block filled up with zeros. */
  function Pad(bytes: seq<Byte>): seq<Byte>
    requires |bytes| <= BLOCK_LEN
  {
    bytes + seq(BLOCK_LEN - |bytes|, _ => 0)
  }

  function StartFlag(blocks: nat): set<Flag> {
    if blocks == 0 then {ChunkStart} else {}
  }

  // ----- chunks -----

  /** Chaining value after compressing whole blocks of a chunk. */
  ghost function Chain(m: Mode, counter: nat, bytes: seq<Byte>): Words {
    if |bytes| < BLOCK_LEN then m.key
    else m.c.compress(Chain(m, counter, bytes[..|bytes| - BLOCK_LEN]), bytes[|bytes| - BLOCK_LEN..], BLOCK_LEN, counter,
                      m.flags + StartFlag((|bytes| - BLOCK_LEN) / BLOCK_LEN))
  }

  /** Blocks before the last one; the last block is never empty unless the chunk is. */
  function FullBlocks(n: nat): nat {
    if n == 0 then 0 else (n - 1) / BLOCK_LEN
  }

  ghost function ChunkOutput(m: Mode, counter: nat, bytes: seq<Byte>): Output {
    var n := FullBlocks(|bytes|);
    Output(Chain(m, counter, bytes[..BLOCK_LEN * n]), Pad(bytes[BLOCK_LEN * n..]), |bytes| - BLOCK_LEN * n, counter,
           m.flags + StartFlag(n) + {ChunkEnd})
  }

  // ----- the tree -----

  function ParentBlock(left: Cv, right: Cv): seq<Byte> {
    left + right
  }

  function ParentOutput(m: Mode, left: Cv, right: Cv): Output {
    Output(m.key, ParentBlock(left, right), BLOCK_LEN, 0, m.flags + {Parent})
  }

  ghost function LargestPow2(n: nat): (p: nat)
    requires 0 < n
    ensures IsPow2(p) && p <= n < 2 * p
  {
    Pow2One();
    if n < 2 then 1
    else
      var q := LargestPow2(n / 2);
      Pow2Double(q);
      2 * q
  }

  /** Length of the left subtree: the most chunks, a power of two, that leave a byte for the right. */
  ghost function LeftLen(n: nat): (l: nat)
    requires CHUNK_LEN < n
    ensures CHUNK_LEN <= l < n && n <= 2 * l && l % CHUNK_LEN == 0 && IsPow2(l / CHUNK_LEN)
  {
    CHUNK_LEN * LargestPow2((n - 1) / CHUNK_LEN)
  }

  ghost function Tree(m: Mode, counter: nat, bytes: seq<Byte>): Output
    decreases |bytes|
  {
    if |bytes| <= CHUNK_LEN then ChunkOutput(m, counter, bytes)
    else
      var l := LeftLen(|bytes|);
      ParentOutput(m, CvOf(m.c, Tree(m, counter, bytes[..l])),
                   CvOf(m.c, Tree(m, counter + l / CHUNK_LEN, bytes[l..])))
  }

  ghost function TreeCv(m: Mode, counter: nat, bytes: seq<Byte>): Cv {
    CvOf(m.c, Tree(m, counter, bytes))
  }

  /** A power of two that covers all but the last chunks, and at least half, is the left subtree. */
  lemma LeftLenIs(n: nat, p: nat)
    requires IsPow2(p) && CHUNK_LEN * p < n <= 2 * (CHUNK_LEN * p)
    ensures CHUNK_LEN < n && LeftLen(n) == CHUNK_LEN * p
  {
    Pow2Double(p);
    var q := LargestPow2((n - 1) / CHUNK_LEN);
    if p < q {
      Pow2Gap(p, q);
    } else if q < p {
      Pow2Gap(q, p);
    }
  }

  lemma TreeSplit(m: Mode, counter: nat, bytes: seq<Byte>, p: nat)
    requires IsPow2(p) && CHUNK_LEN * p < |bytes| <= 2 * (CHUNK_LEN * p)
    ensures Tree(m, counter, bytes) == ParentOutput(m, TreeCv(m, counter, bytes[..CHUNK_LEN * p]),
                                                    TreeCv(m, counter + p, bytes[CHUNK_LEN * p..]))
  {
    hide LeftLen, ChunkOutput, CvOf, IsPow2;
    LeftLenIs(|bytes|, p);
    assert LeftLen(|bytes|) / CHUNK_LEN == p;
  }

  // ----- extendable output -----

  /** Byte i of the output stream. */
  function XofByte(c: Compression, o: Output, i: nat): Byte {
    c.xof(o.inputCv, o.block, o.blockLen, i / BLOCK_LEN, o.flags + {Root})[i % BLOCK_LEN]
  }

  ghost function RootBytes(c: Compression, o: Output, seek: nat, n: nat): seq<Byte> {
    seq(n, i requires 0 <= i < n => XofByte(c, o, seek + i))
  }
}
