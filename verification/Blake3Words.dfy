/** The scalar compression function of BLAKE3 on 32-bit words, as the portable code computes it. */
module Blake3Words {
  import opened Bytes

  // ----- the operations -----

  /** Addition wraps around. */
  function Add(x: Word32, y: Word32): Word32 { Wrap(x + y) }

  function Bits(w: Word32): bv32 { w as bv32 }

  function FromBits(b: bv32): Word32 { b as nat }

  function Xor(x: Word32, y: Word32): Word32 { FromBits(Bits(x) ^ Bits(y)) }

  /** rotr32 by the four distances that occur. */
  function Rotr16(w: Word32): Word32 { FromBits(Right(Bits(w), 16)) }
  function Rotr12(w: Word32): Word32 { FromBits(Right(Bits(w), 12)) }
  function Rotr8(w: Word32): Word32 { FromBits(Right(Bits(w), 8)) }
  function Rotr7(w: Word32): Word32 { FromBits(Right(Bits(w), 7)) }

  function Right(w: bv32, c: nat): bv32
    requires c == 16 || c == 12 || c == 8 || c == 7
  {
    if c == 16 then (w >> 16) | (w << 16)
    else if c == 12 then (w >> 12) | (w << 20)
    else if c == 8 then (w >> 8) | (w << 24)
    else (w >> 7) | (w << 25)
  }

  /** The shifts amount to rotations to the right. */
  lemma RightRotates(w: bv32)
    ensures Right(w, 16) == w.RotateRight(16) && Right(w, 12) == w.RotateRight(12)
    ensures Right(w, 8) == w.RotateRight(8) && Right(w, 7) == w.RotateRight(7)
  {
  }

  /** Addition in another order, which the vector code uses. */
  lemma AddSwap(a: Word32, b: Word32, x: Word32)
    ensures Add(Add(a, x), b) == Add(Add(a, b), x)
  {
  }

  // ----- columns and diagonals of the state -----

  datatype Quad<T> = Quad(a: T, b: T, c: T, d: T)

  /** Place k of row r: straight down for columns, shifted by the row for diagonals. */
  function Place(r: nat, k: nat, diagonal: bool): (p: nat)
    requires r < 4 && k < 4
    ensures 4 * r <= p < 4 * r + 4
  {
    4 * r + if diagonal then (k + r) % 4 else k
  }

  function QuadAt<T>(v: seq<T>, k: nat, diagonal: bool): Quad<T>
    requires |v| == 16 && k < 4
  {
    Quad(v[Place(0, k, diagonal)], v[Place(1, k, diagonal)], v[Place(2, k, diagonal)], v[Place(3, k, diagonal)])
  }

  function WithQuad<T>(v: seq<T>, k: nat, diagonal: bool, q: Quad<T>): (w: seq<T>)
    requires |v| == 16 && k < 4
    ensures |w| == 16
  {
    v[Place(0, k, diagonal) := q.a][Place(1, k, diagonal) := q.b][Place(2, k, diagonal) := q.c][Place(3, k, diagonal) := q.d]
  }

  lemma PlaceDistinct(r: nat, j: nat, k: nat, diagonal: bool)
    requires r < 4 && j < 4 && k < 4
    ensures Place(r, j, diagonal) == Place(r, k, diagonal) <==> j == k
  {
  }

  /** Changing one quad leaves the others alone. */
  lemma QuadOfWith<T>(v: seq<T>, k: nat, diagonal: bool, q: Quad<T>, j: nat)
    requires |v| == 16 && k < 4 && j < 4
    ensures QuadAt(WithQuad(v, k, diagonal, q), j, diagonal) == if j == k then q else QuadAt(v, j, diagonal)
  {
    hide Place;
    PlaceDistinct(0, j, k, diagonal);
    PlaceDistinct(1, j, k, diagonal);
    PlaceDistinct(2, j, k, diagonal);
    PlaceDistinct(3, j, k, diagonal);
  }

  /** The four quads make up the state. */
  lemma Determined<T>(v: seq<T>, w: seq<T>, diagonal: bool)
    requires |v| == |w| == 16
    requires forall k: nat :: k < 4 ==> QuadAt(v, k, diagonal) == QuadAt(w, k, diagonal)
    ensures v == w
  {
    assert QuadAt(v, 0, diagonal) == QuadAt(w, 0, diagonal) && QuadAt(v, 1, diagonal) == QuadAt(w, 1, diagonal);
    assert QuadAt(v, 2, diagonal) == QuadAt(w, 2, diagonal) && QuadAt(v, 3, diagonal) == QuadAt(w, 3, diagonal);
    forall i | 0 <= i < 16 ensures v[i] == w[i] {
      var r := i / 4;
      var k := if diagonal then (i % 4 + 4 - r) % 4 else i % 4;
      assert Place(r, k, diagonal) == i;
    }
  }

  // ----- the mixing function -----

  /** The eight assignments of g. */
  function Mix(q: Quad<Word32>, x: Word32, y: Word32): Quad<Word32> {
    var a1 := Add(Add(q.a, q.b), x);
    var d1 := Rotr16(Xor(q.d, a1));
    var c1 := Add(q.c, d1);
    var b1 := Rotr12(Xor(q.b, c1));
    var a2 := Add(Add(a1, b1), y);
    var d2 := Rotr8(Xor(d1, a2));
    var c2 := Add(c1, d2);
    var b2 := Rotr7(Xor(b1, c2));
    Quad(a2, b2, c2, d2)
  }

  const SCHEDULE: seq<seq<nat>> := [
    [0, 1, 2, 3, 4, 5, 6, 7, 8, 9, 10, 11, 12, 13, 14, 15],
    [2, 6, 3, 10, 7, 0, 4, 13, 1, 11, 12, 5, 9, 14, 15, 8],
    [3, 4, 10, 12, 13, 2, 7, 14, 6, 5, 9, 0, 11, 15, 8, 1],
    [10, 7, 12, 9, 14, 3, 13, 15, 4, 0, 11, 2, 5, 8, 1, 6],
    [12, 13, 9, 11, 15, 10, 14, 8, 7, 2, 5, 3, 0, 1, 6, 4],
    [9, 14, 11, 5, 8, 12, 15, 1, 13, 3, 0, 10, 2, 6, 4, 7],
    [11, 15, 5, 0, 1, 9, 8, 6, 14, 10, 2, 12, 3, 4, 7, 13]]

  /** Which message word is mixed in, by round and place in the round. */
  function Scheduled(round: nat, i: nat): (j: nat)
    requires round < 7 && i < 16
    ensures j < 16
  {
    SCHEDULE[round][i]
  }

  /** From one round to the next the schedule applies the same permutation, that of round 1. */
  lemma ScheduleFollows(round: nat, i: nat)
    requires round < 6 && i < 16
    ensures Scheduled(0, i) == i && Scheduled(round + 1, i) == Scheduled(1, Scheduled(round, i))
  {
    assert round == 0 || round == 1 || round == 2 || round == 3 || round == 4 || round == 5;
    assert i == 0 || i == 1 || i == 2 || i == 3 || i == 4 || i == 5 || i == 6 || i == 7
           || i == 8 || i == 9 || i == 10 || i == 11 || i == 12 || i == 13 || i == 14 || i == 15;
  }

  /** Every round mixes in every message word once. */
  lemma {:induction false} SchedulePermutes(round: nat, j: nat) returns (i: nat)
    requires round < 7 && j < 16
    ensures i < 16 && Scheduled(round, i) == j
    ensures forall k: nat :: k < 16 && Scheduled(round, k) == j ==> k == i
  {
    hide Scheduled;
    if round == 0 {
      i := j;
      forall k: nat | k < 16 ensures Scheduled(0, k) == k { ScheduleFollows(0, k); }
    } else {
      var m := FirstRoundFrom(j);
      i := SchedulePermutes(round - 1, m);
      forall k: nat | k < 16 ensures Scheduled(round, k) == Scheduled(1, Scheduled(round - 1, k)) {
        ScheduleFollows(round - 1, k);
      }
    }
  }

  /** The word that the permutation moves to j. */
  lemma FirstRoundFrom(j: nat) returns (m: nat)
    requires j < 16
    ensures m < 16 && Scheduled(1, m) == j && forall k: nat :: k < 16 && Scheduled(1, k) == j ==> k == m
  {
    m := [5, 8, 0, 2, 6, 11, 1, 4, 15, 12, 3, 9, 10, 7, 13, 14][j];
  }

  /** The state after one half of a round: every quad mixed with its two message words. */
  ghost predicate HalfRound(before: seq<Word32>, after: seq<Word32>, msg: seq<Word32>, round: nat, diagonal: bool) {
    |before| == |after| == |msg| == 16 && round < 7 && forall k: nat :: k < 4 ==> QuadMixed(before, after, msg, round, diagonal, k)
  }

  ghost predicate QuadMixed(before: seq<Word32>, after: seq<Word32>, msg: seq<Word32>, round: nat, diagonal: bool, k: nat)
    requires |before| == |after| == |msg| == 16 && round < 7 && k < 4
  {
    var base := (if diagonal then 8 else 0) + 2 * k;
    QuadAt(after, k, diagonal) == Mix(QuadAt(before, k, diagonal), msg[Scheduled(round, base)], msg[Scheduled(round, base + 1)])
  }

  /** A half round has one outcome. */
  lemma HalfRoundUnique(before: seq<Word32>, x: seq<Word32>, y: seq<Word32>, msg: seq<Word32>, round: nat, diagonal: bool)
    requires HalfRound(before, x, msg, round, diagonal) && HalfRound(before, y, msg, round, diagonal)
    ensures x == y
  {
    hide Mix, Scheduled, QuadAt;
    forall k: nat | k < 4 ensures QuadAt(x, k, diagonal) == QuadAt(y, k, diagonal) {
      assert QuadMixed(before, x, msg, round, diagonal, k) && QuadMixed(before, y, msg, round, diagonal, k);
    }
    Determined(x, y, diagonal);
  }

  /** The state after half a round. */
  ghost function Half(before: seq<Word32>, msg: seq<Word32>, round: nat, diagonal: bool): (after: seq<Word32>)
    requires |before| == |msg| == 16 && round < 7
    ensures |after| == 16
  {
    seq(16, i requires 0 <= i < 16 => HalfAt(before, msg, round, diagonal, i))
  }

  ghost function HalfAt(before: seq<Word32>, msg: seq<Word32>, round: nat, diagonal: bool, i: nat): Word32
    requires |before| == |msg| == 16 && round < 7 && i < 16
  {
    var k := if diagonal then (i % 4 + 4 - i / 4) % 4 else i % 4;
    var base := (if diagonal then 8 else 0) + 2 * k;
    var q := Mix(QuadAt(before, k, diagonal), msg[Scheduled(round, base)], msg[Scheduled(round, base + 1)]);
    if i / 4 == 0 then q.a else if i / 4 == 1 then q.b else if i / 4 == 2 then q.c else q.d
  }

  lemma HalfIsMixed(before: seq<Word32>, msg: seq<Word32>, round: nat, diagonal: bool)
    requires |before| == |msg| == 16 && round < 7
    ensures HalfRound(before, Half(before, msg, round, diagonal), msg, round, diagonal)
  {
    hide Mix, Scheduled;
    var after := Half(before, msg, round, diagonal);
    forall k: nat | k < 4 ensures QuadMixed(before, after, msg, round, diagonal, k) {
      HalfPlaces(before, msg, round, diagonal, k);
    }
  }

  lemma PlaceBack(r: nat, k: nat, diagonal: bool)
    requires r < 4 && k < 4
    ensures var p := Place(r, k, diagonal);
            p < 16 && p / 4 == r && k == if diagonal then (p % 4 + 4 - p / 4) % 4 else p % 4
  {
  }

  /** The entry at place k of row r is that component of the mixed quad. */
  lemma HalfAtPlace(before: seq<Word32>, msg: seq<Word32>, round: nat, diagonal: bool, r: nat, k: nat)
    requires |before| == |msg| == 16 && round < 7 && r < 4 && k < 4
    ensures var base := (if diagonal then 8 else 0) + 2 * k;
            var q := Mix(QuadAt(before, k, diagonal), msg[Scheduled(round, base)], msg[Scheduled(round, base + 1)]);
            Half(before, msg, round, diagonal)[Place(r, k, diagonal)]
            == if r == 0 then q.a else if r == 1 then q.b else if r == 2 then q.c else q.d
  {
    hide Place, QuadAt, Mix, Scheduled;
    PlaceBack(r, k, diagonal);
  }

  lemma HalfPlaces(before: seq<Word32>, msg: seq<Word32>, round: nat, diagonal: bool, k: nat)
    requires |before| == |msg| == 16 && round < 7 && k < 4
    ensures QuadMixed(before, Half(before, msg, round, diagonal), msg, round, diagonal, k)
  {
    hide Mix, Scheduled, Half, Place;
    HalfAtPlace(before, msg, round, diagonal, 0, k);
    HalfAtPlace(before, msg, round, diagonal, 1, k);
    HalfAtPlace(before, msg, round, diagonal, 2, k);
    HalfAtPlace(before, msg, round, diagonal, 3, k);
  }

  /** Whatever mixes every quad gives the state after half a round. */
  lemma HalfIs(before: seq<Word32>, after: seq<Word32>, msg: seq<Word32>, round: nat, diagonal: bool)
    requires HalfRound(before, after, msg, round, diagonal)
    ensures after == Half(before, msg, round, diagonal)
  {
    hide Half, HalfRound;
    assert |before| == |msg| == 16 && round < 7 by { Sizes(before, after, msg, round, diagonal); }
    HalfIsMixed(before, msg, round, diagonal);
    HalfRoundUnique(before, after, Half(before, msg, round, diagonal), msg, round, diagonal);
  }

  lemma Sizes(before: seq<Word32>, after: seq<Word32>, msg: seq<Word32>, round: nat, diagonal: bool)
    requires HalfRound(before, after, msg, round, diagonal)
    ensures |before| == |after| == |msg| == 16 && round < 7
  {
  }

  ghost function Round(s: seq<Word32>, msg: seq<Word32>, round: nat): (r: seq<Word32>)
    requires |s| == |msg| == 16 && round < 7
    ensures |r| == 16
  {
    Half(Half(s, msg, round, false), msg, round, true)
  }

  ghost function Rounds(s: seq<Word32>, msg: seq<Word32>, n: nat): (r: seq<Word32>)
    requires |s| == |msg| == 16 && n <= 7
    ensures |r| == 16
  {
    if n == 0 then s else Round(Rounds(s, msg, n - 1), msg, n - 1)
  }

  // ----- one block, and a row of blocks -----

  const IV: seq<Word32> := [0x6A09E667, 0xBB67AE85, 0x3C6EF372, 0xA54FF53A, 0x510E527F, 0x9B05688C, 0x1F83D9AB, 0x5BE0CD19]
  const BLOCK := 64
  const PRIMES := [2, 3, 5, 7, 11, 13, 17, 19]

  /** The words are the first 32 bits behind the point of the square roots of the first eight primes. */
  lemma IvIsRoot(i: nat) returns (x: nat)
    requires i < 8
    ensures x % WORD == IV[i] && x * x <= PRIMES[i] * WORD * WORD < (x + 1) * (x + 1)
  {
    x := [1, 1, 2, 2, 3, 3, 4, 4][i] * WORD + IV[i];
  }

  function Or(a: Byte, b: Byte): Byte {
    ((a as bv8) | (b as bv8)) as Byte
  }

  function CounterLow(c: nat): Word32 { c % WORD }

  function CounterHigh(c: nat): Word32 { c / WORD % WORD }

  function Load(bytes: seq<Byte>, i: nat): Word32
    requires 4 * i + 4 <= |bytes|
  {
    FromLe32(bytes[4 * i..4 * i + 4])
  }

  function BlockWords(block: seq<Byte>): (w: seq<Word32>)
    requires |block| == BLOCK
    ensures |w| == 16
  {
    seq(16, i requires 0 <= i < 16 => Load(block, i))
  }

  function StartState(cv: seq<Word32>, blockLen: Word32, counter: nat, flags: Byte): (s: seq<Word32>)
    requires |cv| == 8
    ensures |s| == 16
  {
    cv + [IV[0], IV[1], IV[2], IV[3]] + [CounterLow(counter), CounterHigh(counter), blockLen, flags as int]
  }

  function Feed(s: seq<Word32>): (cv: seq<Word32>)
    requires |s| == 16
    ensures |cv| == 8
  {
    seq(8, i requires 0 <= i < 8 => Xor(s[i], s[i + 8]))
  }

  ghost function Compress(cv: seq<Word32>, block: seq<Byte>, blockLen: Word32, counter: nat, flags: Byte): (r: seq<Word32>)
    requires |cv| == 8 && |block| == BLOCK
    ensures |r| == 8
  {
    Feed(Rounds(StartState(cv, blockLen, counter, flags), BlockWords(block), 7))
  }

  /** The extendable form: the whole state is fed, its second half with the old chaining value. */
  function FeedWide(s: seq<Word32>, cv: seq<Word32>): (r: seq<Word32>)
    requires |s| == 16 && |cv| == 8
    ensures |r| == 16
  {
    Feed(s) + seq(8, i requires 0 <= i < 8 => Xor(s[i + 8], cv[i]))
  }

  ghost function CompressWide(cv: seq<Word32>, block: seq<Byte>, blockLen: Word32, counter: nat, flags: Byte): (r: seq<Word32>)
    requires |cv| == 8 && |block| == BLOCK
    ensures |r| == 16
  {
    FeedWide(Rounds(StartState(cv, blockLen, counter, flags), BlockWords(block), 7), cv)
  }

  /** Words in memory, each in little-endian order. */
  function Stored(words: seq<Word32>): (bytes: seq<Byte>)
    ensures |bytes| == 4 * |words|
  {
    if words == [] then [] else Stored(words[..|words| - 1]) + Le32(words[|words| - 1])
  }

  /** load32 and store32 are inverse. */
  lemma {:induction false} LoadStored(words: seq<Word32>, i: nat)
    requires i < |words|
    ensures Load(Stored(words), i) == words[i]
  {
    var front, last := words[..|words| - 1], words[|words| - 1];
    if i < |words| - 1 {
      LoadStored(front, i);
      assert Stored(words)[4 * i..4 * i + 4] == Stored(front)[4 * i..4 * i + 4];
    } else {
      assert Stored(words)[4 * i..4 * i + 4] == Le32(last);
      Le32RoundTrip(last);
    }
  }

  /** The chaining value after n blocks, the first with its own flags and the last with the end flag. */
  ghost function HashBlocks(cv: seq<Word32>, input: seq<Byte>, n: nat, counter: nat, flags: Byte, first: Byte, end: Byte): (r: seq<Word32>)
    requires |cv| == 8 && BLOCK * n <= |input|
    ensures |r| == 8
    decreases n
  {
    if n == 0 then cv
    else HashBlocks(Compress(cv, input[..BLOCK], BLOCK, counter, if n == 1 then Or(first, end) else first),
                    input[BLOCK..], n - 1, counter, flags, flags, end)
  }

  // ----- the portable code -----

  /** g: mixes four places of the state in place. */
  method G(state: array<Word32>, a: nat, b: nat, c: nat, d: nat, x: Word32, y: Word32)
    requires state.Length == 16 && a < b < c < d < 16
    modifies state
    ensures var q := Mix(Quad(old(state[a]), old(state[b]), old(state[c]), old(state[d])), x, y);
            state[..] == old(state[..])[a := q.a][b := q.b][c := q.c][d := q.d]
  {
    hide Add, Xor, Rotr16, Rotr12, Rotr8, Rotr7;
    state[a] := Add(Add(state[a], state[b]), x);
    state[d] := Rotr16(Xor(state[d], state[a]));
    state[c] := Add(state[c], state[d]);
    state[b] := Rotr12(Xor(state[b], state[c]));
    state[a] := Add(Add(state[a], state[b]), y);
    state[d] := Rotr8(Xor(state[d], state[a]));
    state[c] := Add(state[c], state[d]);
    state[b] := Rotr7(Xor(state[b], state[c]));
  }

  /** Mixes one quad with its scheduled words. */
  method MixQuad(state: array<Word32>, msg: seq<Word32>, round: nat, diagonal: bool, k: nat)
    requires state.Length == 16 && |msg| == 16 && round < 7 && k < 4
    modifies state
    ensures var base := (if diagonal then 8 else 0) + 2 * k;
            var q := Mix(QuadAt(old(state[..]), k, diagonal), msg[Scheduled(round, base)], msg[Scheduled(round, base + 1)]);
            state[..] == WithQuad(old(state[..]), k, diagonal, q)
  {
    hide Mix, Scheduled;
    var base := (if diagonal then 8 else 0) + 2 * k;
    G(state, Place(0, k, diagonal), Place(1, k, diagonal), Place(2, k, diagonal), Place(3, k, diagonal),
      msg[Scheduled(round, base)], msg[Scheduled(round, base + 1)]);
  }

  /** Half of round_fn: the four columns, or the four diagonals. */
  method MixFour(state: array<Word32>, msg: seq<Word32>, round: nat, diagonal: bool)
    requires state.Length == 16 && |msg| == 16 && round < 7
    modifies state
    ensures state[..] == Half(old(state[..]), msg, round, diagonal)
  {
    hide Mix, Scheduled, QuadAt, WithQuad;
    ghost var before := state[..];
    for k := 0 to 4
      invariant forall j: nat :: j < k ==> QuadMixed(before, state[..], msg, round, diagonal, j)
      invariant forall j: nat :: k <= j < 4 ==> QuadAt(state[..], j, diagonal) == QuadAt(before, j, diagonal)
    {
      ghost var was := state[..];
      MixQuad(state, msg, round, diagonal, k);
      ghost var base := (if diagonal then 8 else 0) + 2 * k;
      ghost var q := Mix(QuadAt(was, k, diagonal), msg[Scheduled(round, base)], msg[Scheduled(round, base + 1)]);
      forall j: nat | j < 4 ensures QuadAt(state[..], j, diagonal) == if j == k then q else QuadAt(was, j, diagonal) {
        QuadOfWith(was, k, diagonal, q, j);
      }
      forall j: nat | j <= k ensures QuadMixed(before, state[..], msg, round, diagonal, j) {
        if j < k {
          assert QuadMixed(before, was, msg, round, diagonal, j);
        } else {
          assert QuadAt(was, k, diagonal) == QuadAt(before, k, diagonal);
        }
      }
    }
    HalfIs(before, state[..], msg, round, diagonal);
  }

  /** round_fn */
  method RoundFn(state: array<Word32>, msg: seq<Word32>, round: nat)
    requires state.Length == 16 && |msg| == 16 && round < 7
    modifies state
    ensures state[..] == Round(old(state[..]), msg, round)
  {
    hide Half;
    MixFour(state, msg, round, false);
    MixFour(state, msg, round, true);
  }

  /** The first part of compress_pre. */
  method Initialize(cv: seq<Word32>, blockLen: Word32, counter: nat, flags: Byte) returns (state: array<Word32>)
    requires |cv| == 8
    ensures fresh(state) && state.Length == 16 && state[..] == StartState(cv, blockLen, counter, flags)
  {
    hide CounterLow, CounterHigh;
    state := new Word32[16];
    for i := 0 to 8
      invariant state[..i] == cv[..i]
    {
      state[i] := cv[i];
    }
    state[8], state[9], state[10], state[11] := IV[0], IV[1], IV[2], IV[3];
    state[12], state[13], state[14], state[15] := CounterLow(counter), CounterHigh(counter), blockLen, flags as int;
    assert state[..8] == cv;
  }

  /** compress_pre */
  method CompressPre(cv: seq<Word32>, block: seq<Byte>, blockLen: Word32, counter: nat, flags: Byte) returns (state: array<Word32>)
    requires |cv| == 8 && |block| == BLOCK
    ensures fresh(state) && state.Length == 16
    ensures state[..] == Rounds(StartState(cv, blockLen, counter, flags), BlockWords(block), 7)
  {
    hide Round, BlockWords;
    ghost var start := StartState(cv, blockLen, counter, flags);
    var words := BlockWords(block);
    state := Initialize(cv, blockLen, counter, flags);
    for r := 0 to 7
      invariant state[..] == Rounds(start, words, r)
    {
      RoundFn(state, words, r);
    }
  }

  /** blake3_compress_in_place_portable */
  method CompressInPlace(cv: array<Word32>, block: seq<Byte>, blockLen: Word32, counter: nat, flags: Byte)
    requires cv.Length == 8 && |block| == BLOCK
    modifies cv
    ensures cv[..] == Compress(old(cv[..]), block, blockLen, counter, flags)
  {
    hide Rounds, StartState, BlockWords, Xor;
    var state := CompressPre(cv[..], block, blockLen, counter, flags);
    ghost var final := state[..];
    for i := 0 to 8
      invariant state[..] == final
      invariant forall j :: 0 <= j < i ==> cv[j] == Xor(final[j], final[j + 8])
      modifies cv
    {
      cv[i] := Xor(state[i], state[i + 8]);
    }
    assert cv[..] == Feed(final);
  }

  /** blake3_compress_xof_portable: one block of output. */
  method CompressXof(cv: seq<Word32>, block: seq<Byte>, blockLen: Word32, counter: nat, flags: Byte) returns (out: seq<Byte>)
    requires |cv| == 8 && |block| == BLOCK
    ensures out == Stored(CompressWide(cv, block, blockLen, counter, flags))
  {
    hide Rounds, StartState, BlockWords, Xor, Stored, Le32;
    var state := CompressPre(cv, block, blockLen, counter, flags);
    ghost var final := state[..];
    ghost var wide := FeedWide(final, cv);
    out := [];
    StoredMore([], 0);
    for i := 0 to 8
      invariant state[..] == final && out == Stored(wide[..i])
    {
      StoredMore(wide, i);
      out := out + Le32(Xor(state[i], state[i + 8]));
    }
    for i := 8 to 16
      invariant state[..] == final && out == Stored(wide[..i])
    {
      StoredMore(wide, i);
      out := out + Le32(Xor(state[i], cv[i - 8]));
    }
    assert wide[..16] == wide;
  }

  lemma StoredMore(words: seq<Word32>, i: nat)
    ensures i < |words| ==> Stored(words[..i + 1]) == Stored(words[..i]) + Le32(words[i])
    ensures Stored([]) == []
  {
    if i < |words| {
      assert words[..i + 1][..i] == words[..i];
    }
  }

  /** hash_one_portable: the words of the chaining value. */
  method HashOne(input0: seq<Byte>, n: nat, key: seq<Word32>, counter: nat, flags: Byte, start: Byte, end: Byte)
      returns (cv: array<Word32>)
    requires |key| == 8 && BLOCK * n <= |input0|
    ensures fresh(cv) && cv.Length == 8
    ensures cv[..] == HashBlocks(key, input0, n, counter, flags, Or(flags, start), end)
  {
    hide Compress, Or;
    cv := new Word32[8](i requires 0 <= i < 8 => key[i]);
    assert cv[..] == key;
    var input, blocks, blockFlags := input0, n, Or(flags, start);
    while blocks > 0
      invariant BLOCK * blocks <= |input|
      invariant HashBlocks(cv[..], input, blocks, counter, flags, blockFlags, end)
             == HashBlocks(key, input0, n, counter, flags, Or(flags, start), end)
    {
      if blocks == 1 {
        blockFlags := Or(blockFlags, end);
      }
      CompressInPlace(cv, input[..BLOCK], BLOCK, counter, blockFlags);
      input, blocks, blockFlags := input[BLOCK..], blocks - 1, flags;
    }
  }
}
