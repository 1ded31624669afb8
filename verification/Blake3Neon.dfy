/** The four-lane form: vectors of four words, four inputs hashed at once, each lane doing what the
    scalar code does. */
module Blake3Neon {
  import opened Bytes
  import opened Blake3Words

  // ----- vectors -----

  datatype Vec = Vec(l0: Word32, l1: Word32, l2: Word32, l3: Word32)

  function Lane(v: Vec, i: nat): Word32
    requires i < 4
  {
    if i == 0 then v.l0 else if i == 1 then v.l1 else if i == 2 then v.l2 else v.l3
  }

  function Lanes(vs: seq<Vec>, i: nat): (ws: seq<Word32>)
    requires i < 4
    ensures |ws| == |vs|
  {
    seq(|vs|, j requires 0 <= j < |vs| => Lane(vs[j], i))
  }

  function Set1(w: Word32): Vec { Vec(w, w, w, w) }

  function Add128(a: Vec, b: Vec): Vec {
    Vec(Add(a.l0, b.l0), Add(a.l1, b.l1), Add(a.l2, b.l2), Add(a.l3, b.l3))
  }

  function Xor128(a: Vec, b: Vec): Vec {
    Vec(Xor(a.l0, b.l0), Xor(a.l1, b.l1), Xor(a.l2, b.l2), Xor(a.l3, b.l3))
  }

  // ----- rotations: what the instructions do to one lane -----

  /** vrev32q_u16: the two halves change places. */
  function SwapHalves(w: bv32): bv32 { ((w & 0xFFFF) << 16) | (w >> 16) }

  /** vsriq_n_u32 after vshlq_n_u32: the shifted-out bits are inserted below. */
  function ShiftInsert12(w: bv32): bv32 { ((w << 20) & 0xFFF0_0000) | (w >> 12) }
  function ShiftInsert7(w: bv32): bv32 { ((w << 25) & 0xFE00_0000) | (w >> 7) }

  /** The byte shuffle 1, 2, 3, 0 of every word. */
  function Shuffle8(w: bv32): bv32 {
    ((w >> 8) & 0xFF) | (((w >> 16) & 0xFF) << 8) | (((w >> 24) & 0xFF) << 16) | ((w & 0xFF) << 24)
  }

  lemma SwapIsRotation(w: bv32)
    ensures SwapHalves(w) == Right(w, 16)
  {
  }

  lemma Insert12IsRotation(w: bv32)
    ensures ShiftInsert12(w) == Right(w, 12)
  {
  }

  lemma ShuffleIsRotation(w: bv32)
    ensures Shuffle8(w) == Right(w, 8)
  {
  }

  lemma Insert7IsRotation(w: bv32)
    ensures ShiftInsert7(w) == Right(w, 7)
  {
  }

  function Rot16Lane(w: Word32): Word32 { FromBits(SwapHalves(Bits(w))) }
  function Rot12Lane(w: Word32): Word32 { FromBits(ShiftInsert12(Bits(w))) }
  function Rot8Lane(w: Word32): Word32 { FromBits(Shuffle8(Bits(w))) }
  function Rot7Lane(w: Word32): Word32 { FromBits(ShiftInsert7(Bits(w))) }

  lemma RotationsAgree(w: Word32)
    ensures Rot16Lane(w) == Rotr16(w) && Rot12Lane(w) == Rotr12(w) && Rot8Lane(w) == Rotr8(w) && Rot7Lane(w) == Rotr7(w)
  {
    hide SwapHalves, ShiftInsert12, Shuffle8, ShiftInsert7, Right, Bits, FromBits;
    SwapIsRotation(Bits(w));
    Insert12IsRotation(Bits(w));
    ShuffleIsRotation(Bits(w));
    Insert7IsRotation(Bits(w));
  }

  function Rot16(v: Vec): Vec { Vec(Rot16Lane(v.l0), Rot16Lane(v.l1), Rot16Lane(v.l2), Rot16Lane(v.l3)) }
  function Rot12(v: Vec): Vec { Vec(Rot12Lane(v.l0), Rot12Lane(v.l1), Rot12Lane(v.l2), Rot12Lane(v.l3)) }
  function Rot8(v: Vec): Vec { Vec(Rot8Lane(v.l0), Rot8Lane(v.l1), Rot8Lane(v.l2), Rot8Lane(v.l3)) }
  function Rot7(v: Vec): Vec { Vec(Rot7Lane(v.l0), Rot7Lane(v.l1), Rot7Lane(v.l2), Rot7Lane(v.l3)) }

  // ----- the interleaved round -----

  /** A group of four lines of the source does one thing to all four quads. */
  datatype Op = AddFirst | AddSecond | AddAB | XorDA | RotD16 | AddCD | XorBC | RotB12 | RotD8 | RotB7

  /** What a line does to its quad, given the two message vectors. */
  function Apply(op: Op, q: Quad<Vec>, x: Vec, y: Vec): Quad<Vec> {
    match op
    case AddFirst => q.(a := Add128(q.a, x))
    case AddSecond => q.(a := Add128(q.a, y))
    case AddAB => q.(a := Add128(q.a, q.b))
    case XorDA => q.(d := Xor128(q.d, q.a))
    case RotD16 => q.(d := Rot16(q.d))
    case AddCD => q.(c := Add128(q.c, q.d))
    case XorBC => q.(b := Xor128(q.b, q.c))
    case RotB12 => q.(b := Rot12(q.b))
    case RotD8 => q.(d := Rot8(q.d))
    case RotB7 => q.(b := Rot7(q.b))
  }

  /** The order of the fourteen groups. */
  function OpAt(n: nat): Op
    requires n < 14
  {
    if n == 0 then AddFirst else if n == 1 || n == 8 then AddAB else if n == 2 || n == 9 then XorDA
    else if n == 3 then RotD16 else if n == 4 || n == 11 then AddCD else if n == 5 || n == 12 then XorBC
    else if n == 6 then RotB12 else if n == 7 then AddSecond else if n == 10 then RotD8 else RotB7
  }

  /** A quad after the first n groups. */
  ghost function Done(n: nat, q: Quad<Vec>, x: Vec, y: Vec): Quad<Vec>
    requires n <= 14
  {
    if n == 0 then q else Apply(OpAt(n - 1), Done(n - 1, q, x, y), x, y)
  }

  function LaneQuad(q: Quad<Vec>, i: nat): Quad<Word32>
    requires i < 4
  {
    Quad(Lane(q.a, i), Lane(q.b, i), Lane(q.c, i), Lane(q.d, i))
  }

  /** One group on one lane, in scalar terms. */
  function ApplyLane(op: Op, q: Quad<Word32>, x: Word32, y: Word32): Quad<Word32> {
    match op
    case AddFirst => q.(a := Add(q.a, x))
    case AddSecond => q.(a := Add(q.a, y))
    case AddAB => q.(a := Add(q.a, q.b))
    case XorDA => q.(d := Xor(q.d, q.a))
    case RotD16 => q.(d := Rotr16(q.d))
    case AddCD => q.(c := Add(q.c, q.d))
    case XorBC => q.(b := Xor(q.b, q.c))
    case RotB12 => q.(b := Rotr12(q.b))
    case RotD8 => q.(d := Rotr8(q.d))
    case RotB7 => q.(b := Rotr7(q.b))
  }

  lemma LaneOfApply(op: Op, q: Quad<Vec>, x: Vec, y: Vec, i: nat)
    requires i < 4
    ensures LaneQuad(Apply(op, q, x, y), i) == ApplyLane(op, LaneQuad(q, i), Lane(x, i), Lane(y, i))
  {
    hide Add, Xor, Rotr16, Rotr12, Rotr8, Rotr7, Rot16Lane, Rot12Lane, Rot8Lane, Rot7Lane;
    RotationsAgree(Lane(q.b, i));
    RotationsAgree(Lane(q.d, i));
  }

  ghost function DoneLane(n: nat, q: Quad<Word32>, x: Word32, y: Word32): Quad<Word32>
    requires n <= 14
  {
    if n == 0 then q else ApplyLane(OpAt(n - 1), DoneLane(n - 1, q, x, y), x, y)
  }

  lemma {:induction false} LaneOfDone(n: nat, q: Quad<Vec>, x: Vec, y: Vec, i: nat)
    requires i < 4 && n <= 14
    ensures LaneQuad(Done(n, q, x, y), i) == DoneLane(n, LaneQuad(q, i), Lane(x, i), Lane(y, i))
  {
    hide Apply, ApplyLane, LaneQuad, Lane;
    if n > 0 {
      LaneOfDone(n - 1, q, x, y, i);
      LaneOfApply(OpAt(n - 1), Done(n - 1, q, x, y), x, y, i);
    }
  }

  /** All fourteen groups together are the scalar mixing function. */
  lemma AllGroupsMix(q: Quad<Word32>, x: Word32, y: Word32)
    ensures DoneLane(14, q, x, y) == Mix(q, x, y)
  {
    hide Add, Xor, Rotr16, Rotr12, Rotr8, Rotr7;
    AddSwap(q.a, q.b, x);
    var a1 := Add(Add(q.a, q.b), x);
    var d1 := Rotr16(Xor(q.d, a1));
    var c1 := Add(q.c, d1);
    var b1 := Rotr12(Xor(q.b, c1));
    AddSwap(a1, b1, y);
    assert DoneLane(1, q, x, y) == Quad(Add(q.a, x), q.b, q.c, q.d);
    assert DoneLane(2, q, x, y) == Quad(a1, q.b, q.c, q.d);
    assert DoneLane(4, q, x, y) == Quad(a1, q.b, q.c, d1);
    assert DoneLane(5, q, x, y) == Quad(a1, q.b, c1, d1);
    assert DoneLane(7, q, x, y) == Quad(a1, b1, c1, d1);
    var a2 := Add(Add(a1, b1), y);
    var d2 := Rotr8(Xor(d1, a2));
    var c2 := Add(c1, d2);
    assert DoneLane(9, q, x, y) == Quad(a2, b1, c1, d1);
    assert DoneLane(11, q, x, y) == Quad(a2, b1, c1, d2);
    assert DoneLane(12, q, x, y) == Quad(a2, b1, c2, d2);
  }

  /** Which row a group changes. */
  function Changes(op: Op): (r: nat)
    ensures r < 4
  {
    match op
    case AddFirst | AddSecond | AddAB => 0
    case XorBC | RotB12 | RotB7 => 1
    case AddCD => 2
    case XorDA | RotD16 | RotD8 => 3
  }

  function Row<T>(q: Quad<T>, r: nat): T
    requires r < 4
  {
    if r == 0 then q.a else if r == 1 then q.b else if r == 2 then q.c else q.d
  }

  function MessageOf(m: seq<Vec>, round: nat, diagonal: bool, k: nat, second: bool): Vec
    requires |m| == 16 && round < 7 && k < 4
  {
    m[Scheduled(round, (if diagonal then 8 else 0) + 2 * k + if second then 1 else 0)]
  }

  /** All quads after the first n groups. */
  ghost predicate Reached(n: nat, before: seq<Vec>, now: seq<Vec>, m: seq<Vec>, round: nat, diagonal: bool) {
    && n <= 14 && round < 7 && |before| == |now| == |m| == 16
    && forall k: nat :: k < 4 ==> QuadReached(n, before, now, m, round, diagonal, k)
  }

  ghost predicate QuadReached(n: nat, before: seq<Vec>, now: seq<Vec>, m: seq<Vec>, round: nat, diagonal: bool, k: nat)
    requires n <= 14 && round < 7 && |before| == |now| == |m| == 16 && k < 4
  {
    QuadAt(now, k, diagonal)
    == Done(n, QuadAt(before, k, diagonal), MessageOf(m, round, diagonal, k, false), MessageOf(m, round, diagonal, k, true))
  }

  /** Writing the one entry that a group changes replaces the quad. */
  lemma OneEntry(v: seq<Vec>, k: nat, diagonal: bool, op: Op, x: Vec, y: Vec)
    requires |v| == 16 && k < 4
    ensures var q := Apply(op, QuadAt(v, k, diagonal), x, y);
            v[Place(Changes(op), k, diagonal) := Row(q, Changes(op))] == WithQuad(v, k, diagonal, q)
  {
    hide Add128, Xor128, Rot16, Rot12, Rot8, Rot7;
  }

  /** Four lines of round_fn4: one group, on all four quads. */
  method Group(v: array<Vec>, op: Op, m: seq<Vec>, round: nat, diagonal: bool, ghost n: nat, ghost before: seq<Vec>)
    requires v.Length == 16 && n < 14 && op == OpAt(n) && Reached(n, before, v[..], m, round, diagonal)
    modifies v
    ensures Reached(n + 1, before, v[..], m, round, diagonal)
  {
    hide Apply, QuadAt, Place, WithQuad, Changes, Row, MessageOf, OpAt;
    ghost var next := n + 1;
    for k := 0 to 4
      invariant forall j: nat :: j < k ==> QuadReached(next, before, v[..], m, round, diagonal, j)
      invariant forall j: nat :: k <= j < 4 ==> QuadReached(n, before, v[..], m, round, diagonal, j)
    {
      ghost var was := v[..];
      var x, y := MessageOf(m, round, diagonal, k, false), MessageOf(m, round, diagonal, k, true);
      var q := Apply(op, QuadAt(v[..], k, diagonal), x, y);
      OneEntry(was, k, diagonal, op, x, y);
      v[Place(Changes(op), k, diagonal)] := Row(q, Changes(op));
      assert v[..] == WithQuad(was, k, diagonal, q);
      QuadsAfter(n, before, was, v[..], m, round, diagonal, k, q);
    }
  }

  lemma QuadsAfter(n: nat, before: seq<Vec>, was: seq<Vec>, now: seq<Vec>, m: seq<Vec>, round: nat, diagonal: bool, k: nat,
                   q: Quad<Vec>)
    requires n < 14 && round < 7 && |before| == |was| == |m| == 16 && k < 4 && now == WithQuad(was, k, diagonal, q)
    requires QuadReached(n, before, was, m, round, diagonal, k)
    requires q == Apply(OpAt(n), QuadAt(was, k, diagonal), MessageOf(m, round, diagonal, k, false),
                        MessageOf(m, round, diagonal, k, true))
    ensures QuadReached(n + 1, before, now, m, round, diagonal, k)
    ensures forall j: nat, l: nat :: j < 4 && j != k && l <= 14 && QuadReached(l, before, was, m, round, diagonal, j) ==>
              QuadReached(l, before, now, m, round, diagonal, j)
  {
    hide Apply, QuadAt, WithQuad, MessageOf, OpAt;
    forall j: nat | j < 4 ensures QuadAt(now, j, diagonal) == if j == k then q else QuadAt(was, j, diagonal) {
      QuadOfWith(was, k, diagonal, q, j);
    }
  }

  /** Half of round_fn4: every lane goes through half a round. */
  method MixFour4(v: array<Vec>, m: seq<Vec>, round: nat, diagonal: bool)
    requires v.Length == 16 && |m| == 16 && round < 7
    modifies v
    ensures forall i: nat :: i < 4 ==> Lanes(v[..], i) == Half(Lanes(old(v[..]), i), Lanes(m, i), round, diagonal)
  {
    hide Reached, Lanes, Half;
    ghost var before := v[..];
    NothingReached(before, m, round, diagonal);
    Group(v, AddFirst, m, round, diagonal, 0, before);
    Group(v, AddAB, m, round, diagonal, 1, before);
    Group(v, XorDA, m, round, diagonal, 2, before);
    Group(v, RotD16, m, round, diagonal, 3, before);
    Group(v, AddCD, m, round, diagonal, 4, before);
    Group(v, XorBC, m, round, diagonal, 5, before);
    Group(v, RotB12, m, round, diagonal, 6, before);
    Group(v, AddSecond, m, round, diagonal, 7, before);
    Group(v, AddAB, m, round, diagonal, 8, before);
    Group(v, XorDA, m, round, diagonal, 9, before);
    Group(v, RotD8, m, round, diagonal, 10, before);
    Group(v, AddCD, m, round, diagonal, 11, before);
    Group(v, XorBC, m, round, diagonal, 12, before);
    Group(v, RotB7, m, round, diagonal, 13, before);
    forall i: nat | i < 4 ensures Lanes(v[..], i) == Half(Lanes(before, i), Lanes(m, i), round, diagonal) {
      LaneOfHalf(before, v[..], m, round, diagonal, i);
    }
  }

  lemma NothingReached(before: seq<Vec>, m: seq<Vec>, round: nat, diagonal: bool)
    requires |before| == |m| == 16 && round < 7
    ensures Reached(0, before, before, m, round, diagonal)
  {
  }

  /** Vectors that went through all groups went through half a round, lane by lane. */
  lemma LaneOfHalf(before: seq<Vec>, after: seq<Vec>, m: seq<Vec>, round: nat, diagonal: bool, i: nat)
    requires Reached(14, before, after, m, round, diagonal) && i < 4
    ensures |before| == |after| == |m| == 16 && round < 7
    ensures Lanes(after, i) == Half(Lanes(before, i), Lanes(m, i), round, diagonal)
  {
    hide Half, Mix, Done;
    forall k: nat | k < 4 ensures QuadMixed(Lanes(before, i), Lanes(after, i), Lanes(m, i), round, diagonal, k) {
      LaneOfQuad(before, after, m, round, diagonal, i, k);
    }
    HalfIs(Lanes(before, i), Lanes(after, i), Lanes(m, i), round, diagonal);
  }

  lemma LaneOfQuad(before: seq<Vec>, after: seq<Vec>, m: seq<Vec>, round: nat, diagonal: bool, i: nat, k: nat)
    requires |before| == |after| == |m| == 16 && round < 7 && i < 4 && k < 4
    requires QuadReached(14, before, after, m, round, diagonal, k)
    ensures QuadMixed(Lanes(before, i), Lanes(after, i), Lanes(m, i), round, diagonal, k)
  {
    hide Mix, Done, DoneLane, Place, Lane, Scheduled;
    var q, x, y := QuadAt(before, k, diagonal), MessageOf(m, round, diagonal, k, false), MessageOf(m, round, diagonal, k, true);
    LaneOfDone(14, q, x, y, i);
    AllGroupsMix(LaneQuad(q, i), Lane(x, i), Lane(y, i));
  }

  /** round_fn4: every lane goes through the scalar round. */
  method RoundFn4(v: array<Vec>, m: seq<Vec>, round: nat)
    requires v.Length == 16 && |m| == 16 && round < 7
    modifies v
    ensures forall i: nat :: i < 4 ==> Lanes(v[..], i) == Round(Lanes(old(v[..]), i), Lanes(m, i), round)
  {
    hide Half, Lanes;
    ghost var before := v[..];
    MixFour4(v, m, round, false);
    ghost var mid := v[..];
    MixFour4(v, m, round, true);
    forall i: nat | i < 4 ensures Lanes(v[..], i) == Round(Lanes(before, i), Lanes(m, i), round) {
      assert Lanes(mid, i) == Half(Lanes(before, i), Lanes(m, i), round, false);
    }
  }

  // ----- transposing -----

  /** Four vectors with rows and columns exchanged. */
  function Transposed(s: seq<Vec>, w: nat): Vec
    requires |s| == 4 && w < 4
  {
    Vec(Lane(s[0], w), Lane(s[1], w), Lane(s[2], w), Lane(s[3], w))
  }

  lemma LaneOfTransposed(s: seq<Vec>, w: nat, i: nat)
    requires |s| == 4 && w < 4 && i < 4
    ensures Lane(Transposed(s, w), i) == Lane(s[i], w)
  {
  }

  /** transpose_vecs_128: two steps of pairwise transposition, on four vectors. */
  method TransposeVecs(v: array<Vec>, at: nat)
    requires at + 4 <= v.Length
    modifies v
    ensures var s := old(v[at..at + 4]);
            v[at] == Transposed(s, 0) && v[at + 1] == Transposed(s, 1) && v[at + 2] == Transposed(s, 2)
            && v[at + 3] == Transposed(s, 3)
    ensures forall j :: 0 <= j < v.Length && (j < at || at + 4 <= j) ==> v[j] == old(v[j])
  {
    var a, b, c, d := v[at], v[at + 1], v[at + 2], v[at + 3];
    ghost var s := v[at..at + 4];
    assert s[0] == a && s[1] == b && s[2] == c && s[3] == d;
    var rows01a, rows01b := Vec(a.l0, b.l0, a.l2, b.l2), Vec(a.l1, b.l1, a.l3, b.l3);
    var rows23a, rows23b := Vec(c.l0, d.l0, c.l2, d.l2), Vec(c.l1, d.l1, c.l3, d.l3);
    v[at] := Vec(rows01a.l0, rows01a.l1, rows23a.l0, rows23a.l1);
    v[at + 1] := Vec(rows01b.l0, rows01b.l1, rows23b.l0, rows23b.l1);
    v[at + 2] := Vec(rows01a.l2, rows01a.l3, rows23a.l2, rows23a.l3);
    v[at + 3] := Vec(rows01b.l2, rows01b.l3, rows23b.l2, rows23b.l3);
  }

  /** loadu_128: four words in a row. */
  function LoadVec(bytes: seq<Byte>, q: nat): Vec
    requires 16 * q + 16 <= |bytes|
  {
    Vec(Load(bytes, 4 * q), Load(bytes, 4 * q + 1), Load(bytes, 4 * q + 2), Load(bytes, 4 * q + 3))
  }

  /** transpose_msg_vecs4: vector j holds word j of the four blocks. */
  method TransposeMsgVecs(blocks: seq<seq<Byte>>) returns (out: seq<Vec>)
    requires |blocks| == 4 && forall i :: 0 <= i < 4 ==> |blocks[i]| == BLOCK
    ensures |out| == 16 && forall i: nat :: i < 4 ==> Lanes(out, i) == BlockWords(blocks[i])
  {
    hide Load;
    var a := new Vec[16](_ => Set1(0));
    for q := 0 to 4
      invariant forall j: nat, i: nat :: j < 4 * q && i < 4 ==> Lane(a[j], i) == Load(blocks[i], j)
    {
      LoadFour(a, blocks, q);
    }
    out := a[..];
    forall i: nat | i < 4 ensures Lanes(out, i) == BlockWords(blocks[i]) {
      forall j | 0 <= j < 16 ensures Lanes(out, i)[j] == BlockWords(blocks[i])[j] {
      }
    }
  }

  /** Words 4q to 4q + 3 of the four blocks. */
  method LoadFour(a: array<Vec>, blocks: seq<seq<Byte>>, q: nat)
    requires a.Length == 16 && q < 4 && |blocks| == 4 && forall i :: 0 <= i < 4 ==> |blocks[i]| == BLOCK
    modifies a
    ensures forall j: nat, i: nat :: 4 * q <= j < 4 * q + 4 && i < 4 ==> Lane(a[j], i) == Load(blocks[i], j)
    ensures forall j: nat :: j < 16 && (j < 4 * q || 4 * q + 4 <= j) ==> a[j] == old(a[j])
  {
    hide Load;
    var at: nat := 4 * q;
    a[at], a[at + 1], a[at + 2], a[at + 3] := LoadVec(blocks[0], q), LoadVec(blocks[1], q), LoadVec(blocks[2], q), LoadVec(blocks[3], q);
    ghost var s := a[at..at + 4];
    TransposeVecs(a, at);
    forall j: nat, i: nat | at <= j < at + 4 && i < 4 ensures Lane(a[j], i) == Load(blocks[i], j) {
      LaneOfTransposed(s, j - at, i);
      assert s[i] == LoadVec(blocks[i], q);
    }
  }

  // ----- four inputs at once -----

  function CounterAt(counter: nat, increment: bool, i: nat): nat {
    if increment then counter + i else counter
  }

  /** load_counters4 */
  method LoadCounters4(counter: nat, increment: bool) returns (low: Vec, high: Vec)
    ensures forall i: nat :: i < 4 ==> Lane(low, i) == CounterLow(CounterAt(counter, increment, i))
                                       && Lane(high, i) == CounterHigh(CounterAt(counter, increment, i))
  {
    hide CounterLow, CounterHigh;
    var c0, c1, c2, c3 := CounterAt(counter, increment, 0), CounterAt(counter, increment, 1),
                          CounterAt(counter, increment, 2), CounterAt(counter, increment, 3);
    low := Vec(CounterLow(c0), CounterLow(c1), CounterLow(c2), CounterLow(c3));
    high := Vec(CounterHigh(c0), CounterHigh(c1), CounterHigh(c2), CounterHigh(c3));
  }

  /** The start state of four lanes: every lane starts as the scalar state. */
  method StartVecs(h: array<Vec>, counter: nat, increment: bool, flags: Byte) returns (v: array<Vec>)
    requires h.Length == 8
    ensures fresh(v) && v.Length == 16
    ensures forall i: nat :: i < 4 ==> Lanes(v[..], i) == StartState(Lanes(h[..], i), BLOCK, CounterAt(counter, increment, i), flags)
  {
    hide CounterLow, CounterHigh, CounterAt, Lane;
    var low, high := LoadCounters4(counter, increment);
    v := new Vec[16](_ => Set1(0));
    for j := 0 to 8
      invariant forall l :: 0 <= l < j ==> v[l] == h[l]
    {
      v[j] := h[j];
    }
    v[8], v[9], v[10], v[11] := Set1(IV[0]), Set1(IV[1]), Set1(IV[2]), Set1(IV[3]);
    v[12], v[13], v[14], v[15] := low, high, Set1(BLOCK), Set1(flags as int);
    forall i: nat | i < 4 ensures Lanes(v[..], i) == StartState(Lanes(h[..], i), BLOCK, CounterAt(counter, increment, i), flags) {
      SetLane(i);
      StartLane(h[..], v[..], BLOCK, CounterAt(counter, increment, i), flags, i);
    }
  }

  lemma SetLane(i: nat)
    requires i < 4
    ensures forall w: Word32 :: Lane(Set1(w), i) == w
  {
  }

  lemma StartLane(h: seq<Vec>, v: seq<Vec>, blockLen: Word32, counter: nat, flags: Byte, i: nat)
    requires |h| == 8 && |v| == 16 && i < 4 && forall j :: 0 <= j < 8 ==> v[j] == h[j]
    requires Lane(v[8], i) == IV[0] && Lane(v[9], i) == IV[1] && Lane(v[10], i) == IV[2] && Lane(v[11], i) == IV[3]
    requires Lane(v[12], i) == CounterLow(counter) && Lane(v[13], i) == CounterHigh(counter)
    requires Lane(v[14], i) == blockLen && Lane(v[15], i) == flags as int
    ensures Lanes(v, i) == StartState(Lanes(h, i), blockLen, counter, flags)
  {
    hide Lane, CounterLow, CounterHigh;
  }

  /** Block number `block` of the first four inputs. */
  function Blocks(inputs: seq<seq<Byte>>, block: nat): (b: seq<seq<Byte>>)
    requires |inputs| >= 4 && forall i :: 0 <= i < 4 ==> BLOCK * (block + 1) <= |inputs[i]|
    ensures |b| == 4 && forall i :: 0 <= i < 4 ==> |b[i]| == BLOCK
  {
    [Cut(inputs[0], block), Cut(inputs[1], block), Cut(inputs[2], block), Cut(inputs[3], block)]
  }

  function Cut(input: seq<Byte>, block: nat): (b: seq<Byte>)
    requires BLOCK * (block + 1) <= |input|
    ensures |b| == BLOCK
  {
    input[BLOCK * block..BLOCK * (block + 1)]
  }

  /** One pass of the block loop of blake3_hash4_neon: every lane is compressed. */
  method Compress4(h: array<Vec>, blocks: seq<seq<Byte>>, counter: nat, increment: bool, flags: Byte)
    requires h.Length == 8 && |blocks| == 4 && forall i :: 0 <= i < 4 ==> |blocks[i]| == BLOCK
    modifies h
    ensures forall i: nat :: i < 4 ==> Lanes(h[..], i) == Compress(old(Lanes(h[..], i)), blocks[i], BLOCK, CounterAt(counter, increment, i), flags)
  {
    hide Lanes, Round, BlockWords, StartState, CounterAt, Feed;
    ghost var was := h[..];
    var msg := TransposeMsgVecs(blocks);
    var v := StartVecs(h, counter, increment, flags);
    for r := 0 to 7
      invariant forall i: nat :: i < 4 ==>
                  Lanes(v[..], i) == Rounds(StartState(Lanes(was, i), BLOCK, CounterAt(counter, increment, i), flags), BlockWords(blocks[i]), r)
      invariant h[..] == was
      modifies v
    {
      RoundFn4(v, msg, r);
    }
    ghost var final := v[..];
    FeedVecs(h, v);
    forall i: nat | i < 4
      ensures Lanes(h[..], i) == Compress(Lanes(was, i), blocks[i], BLOCK, CounterAt(counter, increment, i), flags)
    {
      assert Lanes(h[..], i) == Feed(Lanes(final, i));
    }
  }

  method FeedVecs(h: array<Vec>, v: array<Vec>)
    requires h.Length == 8 && v.Length == 16 && h != v
    modifies h
    ensures forall i: nat :: i < 4 ==> Lanes(h[..], i) == Feed(Lanes(v[..], i))
  {
    hide Xor;
    for j := 0 to 8
      invariant forall l :: 0 <= l < j ==> h[l] == Xor128(v[l], v[l + 8])
    {
      h[j] := Xor128(v[j], v[j + 8]);
    }
  }

  /** Where a hash of the first input's lane stands. */
  ghost predicate LaneHashed(h: seq<Vec>, inputs: seq<seq<Byte>>, n: nat, block: nat, key: seq<Word32>, counter: nat, flags: Byte,
                             start: Byte, now: Byte, end: Byte, i: nat)
    requires |h| == |key| == 8 && i < 4 <= |inputs| && block <= n && BLOCK * n <= |inputs[i]|
  {
    HashBlocks(Lanes(h, i), inputs[i][BLOCK * block..], n - block, counter, flags, now, end)
    == HashBlocks(key, inputs[i], n, counter, flags, Or(flags, start), end)
  }

  lemma NextBlock(h: seq<Vec>, h2: seq<Vec>, inputs: seq<seq<Byte>>, n: nat, block: nat, key: seq<Word32>, counter: nat, flags: Byte,
                  start: Byte, now: Byte, end: Byte, i: nat)
    requires |h| == |h2| == |key| == 8 && i < 4 <= |inputs| && block < n && BLOCK * n <= |inputs[i]|
    requires LaneHashed(h, inputs, n, block, key, counter, flags, start, now, end, i)
    requires Lanes(h2, i) == Compress(Lanes(h, i), Cut(inputs[i], block), BLOCK, counter, if block + 1 == n then Or(now, end) else now)
    ensures LaneHashed(h2, inputs, n, block + 1, key, counter, flags, start, flags, end, i)
  {
    hide Compress, Or, Lanes;
    var input := inputs[i][BLOCK * block..];
    assert input[..BLOCK] == Cut(inputs[i], block) && input[BLOCK..] == inputs[i][BLOCK * (block + 1)..];
  }

  /** The block loop of blake3_hash4_neon: lane i ends with the chaining value of input i. */
  method HashVecs(inputs: seq<seq<Byte>>, n: nat, key: seq<Word32>, counter: nat, increment: bool, flags: Byte, start: Byte, end: Byte)
      returns (h: array<Vec>)
    requires |key| == 8 && |inputs| >= 4 && forall i :: 0 <= i < |inputs| ==> BLOCK * n <= |inputs[i]|
    ensures fresh(h) && h.Length == 8
    ensures forall i: nat :: i < 4 ==>
              Lanes(h[..], i) == HashBlocks(key, inputs[i], n, CounterAt(counter, increment, i), flags, Or(flags, start), end)
  {
    hide Compress, Or, CounterAt, HashBlocks;
    h := new Vec[8](j requires 0 <= j < 8 => Set1(key[j]));
    var blockFlags := Or(flags, start);
    forall i: nat | i < 4 ensures Lanes(h[..], i) == key && inputs[i][0..] == inputs[i] {
      assert forall j :: 0 <= j < 8 ==> Lanes(h[..], i)[j] == key[j];
    }
    hide Lanes;
    for block := 0 to n
      invariant forall i: nat :: i < 4 ==>
                  LaneHashed(h[..], inputs, n, block, key, CounterAt(counter, increment, i), flags, start, blockFlags, end, i)
    {
      ghost var now, was := blockFlags, h[..];
      if block + 1 == n {
        blockFlags := Or(blockFlags, end);
      }
      Compress4(h, Blocks(inputs, block), counter, increment, blockFlags);
      forall i: nat | i < 4
        ensures LaneHashed(h[..], inputs, n, block + 1, key, CounterAt(counter, increment, i), flags, start, flags, end, i)
      {
        NextBlock(was, h[..], inputs, n, block, key, CounterAt(counter, increment, i), flags, start, now, end, i);
      }
      blockFlags := flags;
    }
    forall i: nat | i < 4
      ensures Lanes(h[..], i) == HashBlocks(key, inputs[i], n, CounterAt(counter, increment, i), flags, Or(flags, start), end)
    {
      NoBlocks(Lanes(h[..], i), inputs[i][BLOCK * n..], CounterAt(counter, increment, i), flags, blockFlags, end);
    }
  }

  lemma NoBlocks(cv: seq<Word32>, input: seq<Byte>, counter: nat, flags: Byte, first: Byte, end: Byte)
    requires |cv| == 8
    ensures HashBlocks(cv, input, 0, counter, flags, first, end) == cv
  {
  }

  // ----- writing the outputs -----

  /** The eight words of one output: the two vectors it ends up in after the transposition. */
  lemma OutputOf(was: seq<Vec>, low: Vec, high: Vec, i: nat)
    requires |was| == 8 && i < 4 && low == Transposed(was[..4], i) && high == Transposed(was[4..], i)
    ensures [low.l0, low.l1, low.l2, low.l3] + [high.l0, high.l1, high.l2, high.l3] == Lanes(was, i)
  {
  }

  /** The output of input i stands at its place. */
  ghost predicate Placed(out: seq<Word32>, i: nat, cv: seq<Word32>) {
    8 * i + 8 <= |out| && out[8 * i..8 * i + 8] == cv
  }

  /** Every place but one is as before. */
  ghost predicate OthersKept(before: seq<Word32>, after: seq<Word32>, i: nat) {
    |before| == |after| && forall j: nat, cv: seq<Word32> :: j != i && Placed(before, j, cv) ==> Placed(after, j, cv)
  }

  lemma KeepOthers(before: seq<Word32>, after: seq<Word32>, i: nat)
    requires |before| == |after| && forall j :: 0 <= j < |before| && (j < 8 * i || 8 * i + 8 <= j) ==> after[j] == before[j]
    ensures OthersKept(before, after, i)
  {
    forall j: nat, cv: seq<Word32> | j != i && Placed(before, j, cv) ensures Placed(after, j, cv) {
      assert after[8 * j..8 * j + 8] == before[8 * j..8 * j + 8];
    }
  }

  /** Two stores of four words: output i. */
  method StoreOutput(out: array<Word32>, i: nat, low: Vec, high: Vec, ghost cv: seq<Word32>)
    requires 8 * i + 8 <= out.Length && cv == [low.l0, low.l1, low.l2, low.l3] + [high.l0, high.l1, high.l2, high.l3]
    modifies out
    ensures Placed(out[..], i, cv) && OthersKept(old(out[..]), out[..], i)
  {
    ghost var before := out[..];
    var at := 8 * i;
    out[at], out[at + 1], out[at + 2], out[at + 3] := low.l0, low.l1, low.l2, low.l3;
    out[at + 4], out[at + 5], out[at + 6], out[at + 7] := high.l0, high.l1, high.l2, high.l3;
    KeepOthers(before, out[..], i);
    assert out[..][at..at + 8] == cv;
  }

  /** blake3_hash4_neon: the last transposition and the eight stores. */
  method Store4(h: array<Vec>, out: array<Word32>, first: nat)
    requires h.Length == 8 && 8 * first + 32 <= out.Length
    modifies h, out
    ensures forall i: nat :: i < 4 ==> Placed(out[..], first + i, old(Lanes(h[..], i)))
    ensures forall j: nat, cv: seq<Word32> :: j < first && Placed(old(out[..]), j, cv) ==> Placed(out[..], j, cv)
  {
    ghost var was := h[..];
    assert h[0..0 + 4] == was[..4];
    TransposeVecs(h, 0);
    assert h[4..4 + 4] == was[4..];
    TransposeVecs(h, 4);
    OutputOf(was, h[0], h[4], 0);
    OutputOf(was, h[1], h[5], 1);
    OutputOf(was, h[2], h[6], 2);
    OutputOf(was, h[3], h[7], 3);
    hide Lanes, Transposed, Placed;
    StoreOutput(out, first, h[0], h[4], Lanes(was, 0));
    StoreOutput(out, first + 1, h[1], h[5], Lanes(was, 1));
    StoreOutput(out, first + 2, h[2], h[6], Lanes(was, 2));
    StoreOutput(out, first + 3, h[3], h[7], Lanes(was, 3));
    assert Placed(out[..], first + 0, Lanes(was, 0));
  }

  // ----- any number of inputs -----

  /** What hash_many promises, whichever code computes it. */
  ghost predicate AllHashed(out: seq<Word32>, count: nat, inputs: seq<seq<Byte>>, n: nat, key: seq<Word32>, counter: nat,
                            increment: bool, flags: Byte, start: Byte, end: Byte)
    requires |key| == 8 && count <= |inputs| && forall i :: 0 <= i < |inputs| ==> BLOCK * n <= |inputs[i]|
  {
    forall i: nat :: i < count ==>
      Placed(out, i, HashBlocks(key, inputs[i], n, CounterAt(counter, increment, i), flags, Or(flags, start), end))
  }

  /** One output by the scalar code. */
  method HashOneInto(input: seq<Byte>, n: nat, key: seq<Word32>, counter: nat, flags: Byte, start: Byte, end: Byte,
                     out: array<Word32>, i: nat)
    requires |key| == 8 && BLOCK * n <= |input| && 8 * i + 8 <= out.Length
    modifies out
    ensures Placed(out[..], i, HashBlocks(key, input, n, counter, flags, Or(flags, start), end))
    ensures OthersKept(old(out[..]), out[..], i)
  {
    hide HashBlocks, Or;
    var cv := HashOne(input, n, key, counter, flags, start, end);
    ghost var before, words := out[..], cv[..];
    for j := 0 to 8
      invariant cv[..] == words
      invariant forall l :: 0 <= l < j ==> out[8 * i + l] == words[l]
      invariant forall l :: 0 <= l < out.Length && (l < 8 * i || 8 * i + 8 <= l) ==> out[l] == before[l]
      modifies out
    {
      out[8 * i + j] := cv[j];
    }
    KeepOthers(before, out[..], i);
    assert out[..][8 * i..8 * i + 8] == words;
  }

  /** blake3_hash_many_portable */
  method HashManyPortable(inputs: seq<seq<Byte>>, n: nat, key: seq<Word32>, counter0: nat, increment: bool, flags: Byte,
                          start: Byte, end: Byte, out: array<Word32>)
    requires |key| == 8 && 8 * |inputs| <= out.Length && forall i :: 0 <= i < |inputs| ==> BLOCK * n <= |inputs[i]|
    modifies out
    ensures AllHashed(out[..], |inputs|, inputs, n, key, counter0, increment, flags, start, end)
  {
    hide HashBlocks, Or, Placed;
    var counter := counter0;
    for i := 0 to |inputs|
      invariant counter == CounterAt(counter0, increment, i)
      invariant AllHashed(out[..], i, inputs, n, key, counter0, increment, flags, start, end)
    {
      HashOneInto(inputs[i], n, key, counter, flags, start, end, out, i);
      if increment {
        counter := counter + 1;
      }
    }
  }

  /** blake3_hash_many_neon: four at a time, and the ones left over by the scalar code. */
  method HashManyNeon(inputs: seq<seq<Byte>>, n: nat, key: seq<Word32>, counter0: nat, increment: bool, flags: Byte,
                      start: Byte, end: Byte, out: array<Word32>)
    requires |key| == 8 && 8 * |inputs| <= out.Length && forall i :: 0 <= i < |inputs| ==> BLOCK * n <= |inputs[i]|
    modifies out
    ensures AllHashed(out[..], |inputs|, inputs, n, key, counter0, increment, flags, start, end)
  {
    hide HashBlocks, Or, Placed, Lanes;
    var counter, done := counter0, 0;
    while |inputs| - done >= 4
      invariant 0 <= done <= |inputs| && counter == CounterAt(counter0, increment, done)
      invariant AllHashed(out[..], done, inputs, n, key, counter0, increment, flags, start, end)
    {
      ghost var before := out[..];
      var h := HashVecs(inputs[done..], n, key, counter, increment, flags, start, end);
      ghost var was := h[..];
      Store4(h, out, done);
      FourMore(before, out[..], was, done, inputs, n, key, counter0, increment, flags, start, end);
      if increment {
        counter := counter + 4;
      }
      done := done + 4;
    }
    while done < |inputs|
      invariant 0 <= done <= |inputs| && counter == CounterAt(counter0, increment, done)
      invariant AllHashed(out[..], done, inputs, n, key, counter0, increment, flags, start, end)
    {
      HashOneInto(inputs[done], n, key, counter, flags, start, end, out, done);
      if increment {
        counter := counter + 1;
      }
      done := done + 1;
    }
  }

  lemma FourMore(before: seq<Word32>, after: seq<Word32>, h: seq<Vec>, done: nat, inputs: seq<seq<Byte>>, n: nat, key: seq<Word32>,
                 counter0: nat, increment: bool, flags: Byte, start: Byte, end: Byte)
    requires |key| == 8 && |h| == 8 && done + 4 <= |inputs| && forall i :: 0 <= i < |inputs| ==> BLOCK * n <= |inputs[i]|
    requires AllHashed(before, done, inputs, n, key, counter0, increment, flags, start, end)
    requires forall j: nat, cv: seq<Word32> :: j < done && Placed(before, j, cv) ==> Placed(after, j, cv)
    requires forall i: nat :: i < 4 ==> Placed(after, done + i, Lanes(h, i))
    requires forall i: nat :: i < 4 ==>
               Lanes(h, i) == HashBlocks(key, inputs[done..][i], n, CounterAt(CounterAt(counter0, increment, done), increment, i),
                                         flags, Or(flags, start), end)
    ensures AllHashed(after, done + 4, inputs, n, key, counter0, increment, flags, start, end)
  {
    hide HashBlocks, Or, Placed, Lanes;
    forall i: nat | i < done + 4
      ensures Placed(after, i, HashBlocks(key, inputs[i], n, CounterAt(counter0, increment, i), flags, Or(flags, start), end))
    {
      if i >= done {
        assert Placed(after, done + (i - done), Lanes(h, i - done));
        assert inputs[done..][i - done] == inputs[i];
      }
    }
  }

  /** The four-lane code and the scalar code give the same outputs, for every number of inputs and blocks
      and both counter modes. */
  method HashManyAgree(inputs: seq<seq<Byte>>, n: nat, key: seq<Word32>, counter: nat, increment: bool, flags: Byte,
                       start: Byte, end: Byte) returns (neon: seq<Word32>, portable: seq<Word32>)
    requires |key| == 8 && forall i :: 0 <= i < |inputs| ==> BLOCK * n <= |inputs[i]|
    ensures neon == portable && |neon| == 8 * |inputs|
    ensures AllHashed(neon, |inputs|, inputs, n, key, counter, increment, flags, start, end)
  {
    hide HashBlocks, Or, Placed;
    var a, b := new Word32[8 * |inputs|], new Word32[8 * |inputs|];
    HashManyNeon(inputs, n, key, counter, increment, flags, start, end, a);
    HashManyPortable(inputs, n, key, counter, increment, flags, start, end, b);
    neon, portable := a[..], b[..];
    SameOutputs(neon, portable, inputs, n, key, counter, increment, flags, start, end);
  }

  lemma SameOutputs(a: seq<Word32>, b: seq<Word32>, inputs: seq<seq<Byte>>, n: nat, key: seq<Word32>, counter: nat, increment: bool,
                    flags: Byte, start: Byte, end: Byte)
    requires |key| == 8 && |a| == |b| == 8 * |inputs| && forall i :: 0 <= i < |inputs| ==> BLOCK * n <= |inputs[i]|
    requires AllHashed(a, |inputs|, inputs, n, key, counter, increment, flags, start, end)
    requires AllHashed(b, |inputs|, inputs, n, key, counter, increment, flags, start, end)
    ensures a == b
  {
    hide HashBlocks, Or, CounterAt;
    forall j | 0 <= j < |a| ensures a[j] == b[j] {
      var i: nat := j / 8;
      var cv := HashBlocks(key, inputs[i], n, CounterAt(counter, increment, i), flags, Or(flags, start), end);
      assert Placed(a, i, cv) && Placed(b, i, cv);
      assert a[8 * i..8 * i + 8][j % 8] == a[j] && b[8 * i..8 * i + 8][j % 8] == b[j];
    }
  }
}
