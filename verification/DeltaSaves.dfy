/** Saving the next version of a file: the signature is read back out of the parent's object in MAIN.DAT, the
    version is stored raw or as a delta, and what is committed decodes to the version. */
module DeltaSaves {
  import opened Bytes
  import opened Options
  import opened DataFiles
  import opened MainDat
  import opened SaveSession
  import opened SaveChoices
  import opened Repository
  import opened Blake3Tree
  import opened Blake3Subtree
  import opened Signatures
  import DeltaCommands
  import opened DeltaEncoder

  const HEADER_LEN := 24

  /** The content of an object, behind header, parent and the room for the signature. */
  function ContentAt(data: seq<Byte>, o: Object, room: nat): seq<Byte>
    requires OBJECT_HEADER + room <= o.size && o.offset + o.size <= |data|
  {
    data[o.offset + OBJECT_HEADER + room..o.offset + o.size]
  }

  // ----- the parent's signature -----

  predicate FlagSet(b: Byte, flag: nat)
    requires 0 < flag
  {
    b as int / flag % 2 == 1
  }

  const CONTENT_ZLIB := 2
  const CONTENT_DELTA := 8
  const CONTENT_DELTA_ENCODED := 32

  /** The flags of the enum tell how the object was saved, and no other bit is set. */
  lemma KindTells(p: Plan)
    ensures var k, raw := KindOf(p), p.raw || p.restart;
            && k < 256
            && (FlagSet(k as Byte, CONTENT_ZLIB) <==> p.zlib) && (FlagSet(k as Byte, CONTENT_DELTA) <==> !raw)
            && (FlagSet(k as Byte, CONTAINS_SIGNATURE) <==> p.embed)
            && (FlagSet(k as Byte, CONTENT_DELTA_ENCODED) <==> p.zlib && !raw)
            && !FlagSet(k as Byte, 1) && !FlagSet(k as Byte, 4) && !FlagSet(k as Byte, 64) && !FlagSet(k as Byte, 128)
  {
  }

  /** The version in the object at `at`, for a reader that knows the object by its header alone: the size, and by the
      flags whether a signature comes first and whether the rest is a delta.  None for what has to be inflated. */
  function VersionAt(data: seq<Byte>, at: nat, parent: seq<Byte>, bsnt: nat): Option<seq<Byte>> {
    if |data| < at + OBJECT_HEADER then None
    else
      var flags, end, body := data[at], at + FromLe(data[at + 1..at + 8]), at + OBJECT_HEADER;
      if FlagSet(flags, CONTENT_ZLIB) || |data| < end || (FlagSet(flags, CONTAINS_SIGNATURE) && end < body + 4) then None
      else
        var from := if FlagSet(flags, CONTAINS_SIGNATURE) then body + 8 + FromLe32(data[body..body + 4]) else body;
        if end < from then None
        else if FlagSet(flags, CONTENT_DELTA) then DeltaCommands.DecodeBytes(false, data[from..end], parent, bsnt)
        else Some(data[from..end])
  }

  /** The reader finds the content of an object that was written uncompressed. */
  lemma VersionIsContent(m: Mode, data: seq<Byte>, o: Object, p: Plan, parent: seq<Byte>, bsnt: nat)
    requires Written(m, data, o, p) && !p.zlib && (p.embed ==> ENTRY_LEN * (p.size / p.bsnt) < WORD)
    ensures VersionAt(data, o.offset, parent, bsnt)
            == if p.raw || p.restart then Some(ContentOf(p)) else DeltaCommands.DecodeBytes(false, ContentOf(p), parent, bsnt)
  {
    hide Written, ContentOf, DeltaCommands.DecodeBytes, FlagSet, KindOf, FromLe, FromLe32, Room, VersionAt;
    KindTells(p);
    KindRead(m, data, o, p);
    WrittenContent(m, data, o, p);
    RoomRead(m, data, o, p);
    VersionFrom(data, o.offset, o.size, Room(p), KindOf(p) as Byte, parent, bsnt);
  }

  /** The reader, when flags, size and room are known. */
  lemma VersionFrom(data: seq<Byte>, at: nat, size: nat, room: nat, kind: Byte, parent: seq<Byte>, bsnt: nat)
    requires OBJECT_HEADER + room <= size && at + size <= |data|
    requires data[at] == kind && FromLe(data[at + 1..at + 8]) == size && !FlagSet(kind, CONTENT_ZLIB)
    requires if FlagSet(kind, CONTAINS_SIGNATURE)
             then 8 <= room && room == 8 + FromLe32(data[at + OBJECT_HEADER..at + OBJECT_HEADER + 4]) else room == 0
    ensures var content := data[at + OBJECT_HEADER + room..at + size];
            VersionAt(data, at, parent, bsnt)
            == if FlagSet(kind, CONTENT_DELTA) then DeltaCommands.DecodeBytes(false, content, parent, bsnt) else Some(content)
  {
    hide DeltaCommands.DecodeBytes, FlagSet, FromLe, FromLe32;
  }

  lemma KindRead(m: Mode, data: seq<Byte>, o: Object, p: Plan)
    requires Written(m, data, o, p)
    ensures o.offset + OBJECT_HEADER <= o.offset + o.size <= |data|
    ensures data[o.offset] as int == KindOf(p) && FromLe(data[o.offset + 1..o.offset + 8]) == o.size
  {
    hide SignedBytes, Digest, FromLe, ContentOf, Le;
  }

  lemma RoomRead(m: Mode, data: seq<Byte>, o: Object, p: Plan)
    requires Written(m, data, o, p) && (p.embed ==> ENTRY_LEN * (p.size / p.bsnt) < WORD)
    ensures 0 < p.bsnt && (!p.embed ==> Room(p) == 0)
    ensures p.embed ==> var at := o.offset + OBJECT_HEADER;
                        at + Room(p) <= |data| && 8 <= Room(p) && 8 + FromLe32(data[at..at + 4]) == Room(p)
  {
    if p.embed {
      SignatureRead(m, data, o, p);
    }
  }

  lemma SignatureRead(m: Mode, data: seq<Byte>, o: Object, p: Plan)
    requires Written(m, data, o, p) && p.embed && ENTRY_LEN * (p.size / p.bsnt) < WORD
    ensures var at := o.offset + OBJECT_HEADER;
            at + Room(p) <= |data| && 8 <= Room(p) && 8 + FromLe32(data[at..at + 4]) == Room(p)
  {
    hide Sign, Bufs, Store, Digest, FromLe, ContentOf, Le, Le32, FromLe32, SignatureOf, Describes;
    var at, sig, n := o.offset + OBJECT_HEADER, SignedBytes(m, p), ENTRY_LEN * (p.size / p.bsnt);
    assert sig[..4] == Le32(Wrap(n));
    assert data[at..at + 4] == data[at..at + |sig|][..4];
    Le32RoundTrip(n);
  }

  /** Whether the object at `prev` contains a signature, and the signature with its sizes; None if the file ends
      too early. */
  method ReadEmbedded(file: DataFile, prev: nat) returns (r: Option<seq<Byte>>, embedded: bool)
    modifies file`pos
    ensures forall m, o, p :: Embeds(m, file.bytes, o, p) && o.offset == prev ==>
              embedded && r == Some(SignatureFor(m, p))
  {
    hide Embeds, SignatureFor, Bufs, FlagSet;
    file.Seek(prev);
    var header := file.Read(HEADER_LEN);
    r, embedded := None, false;
    if |header| == HEADER_LEN && FlagSet(header[0], CONTAINS_SIGNATURE) {
      embedded := true;
      var sigsize := FromLe32(header[16..20]);
      var store := file.Read(sigsize);
      if |store| == sigsize {
        r := Some(header[16..24] + store);
      }
    }
    forall m, o, p | Embeds(m, file.bytes, o, p) && o.offset == prev
      ensures embedded && r == Some(SignatureFor(m, p))
    {
      SignatureAt(m, file.bytes, o, p);
      PartsOf(file.bytes, prev, FromLe32(file.bytes[prev + 16..prev + 20]));
    }
  }

  lemma PartsOf(data: seq<Byte>, p: nat, n: nat)
    requires p + HEADER_LEN + n <= |data|
    ensures var header, store := data[p..p + HEADER_LEN], data[p + HEADER_LEN..p + HEADER_LEN + n];
            && header[0] == data[p] && header[16..20] == data[p + 16..p + 20] && |store| == n
            && header[16..24] + store == data[p + 16..p + 24 + n]
  {
    var header, store := data[p..p + HEADER_LEN], data[p + HEADER_LEN..p + HEADER_LEN + n];
    assert header[16..20] == data[p + 16..p + 20] && header[16..24] == data[p + 16..p + 24];
    assert data[p + 16..p + 24] + store == data[p + 16..p + 24 + n];
  }

  /** The object was written with its whole signature, of a size that an int can hold. */
  ghost predicate Embeds(m: Mode, data: seq<Byte>, o: Object, p: Plan) {
    && Legal(p) && Written(m, data, o, p) && p.embed && Total(p.first) == p.size
    && ENTRY_LEN * (p.size / p.bsnt) < WORD / 2
  }

  /** The signature of the file of a plan. */
  ghost function SignatureFor(m: Mode, p: Plan): seq<Byte> {
    if p.bsnt == 0 then [] else StoredSignature(m, p.bsnt, Bufs(p.first))
  }

  lemma SignatureAt(m: Mode, data: seq<Byte>, o: Object, p: Plan)
    requires Embeds(m, data, o, p)
    ensures var at, n := o.offset + OBJECT_HEADER, ENTRY_LEN * (p.size / p.bsnt);
            && at + 8 + n <= |data| && FlagSet(data[o.offset], CONTAINS_SIGNATURE)
            && FromLe32(data[at..at + 4]) == n
            && data[at..at + 8 + n] == SignatureFor(m, p)
  {
    hide Sign, Bufs, Le32, FromLe32, Digest, FromLe, Store, Le;
    SignatureFills(m, data, o, p);
    EmbedsFits(m, data, o, p);
    var at, n, signature := o.offset + OBJECT_HEADER, ENTRY_LEN * (p.size / p.bsnt), SignatureFor(m, p);
    assert Room(p) == 8 + n;
    assert data[at..at + 8 + n] == signature;
    assert data[at..at + 4] == data[at..at + 8 + n][..4];
    assert FlagSet(data[o.offset], CONTAINS_SIGNATURE) by { FlagIsSet(m, data, o, p); }
  }

  lemma FlagIsSet(m: Mode, data: seq<Byte>, o: Object, p: Plan)
    requires Written(m, data, o, p) && p.embed
    ensures o.offset < |data| && FlagSet(data[o.offset], CONTAINS_SIGNATURE)
  {
    hide SignedBytes, Digest, FromLe, ContentOf, Le;
  }

  // ----- one version -----

  /** The pieces as they are stored raw. */
  function RawPieces(pieces: seq<seq<Byte>>): (r: seq<Piece>)
    ensures |r| == |pieces|
  {
    seq(|pieces|, i requires 0 <= i < |pieces| => Piece(pieces[i], pieces[i]))
  }

  /** The pieces of a delta; what is stored for them is counted to the end of the last one. */
  function DeltaPieces(pieces: seq<seq<Byte>>, out: seq<Byte>): (r: seq<Piece>) {
    seq(|pieces|, i requires 0 <= i < |pieces| => Piece(pieces[i], [])) + [Piece([], out)]
  }

  lemma {:induction false} RawContent(pieces: seq<seq<Byte>>)
    ensures Bufs(RawPieces(pieces)) == StoredBytes(RawPieces(pieces)) == Concat(pieces)
    decreases |pieces|
  {
    var r := RawPieces(pieces);
    if pieces == [] {
      assert r == [];
    } else {
      var n := |pieces| - 1;
      assert r[..n] == RawPieces(pieces[..n]);
      RawContent(pieces[..n]);
      ConcatGrows(pieces, n);
      assert pieces[..n + 1] == pieces;
    }
  }

  lemma {:induction false} DeltaFront(pieces: seq<seq<Byte>>)
    ensures var r := seq(|pieces|, i requires 0 <= i < |pieces| => Piece(pieces[i], []));
            Bufs(r) == Concat(pieces) && StoredBytes(r) == []
    decreases |pieces|
  {
    var r := seq(|pieces|, i requires 0 <= i < |pieces| => Piece(pieces[i], []));
    if pieces == [] {
      assert r == [];
    } else {
      var n := |pieces| - 1;
      var front := pieces[..n];
      assert r[..n] == seq(|front|, i requires 0 <= i < |front| => Piece(front[i], []));
      DeltaFront(front);
      ConcatGrows(pieces, n);
      assert pieces[..n + 1] == pieces;
    }
  }

  lemma DeltaContent(pieces: seq<seq<Byte>>, out: seq<Byte>)
    ensures Bufs(DeltaPieces(pieces, out)) == Concat(pieces) && StoredBytes(DeltaPieces(pieces, out)) == out
  {
    var r := DeltaPieces(pieces, out);
    DeltaFront(pieces);
    assert r[..|pieces|] == seq(|pieces|, i requires 0 <= i < |pieces| => Piece(pieces[i], []));
    assert r[|pieces|] == Piece([], out);
    assert Concat(pieces) + [] == Concat(pieces) && [] + out == out;
  }

  /** The next version of the file whose object is `o`, saved with the choices of the constructor.  If it
      commits, a reader that goes by the header of the new object finds the version; but if that is a delta, exactly
      when its tail survives. */
  method SaveVersion(r: Repository, s: Settings, prev: nat, delta: bool, pieces: seq<seq<Byte>>, accepts: bool,
                     ghost o: Object, ghost parent: Plan)
      returns (ok: bool, ghost plan: Plan, ghost fresh0: seq<Byte>)
    requires r.Good() && !s.zlib && Length(pieces) < DISK_LIMIT
    requires Embeds(r.m, r.file.bytes, o, parent) && prev == o.offset && parent.bsnt < WORD / 2 - DeltaCommands.DELTA_BUFFER_SIZE
    requires NoCollisions(r.m, Bufs(parent.first), parent.bsnt, Concat(pieces))
    modifies r, r.file
    ensures !old(r.file.failed) ==> (ok <==> accepts && !r.file.failed)
    ensures ok ==> r.Good() && |r.db.objects| == |old(r.db).objects| + 1 && plan.size == |Concat(pieces)| && |fresh0| == parent.bsnt
    ensures ok ==> var new_ := r.db.objects[|old(r.db).objects|];
              && Written(r.m, r.file.bytes, new_, plan) && Embeds(r.m, r.file.bytes, o, parent)
              && (VersionAt(r.file.bytes, new_.offset, Bufs(parent.first), parent.bsnt) == Some(Concat(pieces))
                  <==> plan.raw || TailSurvives(Bufs(parent.first), parent.bsnt, fresh0, Concat(pieces)))
    ensures ok ==> plan == PlanFor(s, |Concat(pieces)|, prev, false, delta, plan.first, false, [])
                   && (!plan.raw ==> Greedy(false, ContentOf(plan), Bufs(parent.first), parent.bsnt, Concat(pieces)))
  {
    hide Embeds, Written, SignatureFor, Bufs, StoredBytes, NoCollisions, DeltaCommands.DecodeBytes, TailSurvives, RawPieces, DeltaPieces,
         Sound, BlockSize, Greedy;
    var size := Length(pieces);
    var psign, embedded := ReadEmbedded(r.file, prev);
    assert embedded && psign == Some(SignatureFor(r.m, parent));
    var c := Choose(s, size, prev != 0, false, delta && embedded);
    var first := RawPieces(pieces);
    RawContent(pieces);
    fresh0 := seq(parent.bsnt, _ => 0);
    if !c.raw {
      var out;
      EmbedsFits(r.m, r.file.bytes, o, parent);
      var blocksize := FromLe32(psign.value[4..8]);
      assert blocksize == parent.bsnt;
      out, fresh0 := EncodeFile(r.m, r.degree, blocksize, false, psign.value, Bufs(parent.first), pieces);
      first := DeltaPieces(pieces, out);
      DeltaContent(pieces, out);
    }
    plan := PlanFor(s, size, prev, false, delta && embedded, first, false, []);
    PlansAreLegal(s, size, prev, false, delta && embedded, first, false, []);
    ok := r.Save(PlanFor(s, size, prev, false, delta && embedded, first, false, []), accepts);
    if ok {
      SignatureSizeFits(s, size, prev != 0, delta && embedded, plan);
      VersionIsContent(r.m, r.file.bytes, r.db.objects[|r.db.objects| - 1], plan, Bufs(parent.first), parent.bsnt);
      EmbedsKept(r.m, old(r.file.bytes), r.file.bytes, o, parent);
    }
  }

  lemma SignatureSizeFits(s: Settings, size: nat, hasParent: bool, delta: bool, p: Plan)
    requires size < DISK_LIMIT && p.size == size && Chosen(s, size, hasParent, delta, p)
    ensures p.embed ==> 0 < p.bsnt && ENTRY_LEN * (p.size / p.bsnt) < WORD
  {
    if p.embed {
      SignatureSize(size);
    }
  }

  ghost predicate Chosen(s: Settings, size: nat, hasParent: bool, delta: bool, p: Plan) {
    var c := Choose(s, size, hasParent, false, delta);
    p.bsnt == c.bsnt && p.embed == c.writeSignature
  }

  /** The size of a signature that is embedded is a 32-bit number, for every file. */
  lemma SignatureSize(size: nat)
    requires size < DISK_LIMIT
    ensures ENTRY_LEN * (size / BlockSize(size, true)) < WORD
  {
    hide RoundedRoot;
    var n := 12 * size + 2;
    RootBelow(n, 0x3000_0000);
    QuotientBelow(size, BlockSize(size, true), RoundedRoot(n));
  }

  lemma QuotientBelow(size: nat, b: nat, r: nat)
    requires b == r + 1 && 12 * size + 2 <= r * r + r
    ensures 12 * (size / b) < b
  {
    var q := size / b;
    assert q * b <= size;
    assert 12 * size < b * b;
    if b <= 12 * q {
      Scale(b, 12 * q, b);
      assert false;
    }
  }

  lemma Scale(x: nat, y: nat, b: nat)
    requires x <= y
    ensures x * b <= y * b
  {
  }

  lemma EmbedsFits(m: Mode, data: seq<Byte>, o: Object, p: Plan)
    requires Embeds(m, data, o, p)
    ensures 0 < p.bsnt && SignatureFor(m, p) == StoredSignature(m, p.bsnt, Bufs(p.first))
    ensures |Bufs(p.first)| == p.size && ENTRY_LEN * (p.size / p.bsnt) < WORD / 2
    ensures var s := SignatureFor(m, p); |s| >= 8 && FromLe32(s[4..8]) == p.bsnt && FromLe32(s[..4]) == ENTRY_LEN * (p.size / p.bsnt)
  {
    hide Sign, Bufs, Le32, FromLe32, Store, Written;
    var s := SignatureFor(m, p);
    assert s[4..8] == Le32(Wrap(p.bsnt)) && s[..4] == Le32(Wrap(ENTRY_LEN * (p.size / p.bsnt)));
    Le32RoundTrip(p.bsnt);
    Le32RoundTrip(ENTRY_LEN * (p.size / p.bsnt));
  }

  lemma EmbedsKept(m: Mode, data: seq<Byte>, longer: seq<Byte>, o: Object, p: Plan)
    requires Embeds(m, data, o, p) && data <= longer
    ensures Embeds(m, longer, o, p)
  {
    hide Written;
    WrittenKept(m, data, longer, o, p);
  }

  lemma WrittenContent(m: Mode, data: seq<Byte>, o: Object, p: Plan)
    requires Written(m, data, o, p)
    ensures 0 < p.bsnt && OBJECT_HEADER + Room(p) <= o.size && o.offset + o.size <= |data|
    ensures ContentAt(data, o, Room(p)) == ContentOf(p)
  {
    hide SignedBytes, Describes, KindOf;
  }
}
