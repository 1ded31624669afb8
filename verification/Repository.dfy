/** Runs of saves: each commits, or is cut at some write and followed by a checked reopening. */
module Repository {
  import opened Bytes
  import opened DataFiles
  import opened MainDat
  import opened SaveSession
  import opened Blake3Tree
  import opened Blake3Subtree
  import opened Signatures
  import opened SaveChoices

  /** A piece of the file as it arrives, and the form in which it is stored. */
  datatype Piece = Piece(buf: seq<Byte>, stored: seq<Byte>)

  /** How a file is saved: the choices of the constructor, the pieces, and, after a restart, the pieces again. */
  datatype Plan = Plan(size: nat, bsnt: nat, prev: nat, raw: bool, zlib: bool, noSignature: bool, embed: bool,
                       first: seq<Piece>, restart: bool, second: seq<Piece>)

  function Total(pieces: seq<Piece>): nat {
    if pieces == [] then 0 else Total(pieces[..|pieces| - 1]) + |pieces[|pieces| - 1].buf|
  }

  predicate Legal(p: Plan) {
    && 0 < p.bsnt < WORD && (p.embed ==> !p.noSignature) && Total(p.first) <= p.size
    && (p.restart ==> !p.raw && Total(p.second) <= p.size)
  }

  /** The last pass brings as many bytes as were announced. */
  predicate Enough(p: Plan) {
    Total(if p.restart then p.second else p.first) == p.size
  }

  lemma {:induction false} TotalPrefix(pieces: seq<Piece>, i: nat)
    requires i < |pieces|
    ensures Total(pieces[..i + 1]) == Total(pieces[..i]) + |pieces[i].buf|
    ensures Total(pieces[..i + 1]) <= Total(pieces)
    decreases |pieces| - i
  {
    assert pieces[..i + 1][..i] == pieces[..i];
    if i + 1 < |pieces| {
      TotalPrefix(pieces, i + 1);
    } else {
      assert pieces[..i + 1] == pieces;
    }
  }

  /** The bytes of the file, and the bytes stored for them. */
  function Bufs(pieces: seq<Piece>): (s: seq<Byte>)
    ensures |s| == Total(pieces)
  {
    if pieces == [] then [] else Bufs(pieces[..|pieces| - 1]) + pieces[|pieces| - 1].buf
  }

  function StoredBytes(pieces: seq<Piece>): seq<Byte> {
    if pieces == [] then [] else StoredBytes(pieces[..|pieces| - 1]) + pieces[|pieces| - 1].stored
  }

  lemma OnePiece(pieces: seq<Piece>, i: nat)
    requires i < |pieces|
    ensures Bufs(pieces[..i + 1]) == Bufs(pieces[..i]) + pieces[i].buf
    ensures StoredBytes(pieces[..i + 1]) == StoredBytes(pieces[..i]) + pieces[i].stored
  {
    assert pieces[..i + 1][..i] == pieces[..i];
  }

  // ----- what a save leaves in the file -----

  /** The content is what was stored in the last pass. */
  function ContentOf(p: Plan): seq<Byte> {
    StoredBytes(if p.restart then p.second else p.first)
  }

  /** The room kept for the signature. */
  function Room(p: Plan): nat
    requires 0 < p.bsnt
  {
    if p.embed then 8 + ENTRY_LEN * (p.size / p.bsnt) else 0
  }

  /** The signature is that of the bytes of the first pass. */
  ghost function SignedBytes(m: Mode, p: Plan): (s: seq<Byte>)
    requires 0 < p.bsnt
    ensures |s| == 8 + ENTRY_LEN * (Total(p.first) / p.bsnt)
  {
    Stored(p.bsnt, p.size / p.bsnt, SignatureOf(m, p.bsnt, Bufs(p.first)))
  }

  /** The flags in the header, when the save is over. */
  function KindOf(p: Plan): nat {
    var raw := p.raw || p.restart;
    (if raw then 0 else 8) + (if p.zlib then 2 else 0) + (if p.embed then CONTAINS_SIGNATURE else 0)
    + (if p.zlib && !raw then 32 else 0)
  }

  /** The object of a plan: header, parent, signature in its room, content. */
  ghost predicate Written(m: Mode, data: seq<Byte>, o: Object, p: Plan) {
    && o.kind == KindOf(p) && Describes(m, data, o) && 0 < p.bsnt && o.offset + o.size <= |data| && o.size == OBJECT_HEADER + Room(p) + |ContentOf(p)|
    && var at := o.offset + OBJECT_HEADER;
       && data[at - 8..at] == Le(p.prev, 8) && data[at + Room(p)..at + Room(p) + |ContentOf(p)|] == ContentOf(p)
       && (p.embed ==> var sig := SignedBytes(m, p); |sig| <= Room(p) && data[at..at + |sig|] == sig)
  }

  /** The signature fills its room exactly if all whole blocks of the file passed before a restart; and if all
      of the file did, it is the signature of the file. */
  lemma SignatureFills(m: Mode, data: seq<Byte>, o: Object, p: Plan)
    requires Legal(p) && p.embed && Written(m, data, o, p)
    ensures |SignedBytes(m, p)| == Room(p) <==> p.bsnt * (p.size / p.bsnt) <= Total(p.first)
    ensures var at := o.offset + OBJECT_HEADER;
            Total(p.first) == p.size ==> data[at..at + Room(p)] == StoredSignature(m, p.bsnt, Bufs(p.first))
  {
    hide Stored, Sign, Bufs;
    SameQuotient(p.size, Total(p.first), p.bsnt);
  }

  /** A restart before all whole blocks have passed leaves at least the last entry of the room as it was. */
  lemma RestartLeavesGap(m: Mode, p: Plan)
    requires Legal(p) && p.embed && Total(p.first) < p.bsnt * (p.size / p.bsnt)
    ensures |SignedBytes(m, p)| + ENTRY_LEN <= Room(p)
    ensures p.first == [] ==> |SignedBytes(m, p)| == 8
  {
    hide Stored, Sign, Bufs;
    SameQuotient(p.size, Total(p.first), p.bsnt);
    SmallerQuotient(Total(p.first), p.bsnt, p.size / p.bsnt);
  }

  lemma SmallerQuotient(n: nat, d: nat, q: nat)
    requires 0 < d && n < d * q
    ensures n / d < q
  {
    assert d * (n / d) <= n;
  }

  /** The plan for a file with the choices of the constructor. */
  function PlanFor(s: Settings, size: nat, prev: nat, signed: bool, delta: bool, first: seq<Piece>, restart: bool,
                   second: seq<Piece>): Plan
  {
    var c := Choose(s, size, prev != 0, signed, delta);
    Plan(size, c.bsnt, prev, c.raw, c.useZlib, c.noSignature, c.writeSignature, first, restart, second)
  }

  /** Every plan the constructor makes is legal. */
  lemma PlansAreLegal(s: Settings, size: nat, prev: nat, signed: bool, delta: bool, first: seq<Piece>, restart: bool,
                      second: seq<Piece>)
    requires size < DISK_LIMIT && Total(first) <= size && Total(second) <= size
    requires restart ==> !Choose(s, size, prev != 0, signed, delta).raw
    ensures Legal(PlanFor(s, size, prev, signed, delta, first, restart, second))
  {
    hide BlockSize;
    ChoicesFit(s, size, prev != 0, signed, delta);
    BlockSizeBound(size, true);
    BlockSizeBound(size, false);
  }

  /** A file of 602 bytes that is to be a delta, with its signature embedded: after a restart before the first
      byte, 280 of the 288 bytes in the room stay as they were. */
  lemma RestartAtOnce(m: Mode, s: Settings, prev: nat, buf: seq<Byte>)
    requires prev != 0 && |buf| == 602 && s.embedSignature && !s.rawContent
    ensures var p := PlanFor(s, 602, prev, false, true, [], true, [Piece(buf, buf)]);
            Legal(p) && p.embed && !p.raw && Total(p.second) == p.size && |SignedBytes(m, p)| == 8 && Room(p) == 288
  {
    hide Stored, Sign, Bufs, BlockSize, SignedBytes;
    var second := [Piece(buf, buf)];
    assert second[..0] == [] && Total(second) == 602;
    BlocksFit(602, false);
    BlockSizeIs(602, true, 85);
    PlansAreLegal(s, 602, prev, false, true, [], true, second);
    RestartLeavesGap(m, PlanFor(s, 602, prev, false, true, [], true, second));
  }

  /** A longer file holds what it held. */
  lemma WrittenKept(m: Mode, data: seq<Byte>, longer: seq<Byte>, o: Object, p: Plan)
    requires Written(m, data, o, p) && data <= longer
    ensures Written(m, longer, o, p)
  {
    hide SignedBytes, Le, ContentOf, Digest, KindOf, FromLe;
    assert longer[o.offset..o.offset + o.size] == data[o.offset..o.offset + o.size];
    SameSlice(data, longer, o.offset + 1, o.offset + 8);
    var at, end := o.offset + OBJECT_HEADER, o.offset + o.size;
    assert longer[..end] == data[..end];
    SameSlice(data, longer, at - 8, at);
    SameSlice(data, longer, at + Room(p), end);
    if p.embed {
      SameSlice(data, longer, at, at + |SignedBytes(m, p)|);
    }
  }

  lemma SameSlice(data: seq<Byte>, longer: seq<Byte>, i: nat, j: nat)
    requires i <= j <= |data| && data <= longer
    ensures data[i..j] == longer[i..j]
  {
  }

  /** Feeds pieces to a save in progress. */
  method Feed(s: FileSave, pieces: seq<Piece>) returns (ok: bool)
    requires s.Active() && s.bytespassed == 0 && Total(pieces) <= s.filesize && |s.file.bytes| < DISK_LIMIT
    modifies s.file, s`content, s`bytespassed
    modifies s.signer`shash, s.signer`nsstoreLst, s.signer`seen, s.signer`part, s.signer`blocks
    modifies s.signer.sigbuf, s.signer.sigbuf.buffer, s.signer.nsstore
    ensures s.base <= s.file.bytes && |s.file.bytes| < DISK_LIMIT
    ensures ok ==> s.Active() && s.bytespassed == Total(pieces) && s.content == old(s.content) + StoredBytes(pieces)
    ensures ok ==> s.signer.seen == old(s.signer.seen) + if s.unwind || s.noSignature then [] else Bufs(pieces)
    ensures s.file.failed == (old(s.file.failed) || !ok)
  {
    hide FileSave.Parts, FileSave.Layout, Bufs, StoredBytes;
    ok := true;
    assert pieces[..0] == [];
    NoPieces();
    for i := 0 to |pieces|
      invariant s.file.failed == old(s.file.failed)
      invariant s.Active() && s.bytespassed == Total(pieces[..i]) && |s.file.bytes| < DISK_LIMIT
      invariant s.content == old(s.content) + StoredBytes(pieces[..i])
      invariant s.signer.seen == old(s.signer.seen) + if s.unwind || s.noSignature then [] else Bufs(pieces[..i])
    {
      TotalPrefix(pieces, i);
      OnePiece(pieces, i);
      ok := s.Process(pieces[i].buf, pieces[i].stored);
      if !ok {
        return;
      }
    }
    assert pieces[..|pieces|] == pieces;
    KeepsBase(s);
  }

  lemma NoPieces()
    ensures Bufs([]) == [] && StoredBytes([]) == []
  {
  }

  lemma KeepsBase(s: FileSave)
    requires s.Active()
    ensures s.base <= s.file.bytes
  {
  }

  /** The pieces of a save, and after a restart the pieces again. */
  method Pass(s: FileSave, plan: Plan) returns (ok: bool)
    requires s.Active() && s.bytespassed == 0 && s.filesize == plan.size && Legal(plan) && |s.file.bytes| < DISK_LIMIT
    requires s.rawFile == plan.raw && !s.unwind && s.content == [] && s.signer.seen == []
    modifies s.file, s`content, s`bytespassed, s`rawFile, s`unwind
    modifies s.signer`shash, s.signer`nsstoreLst, s.signer`seen, s.signer`part, s.signer`blocks
    modifies s.signer.sigbuf, s.signer.sigbuf.buffer, s.signer.nsstore
    ensures s.base <= s.file.bytes && |s.file.bytes| < DISK_LIMIT
    ensures ok ==> s.Active() && s.content == ContentOf(plan) && (!s.noSignature ==> s.signer.seen == Bufs(plan.first))
    ensures ok ==> s.rawFile == (plan.raw || plan.restart)
    ensures ok ==> (s.filesize <= s.bytespassed <==> Enough(plan))
    ensures s.file.failed == (old(s.file.failed) || !ok)
  {
    hide FileSave.Parts, FileSave.Layout, Bufs, StoredBytes;
    ok := Feed(s, plan.first);
    if ok && plan.restart {
      ok := s.Restart();
      if ok {
        ok := Feed(s, plan.second);
      }
    }
  }

  /** Bytes added behind the file change nothing. */
  lemma SoundKept(m: Mode, data: seq<Byte>, longer: seq<Byte>, db: Database)
    requires Sound(m, data, db) && data <= longer
    ensures Sound(m, longer, db)
  {
    hide Describes, Tiles;
    assert longer[..db.filesize] == data[..db.filesize];
  }

  /** A new object behind the file keeps the tiling exactly if nothing uncommitted stood there. */
  lemma SoundIff(m: Mode, data: seq<Byte>, longer: seq<Byte>, db: Database, o: Object)
    requires Sound(m, data, db) && data <= longer && Describes(m, longer, o)
    requires o.offset == |data| && o.offset + o.size == |longer|
    ensures Sound(m, longer, Database(db.objects + [o], |longer|)) <==> |data| == db.filesize
  {
    hide Describes, Tiles, AllDescribed;
    TilesAppendIff(db.objects, MAGIC_LEN, db.filesize, o);
    if |data| == db.filesize {
      SoundAppend(m, data, longer, db, o);
    }
  }

  /** When the objects end where the file does, the check accepts only what is sound. */
  lemma CheckedIsSound(m: Mode, data: seq<Byte>, db: Database)
    requires |data| == db.filesize == End(db.objects, MAGIC_LEN) && Checked(m, data, db.objects) && MAGIC_LEN <= |data|
    ensures Sound(m, data, db)
  {
    assert data[..db.filesize] == data;
  }

  class Repository {
    const m: Mode
    const degree: nat
    const file: DataFile
    var db: Database

    /** Between two saves the file holds the committed bytes and nothing else. */
    ghost predicate Good()
      reads this, file
    {
      Degree(degree) && Sound(m, file.bytes, db) && |file.bytes| == db.filesize < DISK_LIMIT
    }

    /** Creating the repository: the magic number, no objects. */
    constructor (mode: Mode, simdDegree: nat)
      requires Degree(simdDegree)
      ensures Good() && m == mode && fresh(file)
    {
      m, degree := mode, simdDegree;
      file := new DataFile([0x53, 0x56, 0x53, 0]);
      db := Database([], MAGIC_LEN);
    }

    /** One save: it commits exactly if all bytes have come, the database accepts the rows, and no write has failed.
        Committed bytes never change; a cut leaves the database as it was; a commit keeps the
        tiling exactly if the save started at the committed size. */
    method Save(plan: Plan, accepts: bool) returns (ok: bool)
      requires Legal(plan) && Degree(degree) && Sound(m, file.bytes, db) && |file.bytes| < DISK_LIMIT
      modifies this, file
      ensures old(file.bytes) <= file.bytes && |file.bytes| < DISK_LIMIT
      ensures !ok ==> db == old(db) && Sound(m, file.bytes, db)
      ensures ok ==> |db.objects| == |old(db).objects| + 1 && old(db).objects <= db.objects && |file.bytes| == db.filesize
      ensures ok ==> (Sound(m, file.bytes, db) <==> |old(file.bytes)| == old(db).filesize)
      ensures ok ==> End(db.objects, MAGIC_LEN) == db.filesize
      ensures ok ==> Written(m, file.bytes, db.objects[|old(db).objects|], plan)
      ensures !old(file.failed) ==> (ok <==> Enough(plan) && accepts && !file.failed)
      ensures old(file.failed) ==> file.failed
    {
      hide FileSave.Parts, FileSave.Layout, Sound, Describes, Written, ContentOf, Bufs;
      var s := new FileSave(m, degree, file, plan.size, plan.bsnt, plan.prev, plan.raw, plan.zlib, plan.noSignature,
                            plan.embed);
      SoundKept(m, old(file.bytes), file.bytes, db);
      ok := s.Start();
      if ok {
        ok := Pass(s, plan);
      }
      SoundKept(m, old(file.bytes), file.bytes, db);
      if ok {
        var committed;
        ok, committed := s.Commit(db, accepts);
        SoundKept(m, old(file.bytes), file.bytes, db);
        if ok {
          ObjectWritten(s, plan);
          s.RowStarts();
          SoundIff(m, old(file.bytes), file.bytes, db, s.Row());
        }
        db := committed;
      }
    }

    /** A save is cut, and the next one commits without a reopening in between: bytes that belong to no object stay
        in the file, and the check finds them. */
    method SaveAfterCut(cut: Plan, next: Plan, accepts: bool, nextAccepts: bool) returns (hit: bool, messages: nat)
      requires Good() && Legal(cut) && Legal(next)
      modifies this, file
      ensures hit ==> !Sound(m, file.bytes, db) && messages > 0
    {
      hide Sound, Written, Checked, Legal;
      var ok := Save(cut, accepts);
      hit, messages := false, 0;
      SoundLength(m, file.bytes, db);
      if !ok && db.filesize < |file.bytes| {
        ok := Save(next, nextAccepts);
        if ok {
          hit := true;
          if Checked(m, file.bytes, db.objects) {
            CheckedIsSound(m, file.bytes, db);
          }
          messages := Check(m, degree, file, db.objects);
        }
      }
    }

    /** Reopening for writing with the check on: the check throws, or bytes behind the committed size are
        cut off.  The result of the cut is not looked at. */
    method Reopen() returns (ok: bool, clean: bool)
      requires Degree(degree) && |file.bytes| < DISK_LIMIT
      modifies file
      ensures file.bytes <= old(file.bytes) && (db.filesize <= |old(file.bytes)| ==> db.filesize <= |file.bytes|)
      ensures ok <==> Checked(m, old(file.bytes), db.objects)
      ensures old(Sound(m, file.bytes, db)) ==> ok && Sound(m, file.bytes, db) && (clean ==> Good())
      ensures old(Sound(m, file.bytes, db)) ==> file.failed == (old(file.failed) || !clean)
    {
      hide Checked, Sound;
      clean := false;
      file.Seek(0);
      var messages := Check(m, degree, file, db.objects);
      ok := messages == 0;
      if Sound(m, file.bytes, db) {
        SoundIsChecked(m, file.bytes, db);
        SoundLength(m, file.bytes, db);
      }
      if !ok {
        return;
      }
      clean := |file.bytes| == db.filesize;
      if db.filesize < |file.bytes| {
        ghost var before := file.bytes;
        file.Seek(db.filesize);
        clean := file.SetEnd();
        if clean {
          assert file.bytes == before[..db.filesize];
          SoundCut(m, before, db);
        }
      }
    }

    /** The state after any run of saves: each commits, or is cut and followed by a checked reopening that
        truncates; the run ends early if a truncation fails.  Then the check finds nothing, and every object
        that was committed is written as its plan says; without a failure these are all that were sent whole and
        accepted. */
    method Run(plans: seq<Plan>, accepts: seq<bool>) returns (messages: nat, ghost done: seq<Plan>)
      requires Good() && |accepts| == |plans| && forall i :: 0 <= i < |plans| ==> Legal(plans[i])
      modifies this, file
      ensures messages == 0 && Sound(m, file.bytes, db)
      ensures old(file.bytes) <= file.bytes && old(db).objects <= db.objects
      ensures AllWritten(m, file.bytes, db.objects, |old(db).objects|, done) && forall p :: p in done ==> p in plans
      ensures !file.failed ==> done == Committable(plans, accepts)
    {
      hide Sound, Checked, Written, Enough;
      ghost var start := file.bytes;
      done := [];
      for i := 0 to |plans|
        invariant Good() && start <= file.bytes && old(db).objects <= db.objects
        invariant AllWritten(m, file.bytes, db.objects, |old(db).objects|, done) && forall p :: p in done ==> p in plans
        invariant !file.failed ==> done == Committable(plans[..i], accepts[..i])
      {
        ghost var before, objects := file.bytes, db.objects;
        OneMorePlan(plans, accepts, i);
        var ok := Save(plans[i], accepts[i]);
        if ok {
          OneMoreWritten(m, before, file.bytes, objects, db.objects, |old(db).objects|, done, plans[i]);
          done := done + [plans[i]];
        } else {
          ghost var behind := file.bytes;
          SoundLength(m, behind, db);
          var _, clean := Reopen();
          Between(start, before, behind, file.bytes);
          AllWrittenKept(m, before, file.bytes, db.objects, |old(db).objects|, done);
          if !clean {
            break;
          }
        }
      }
      assert plans[..|plans|] == plans && accepts[..|plans|] == accepts;
      SoundIsChecked(m, file.bytes, db);
      messages := Check(m, degree, file, db.objects);
    }
  }

  /** The plans of the saves that are sent whole and that the database accepts. */
  ghost function Committable(plans: seq<Plan>, accepts: seq<bool>): seq<Plan>
    requires |accepts| == |plans|
  {
    if plans == [] then []
    else
      var n := |plans| - 1;
      Committable(plans[..n], accepts[..n]) + if Enough(plans[n]) && accepts[n] then [plans[n]] else []
  }

  lemma OneMorePlan(plans: seq<Plan>, accepts: seq<bool>, i: nat)
    requires |accepts| == |plans| && i < |plans|
    ensures Committable(plans[..i + 1], accepts[..i + 1])
            == Committable(plans[..i], accepts[..i]) + if Enough(plans[i]) && accepts[i] then [plans[i]] else []
  {
    assert plans[..i + 1][..i] == plans[..i] && accepts[..i + 1][..i] == accepts[..i];
  }

  /** The objects from `from` on are those of the plans, one for each. */
  ghost predicate AllWritten(m: Mode, data: seq<Byte>, objects: seq<Object>, from: nat, done: seq<Plan>) {
    |objects| == from + |done| && forall k :: 0 <= k < |done| ==> Written(m, data, objects[from + k], done[k])
  }

  lemma AllWrittenKept(m: Mode, data: seq<Byte>, longer: seq<Byte>, objects: seq<Object>, from: nat, done: seq<Plan>)
    requires AllWritten(m, data, objects, from, done) && data <= longer
    ensures AllWritten(m, longer, objects, from, done)
  {
    hide Written;
    forall k | 0 <= k < |done| ensures Written(m, longer, objects[from + k], done[k]) {
      WrittenKept(m, data, longer, objects[from + k], done[k]);
    }
  }

  lemma OneMoreWritten(m: Mode, data: seq<Byte>, longer: seq<Byte>, objects: seq<Object>, more: seq<Object>, from: nat,
                       done: seq<Plan>, p: Plan)
    requires AllWritten(m, data, objects, from, done) && data <= longer
    requires objects <= more && |more| == |objects| + 1 && Written(m, longer, more[|objects|], p)
    ensures AllWritten(m, longer, more, from, done + [p])
  {
    hide Written;
    AllWrittenKept(m, data, longer, objects, from, done);
  }

  /** What the parts of a finished save say about the bytes of its object. */
  lemma ObjectWritten(s: FileSave, plan: Plan)
    requires Legal(plan) && s.Parts() && s.Layout() && s.content == ContentOf(plan)
    requires s.parent == plan.prev && s.filesize == plan.size && s.bsnt == plan.bsnt && s.writeSignature == plan.embed
    requires !s.noSignature ==> s.signer.seen == Bufs(plan.first)
    requires s.writeSignature ==> s.gap[..s.signer.nsstoreLst] == s.signer.nsstore[..s.signer.nsstoreLst]
    requires s.rawFile == (plan.raw || plan.restart) && s.useZlib == plan.zlib && Describes(s.m, s.file.bytes, s.Row())
    ensures Written(s.m, s.file.bytes, s.Row(), plan)
  {
    hide Stored, Sign, Le, Digest, Bufs, StoredBytes, Describes;
    var front := s.base + (s.head + Le(s.parent, 8));
    var data := s.file.bytes;
    assert data == front + s.gap + s.content;
    assert data[|front| - 8..|front|] == Le(s.parent, 8);
    assert data[|front|..|front| + |s.gap|] == s.gap && data[|front| + |s.gap|..] == s.content;
    if plan.embed {
      s.SignatureFills();
      var n := s.signer.nsstoreLst;
      assert data[|front|..|front| + n] == data[|front|..|front| + |s.gap|][..n];
    }
  }

  lemma Between(start: seq<Byte>, before: seq<Byte>, behind: seq<Byte>, after: seq<Byte>)
    requires start <= before <= behind && after <= behind && |before| <= |after|
    ensures before <= after && start <= after
  {
  }

  lemma SoundLength(m: Mode, data: seq<Byte>, db: Database)
    requires Sound(m, data, db)
    ensures MAGIC_LEN <= db.filesize <= |data|
  {
  }

  lemma SoundCut(m: Mode, data: seq<Byte>, db: Database)
    requires db.filesize <= |data|
    ensures Sound(m, data, db) ==> Sound(m, data[..db.filesize], db)
  {
    hide Describes, Tiles;
    assert data[..db.filesize][..db.filesize] == data[..db.filesize];
  }
}
