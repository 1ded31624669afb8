/** The repository: objects one behind the other in MAIN.DAT, described by rows of the database, and the
    check that compares the two. */
module MainDat {
  import opened Helpers
  import opened Bytes
  import opened DataFiles
  import opened Blake3Tree
  import opened Blake3Subtree
  import opened Blake3Hasher
  import opened Signatures

  /** A row of the table of objects. */
  datatype Object = Object(offset: nat, size: nat, hash: seq<Byte>, kind: int)

  /** What is committed. */
  datatype Database = Database(objects: seq<Object>, filesize: nat)

  const MAGIC_LEN := 4

  function Signed(b: Byte): int {
    if b < 128 then b as int else b as int - 256
  }

  /** The row tells the truth about the bytes of the object. */
  ghost predicate Describes(m: Mode, data: seq<Byte>, o: Object) {
    && o.offset + o.size <= |data| && o.offset + 8 <= |data|
    && Signed(data[o.offset]) == o.kind && FromLe(data[o.offset + 1..o.offset + 8]) == o.size
    && Digest(m, data[o.offset..o.offset + o.size]) == o.hash
  }

  /** The objects follow each other without gap or overlap. */
  ghost predicate Tiles(objects: seq<Object>, from: nat, to: nat) {
    if objects == [] then from == to
    else
      var last := objects[|objects| - 1];
      last.offset + last.size == to && Tiles(objects[..|objects| - 1], from, last.offset)
  }

  ghost predicate AllDescribed(m: Mode, data: seq<Byte>, objects: seq<Object>) {
    forall i :: 0 <= i < |objects| ==> Describes(m, data, objects[i])
  }

  /** Objects tile the file from the magic number to the committed size, each as its row says. */
  ghost predicate Sound(m: Mode, data: seq<Byte>, db: Database) {
    && MAGIC_LEN <= db.filesize <= |data| && Tiles(db.objects, MAGIC_LEN, db.filesize)
    && AllDescribed(m, data[..db.filesize], db.objects)
  }

  /** Where the last object ends. */
  function End(objects: seq<Object>, from: nat): nat {
    if objects == [] then from else objects[|objects| - 1].offset + objects[|objects| - 1].size
  }

  lemma TilesEnd(objects: seq<Object>, from: nat, to: nat)
    ensures Tiles(objects, from, to) ==> to == End(objects, from)
  {
  }

  /** A row keeps its truth as long as the bytes below the committed size stay. */
  lemma DescribesPrefix(m: Mode, data: seq<Byte>, longer: seq<Byte>, o: Object)
    requires data <= longer && Describes(m, data, o)
    ensures Describes(m, longer, o)
  {
    hide Digest;
    assert longer[o.offset..o.offset + o.size] == data[o.offset..o.offset + o.size];
    assert longer[o.offset + 1..o.offset + 8] == data[o.offset + 1..o.offset + 8];
  }

  lemma SoundAppend(m: Mode, data: seq<Byte>, longer: seq<Byte>, db: Database, o: Object)
    requires Sound(m, data, db) && data[..db.filesize] <= longer
    requires Describes(m, longer, o) && o.offset == db.filesize && o.offset + o.size == |longer|
    ensures Sound(m, longer, Database(db.objects + [o], |longer|))
  {
    hide Describes;
    var objects := db.objects + [o];
    assert objects[..|db.objects|] == db.objects && longer[..|longer|] == longer;
    forall i | 0 <= i < |objects| ensures Describes(m, longer, objects[i]) {
      if i < |db.objects| {
        DescribesPrefix(m, data[..db.filesize], longer, db.objects[i]);
      }
    }
  }

  /** Starting anywhere but at the committed size leaves a gap. */
  lemma TilesAppendIff(objects: seq<Object>, from: nat, to: nat, o: Object)
    requires Tiles(objects, from, to)
    ensures Tiles(objects + [o], from, o.offset + o.size) <==> o.offset == to
  {
    assert (objects + [o])[..|objects|] == objects;
    TilesEnd(objects, from, to);
    TilesEnd(objects, from, o.offset);
  }

  // ----- checking -----

  const READ_LEN := 1024 * 1024

  /** The bytes read from position i up to j. */
  ghost function Span(data: seq<Byte>, i: nat, j: nat): seq<Byte> {
    if i <= j <= |data| then data[i..j] else []
  }

  lemma SpanGrows(data: seq<Byte>, start: nat, i: nat, j: nat)
    requires start <= i <= j <= |data|
    ensures Span(data, start, i) + data[i..j] == Span(data, start, j)
  {
  }

  /** Reads a piece of the file into the hasher. */
  method HashPiece(h: Hasher, file: DataFile, need: nat, ghost start: nat) returns (got: nat)
    requires h.Valid() && start <= file.pos && |file.bytes| < TWO_TO_64 && h.Input() == Span(file.bytes, start, file.pos)
    modifies h`cvStackLen, h`sizes, h`stacked, h.cvStack, h.chunk, h.chunk.buf, file`pos
    ensures h.Valid() && file.pos == old(file.pos) + got && h.Input() == Span(file.bytes, start, file.pos)
    ensures got == if old(file.pos) <= |file.bytes| then Min(need, |file.bytes| - old(file.pos)) else 0
  {
    hide Hasher.Shape, Span;
    ghost var at := file.pos;
    var buf := file.Read(need);
    got := |buf|;
    if at <= |file.bytes| {
      SpanGrows(file.bytes, start, at, file.pos);
    } else {
      assert h.Input() + [] == h.Input();
    }
    SpanLength(file.bytes, start, at, got);
    h.Update(buf);
  }

  lemma SpanLength(data: seq<Byte>, start: nat, i: nat, n: nat)
    requires start <= i && (i <= |data| ==> i + n <= |data|) && (i > |data| ==> n == 0)
    ensures |Span(data, start, i)| + n <= |data|
  {
  }

  /** Hashes the next n bytes of the file, in pieces; false if the file ends before. */
  method HashBytes(m: Mode, degree: nat, file: DataFile, n: nat) returns (ok: bool, hash: seq<Byte>)
    requires Degree(degree) && |file.bytes| < TWO_TO_64
    modifies file`pos
    ensures ok <==> n == 0 || old(file.pos) + n <= |file.bytes|
    ensures ok ==> file.pos == old(file.pos) + n && hash == Digest(m, Span(file.bytes, old(file.pos), file.pos))
  {
    hide Tree, RootBytes, Hasher.Valid, Span;
    var h := new Hasher(m, degree);
    var left: nat := n;
    ok := true;
    ghost var start := file.pos;
    EmptySpan(file.bytes, start);
    while left > 0
      invariant h.Valid() && h.m == m && fresh(h) && fresh(h.chunk) && fresh(h.chunk.buf) && fresh(h.cvStack)
      invariant left <= n && file.pos + left == start + n && h.Input() == Span(file.bytes, start, file.pos)
      invariant left < n ==> file.pos <= |file.bytes|
    {
      var need := if left < READ_LEN then left else READ_LEN;
      var got := HashPiece(h, file, need, start);
      if got != need {
        ok := false;
        break;
      }
      left := left - need;
    }
    var out := new Byte[OUT_LEN];
    h.FinalizeSeek(0, out);
    hash := out[..];
  }

  lemma EmptySpan(data: seq<Byte>, i: nat)
    ensures Span(data, i, i) == []
  {
  }

  /** datacheck::run for one row; says how many messages it gives. */
  method CheckObject(m: Mode, degree: nat, file: DataFile, o: Object) returns (messages: nat)
    requires Degree(degree) && |file.bytes| < TWO_TO_64
    modifies file`pos
    ensures messages == 0 <==> o.offset == old(file.pos) && Describes(m, file.bytes, o)
    ensures messages == 0 ==> file.pos == o.offset + o.size
  {
    hide Digest, FromLe;
    messages := 0;
    if o.offset != file.pos {
      messages := messages + 1;
      file.Seek(o.offset);
    }
    var header := file.Read(8);
    if |header| != 8 {
      messages := messages + 1;
      header := *;
      if |header| != 8 {
        header := seq(8, _ => 0);
      }
    } else {
      assert header[0] == file.bytes[o.offset] && header[1..] == file.bytes[o.offset + 1..o.offset + 8];
    }
    if Signed(header[0]) != o.kind {
      messages := messages + 1;
    }
    if FromLe(header[1..]) != o.size {
      messages := messages + 1;
    }
    file.Seek(o.offset);
    var ok, hash := HashBytes(m, degree, file, o.size);
    if !ok || hash != o.hash {
      messages := messages + 1;
    }
  }

  /** What the check accepts. */
  ghost predicate Checked(m: Mode, data: seq<Byte>, objects: seq<Object>) {
    Tiles(objects, MAGIC_LEN, End(objects, MAGIC_LEN)) && AllDescribed(m, data, objects)
  }

  lemma CheckedAppend(m: Mode, data: seq<Byte>, objects: seq<Object>, o: Object)
    ensures Checked(m, data, objects + [o])
            <==> Checked(m, data, objects) && o.offset == End(objects, MAGIC_LEN) && Describes(m, data, o)
  {
    hide Describes;
    var all := objects + [o];
    assert all[..|objects|] == objects && all[|objects|] == o;
    TilesEnd(objects, MAGIC_LEN, o.offset);
    if AllDescribed(m, data, all) {
      forall i | 0 <= i < |objects| ensures Describes(m, data, objects[i]) {
        assert all[i] == objects[i];
      }
    }
  }

  /** The whole check: silent exactly when the objects tile the file from the magic number on and every
      row is true. */
  method Check(m: Mode, degree: nat, file: DataFile, objects: seq<Object>) returns (messages: nat)
    requires Degree(degree) && |file.bytes| < TWO_TO_64
    modifies file`pos
    ensures messages == 0 <==> Checked(m, file.bytes, objects)
  {
    hide Describes, Tiles, AllDescribed, Checked;
    file.Seek(MAGIC_LEN);
    messages := 0;
    NothingChecked(m, file.bytes);
    assert objects[..0] == [];
    for i := 0 to |objects|
      invariant messages == 0 <==> Checked(m, file.bytes, objects[..i])
      invariant messages == 0 ==> file.pos == End(objects[..i], MAGIC_LEN)
    {
      CheckedAppend(m, file.bytes, objects[..i], objects[i]);
      assert objects[..i + 1] == objects[..i] + [objects[i]];
      var found := CheckObject(m, degree, file, objects[i]);
      messages := messages + found;
    }
    assert objects[..|objects|] == objects;
  }

  lemma NothingChecked(m: Mode, data: seq<Byte>)
    ensures Checked(m, data, [])
  {
  }

  /** A sound repository passes, whatever stands behind the committed bytes. */
  lemma SoundIsChecked(m: Mode, data: seq<Byte>, db: Database)
    requires Sound(m, data, db)
    ensures Checked(m, data, db.objects)
  {
    hide Describes, Tiles;
    TilesEnd(db.objects, MAGIC_LEN, db.filesize);
    forall i | 0 <= i < |db.objects| ensures Describes(m, data, db.objects[i]) {
      DescribesPrefix(m, data[..db.filesize], data, db.objects[i]);
    }
  }
}
