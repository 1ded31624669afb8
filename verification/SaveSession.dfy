/** Saving one file: the object is built behind the end of MAIN.DAT, and becomes part of the repository
    only with its commit.  Every write may be cut short. */
module SaveSession {
  import opened Bytes
  import opened DataFiles
  import opened MainDat
  import opened Blake3Tree
  import opened Blake3Subtree
  import opened Blake3Hasher
  import opened Signatures

  const OBJECT_HEADER := 16
  const ZSTREAM_BUFFER_SIZE := 65524
  const CONTAINS_SIGNATURE := 16

  // ----- writing into the middle -----

  lemma OverlayMiddle(a: seq<Byte>, x: seq<Byte>, b: seq<Byte>, w: seq<Byte>)
    requires |w| <= |x|
    ensures Overlay(a + x + b, |a|, w) == a + (w + x[|w|..]) + b
  {
    var s := a + x + b;
    assert s[..|a|] == a;
    assert |a| + |w| < |s| ==> s[|a| + |w|..] == x[|w|..] + b;
  }

  lemma OverlayEnd(a: seq<Byte>, w: seq<Byte>)
    ensures Overlay(a, |a|, w) == a + w
  {
  }

  /** Nothing below the place of the write changes. */
  lemma OverlayKeeps(base: seq<Byte>, b: seq<Byte>, p: nat, w: seq<Byte>)
    requires base <= b && |base| <= p <= |b|
    ensures base <= Overlay(b, p, w)
  {
  }

  lemma LeHeader(kind: nat, size: nat)
    requires kind < 128 && size < DISK_LIMIT
    ensures var h := Le(kind + 256 * size, 8);
            Signed(h[0]) == kind && FromLe(h[1..]) == size
  {
    assert Power256(7) == 0x100_0000_0000_0000;
    assert (kind + 256 * size) / 256 == size && (kind + 256 * size) % 256 == kind;
    var h := Le(kind + 256 * size, 8);
    assert h == [kind as Byte] + Le(size, 7);
    LeRoundTrip(size, 7);
    assert h[1..] == Le(size, 7);
  }

  class FileSave {
    const m: Mode
    const degree: nat
    const file: DataFile
    const filesize: nat
    const bsnt: nat
    const parent: nat
    const useZlib: bool
    const noSignature: bool
    const writeSignature: bool
    const signer: Signer
    var rawFile: bool
    var unwind: bool
    var position: nat
    var dataBegin: nat
    var bytespassed: nat
    ghost var base: seq<Byte>     // the file before the save
    ghost var head: seq<Byte>     // the place of the object header
    ghost var gap: seq<Byte>      // the place of the signature
    ghost var content: seq<Byte>

    ghost predicate Parts()
      reads this, file, signer, signer.sigbuf, signer.sigbuf.buffer, signer.nsstore
    {
      && Degree(degree) && signer.Valid() && signer.m == m && signer.filesize == filesize && signer.bsnt == bsnt
      && (writeSignature ==> !noSignature)
      && (!unwind && !noSignature ==> |signer.seen| == bytespassed)
    }

    /** The file: what was there before, the object header, room for the signature, the content. */
    ghost predicate Layout()
      reads this, file, signer
    {
      && file.bytes == base + (head + Le(parent, 8)) + gap + content
      && |head| == 8 && |gap| == (if writeSignature then signer.nsstore.Length else 0)
      && position == |base| && dataBegin == |base| + OBJECT_HEADER + |gap|
    }

    ghost predicate Active()
      reads this, file, signer, signer.sigbuf, signer.sigbuf.buffer, signer.nsstore
    {
      Parts() && Layout() && file.pos == |file.bytes|
    }

    constructor (mode: Mode, simdDegree: nat, hdata: DataFile, size: nat, blockSize: nat, prev: nat, raw: bool,
                 zlib: bool, withoutSignature: bool, embed: bool)
      requires Degree(simdDegree) && 0 < blockSize < WORD && (embed ==> !withoutSignature)
      ensures Parts() && file == hdata && m == mode && base == hdata.bytes && bytespassed == 0 && !unwind
      ensures parent == prev && filesize == size && bsnt == blockSize && writeSignature == embed
      ensures noSignature == withoutSignature && rawFile == raw && useZlib == zlib && signer.seen == []
      ensures fresh(signer) && fresh(signer.sigbuf) && fresh(signer.sigbuf.buffer) && fresh(signer.nsstore)
    {
      m, degree, file, filesize, bsnt, parent := mode, simdDegree, hdata, size, blockSize, prev;
      rawFile, useZlib, noSignature, writeSignature := raw, zlib, withoutSignature, embed;
      unwind, position, dataBegin, bytespassed := false, 0, 0, 0;
      base, head, gap, content := hdata.bytes, [], [], [];
      signer := new Signer(mode, simdDegree, blockSize, size);
    }

    /** The first write: an object header with its flags and size still open. */
    method WriteOpenHeader() returns (ok: bool)
      requires Parts() && base == file.bytes
      modifies file, this`position, this`head
      ensures Parts() && base <= file.bytes && (|old(file.bytes)| < DISK_LIMIT ==> |file.bytes| < DISK_LIMIT)
      ensures ok ==> file.bytes == base + (head + Le(parent, 8)) && |head| == 8 && position == |base|
                     && file.pos == |file.bytes|
      ensures file.failed == (old(file.failed) || !ok)
    {
      hide Signer.Valid, Le, Overlay;
      file.Seek(|file.bytes|);
      position := file.pos;
      var junk: seq<Byte> := *;
      if |junk| != 8 {
        junk := seq(8, _ => 0);
      }
      ok := file.Write(junk + Le(parent, 8));
      OverlayKeeps(base, base, position, (junk + Le(parent, 8))[..file.pos - position]);
      OverlayEnd(base, junk + Le(parent, 8));
      assert (junk + Le(parent, 8))[..16] == junk + Le(parent, 8);
      head := junk;
    }

    /** The file part of the constructor: the header behind the last byte, and room for the signature. */
    method Start() returns (ok: bool)
      requires Parts() && base == file.bytes
      modifies file, this`position, this`dataBegin, this`head, this`gap, this`content
      ensures Parts() && base <= file.bytes && (|old(file.bytes)| < DISK_LIMIT ==> |file.bytes| < DISK_LIMIT)
      ensures ok ==> Active() && content == []
      ensures file.failed == (old(file.failed) || !ok)
    {
      hide Signer.Valid, Le;
      ok := WriteOpenHeader();
      if !ok {
        return;
      }
      gap, content := [], [];
      ghost var before := file.bytes;
      if writeSignature {
        file.Seek(position + OBJECT_HEADER + signer.nsstore.Length);
        ok := file.SetEnd();
        if !ok {
          return;
        }
        gap := file.bytes[|before|..];
      }
      dataBegin := file.pos;
      assert file.bytes == before + gap;
      assert file.bytes == base + (head + Le(parent, 8)) + gap + content;
    }

    /** _process without compression: content is appended. */
    method WriteContent(buf: seq<Byte>) returns (ok: bool)
      requires Active()
      modifies file, this`content
      ensures Parts() && base <= file.bytes && (|old(file.bytes)| < DISK_LIMIT ==> |file.bytes| < DISK_LIMIT)
      ensures ok ==> Active() && content == old(content) + buf
      ensures file.failed == (old(file.failed) || !ok)
    {
      hide Signer.Valid, Le;
      ghost var before := file.bytes;
      ok := file.Write(buf);
      OverlayEnd(before, buf[..file.pos - |before|]);
      if ok {
        content := content + buf;
        assert file.bytes == base + (head + Le(parent, 8)) + gap + content;
      }
    }

    /** process: the signature sees the bytes, and whatever form of them is stored becomes content. */
    method Process(buf: seq<Byte>, stored: seq<Byte>) returns (ok: bool)
      requires Active() && bytespassed + |buf| <= filesize
      modifies file, this`content, this`bytespassed
      modifies signer`shash, signer`nsstoreLst, signer`seen, signer`part, signer`blocks
      modifies signer.sigbuf, signer.sigbuf.buffer, signer.nsstore
      ensures base <= file.bytes && (|old(file.bytes)| < DISK_LIMIT ==> |file.bytes| < DISK_LIMIT)
      ensures ok ==> Active() && content == old(content) + stored && bytespassed == old(bytespassed) + |buf|
      ensures !unwind && !noSignature ==> signer.seen == old(signer.seen) + buf
      ensures unwind || noSignature ==> signer.seen == old(signer.seen)
      ensures file.failed == (old(file.failed) || !ok)
    {
      hide Signer.Valid, Le;
      if !unwind && !noSignature {
        signer.Process(buf);
      }
      bytespassed := bytespassed + |buf|;
      ok := WriteContent(stored);
    }

    /** restart: the content is thrown away, to be written again in raw form. */
    method Restart() returns (ok: bool)
      requires Active() && !rawFile
      modifies file, this`rawFile, this`unwind, this`bytespassed, this`content
      ensures base <= file.bytes && (|old(file.bytes)| < DISK_LIMIT ==> |file.bytes| < DISK_LIMIT)
      ensures ok ==> Active() && content == [] && bytespassed == 0 && unwind && rawFile
      ensures file.failed == (old(file.failed) || !ok)
    {
      hide Signer.Valid, Le;
      rawFile, unwind, bytespassed := true, true, 0;
      file.Seek(dataBegin);
      ok := file.SetEnd();
      if ok {
        content := [];
        assert file.bytes == base + (head + Le(parent, 8)) + gap + content;
      }
    }

    /** The flags of the object. */
    function Kind(): (k: nat)
      reads this
      ensures k < 128
    {
      (if rawFile then 0 else 8) + (if useZlib then 2 else 0) + (if writeSignature then CONTAINS_SIGNATURE else 0)
      + (if useZlib && !rawFile then 32 else 0)
    }

    /** The object header of commit: flags and size, over the eight bytes left open. */
    method WriteHeader(objsize: nat) returns (ok: bool)
      requires Parts() && Layout()
      modifies file, this`head
      ensures Parts() && base <= file.bytes && (|old(file.bytes)| < DISK_LIMIT ==> |file.bytes| < DISK_LIMIT)
      ensures ok ==> Layout() && head == Le(Kind() + 256 * objsize, 8) && file.pos == position + 8
      ensures file.failed == (old(file.failed) || !ok)
    {
      hide Signer.Valid, Le, Overlay;
      var header := Le(Kind() + 256 * objsize, 8);
      ghost var rest := Le(parent, 8) + gap + content;
      assert file.bytes == base + head + rest;
      file.Seek(position);
      ok := file.Write(header);
      OverlayKeeps(base, base + head + rest, position, header[..file.pos - position]);
      if ok {
        OverlayMiddle(base, head, rest, header);
        head := header;
        assert header[..8] == header && file.bytes == base + (head + []) + rest;
        assert file.bytes == base + (head + Le(parent, 8)) + gap + content;
      }
    }

    /** The signature goes into the room kept for it, and never beyond. */
    method FillSignature() returns (ok: bool)
      requires Parts() && Layout() && writeSignature && file.pos == position + 8
      modifies file, this`gap
      ensures Parts() && base <= file.bytes && (|old(file.bytes)| < DISK_LIMIT ==> |file.bytes| < DISK_LIMIT)
      ensures ok ==> Layout() && gap[..signer.nsstoreLst] == signer.nsstore[..signer.nsstoreLst]
      ensures file.failed == (old(file.failed) || !ok)
    {
      hide Signer.InProgress, Le, Overlay, Stored, Sign;
      var bytes := signer.nsstore[..signer.nsstoreLst];
      ghost var front := base + (head + Le(parent, 8));
      file.Seek(file.pos + 8);
      ok := file.Write(bytes);
      OverlayKeeps(base, front + gap + content, |front|, bytes[..file.pos - |front|]);
      if ok {
        OverlayMiddle(front, gap, content, bytes);
        gap := bytes + gap[|bytes|..];
        assert bytes[..|bytes|] == bytes;
      }
    }

    /** Hashes the object from its start to the end of the file. */
    method HashObject() returns (hash: seq<Byte>)
      requires Parts() && position <= |file.bytes| < DISK_LIMIT
      modifies file`pos
      ensures hash == Digest(m, file.bytes[position..]) && Parts()
    {
      hide Tree, RootBytes, Hasher.Valid, Span, Signer.Valid;
      file.Seek(position);
      var h := new Hasher(m, degree);
      EmptySpan(file.bytes, position);
      var readen := 1;
      while readen != 0
        invariant h.Valid() && h.m == m && fresh(h) && fresh(h.chunk) && fresh(h.chunk.buf) && fresh(h.cvStack)
        invariant position <= file.pos <= |file.bytes| && h.Input() == Span(file.bytes, position, file.pos)
        invariant readen == 0 ==> file.pos == |file.bytes|
        decreases |file.bytes| - file.pos, readen
      {
        readen := HashPiece(h, file, ZSTREAM_BUFFER_SIZE, position);
      }
      var out := new Byte[OUT_LEN];
      h.FinalizeSeek(0, out);
      hash := out[..];
      WholeSpan(file.bytes, position);
    }

    /** The row of the finished object. */
    ghost function Row(): Object
      requires position <= |file.bytes|
      reads this, file
    {
      Object(position, |file.bytes| - position, Digest(m, file.bytes[position..]), Kind())
    }

    /** The signature in the room before the content is that of the bytes the signature has seen, and it fills
        the room exactly if all whole blocks of the file were among them. */
    lemma SignatureFills()
      requires Parts() && Layout() && writeSignature && gap[..signer.nsstoreLst] == signer.nsstore[..signer.nsstoreLst]
      ensures signer.nsstoreLst <= |gap| == dataBegin - position - OBJECT_HEADER == 8 + ENTRY_LEN * (filesize / bsnt)
      ensures gap[..signer.nsstoreLst] == Stored(bsnt, filesize / bsnt, SignatureOf(m, bsnt, signer.seen))
      ensures signer.nsstoreLst == |gap| <==> bsnt * (filesize / bsnt) <= |signer.seen|
    {
      hide Stored, Sign, Digest;
      QuotientIs(|signer.seen|, bsnt, signer.blocks, |signer.part|);
      SameQuotient(filesize, |signer.seen|, bsnt);
    }

    lemma RowStarts()
      requires Layout()
      ensures Row().offset == |base| && Row().offset + Row().size == |file.bytes| && base <= file.bytes
    {
    }

    lemma RowDescribes()
      requires Layout() && |file.bytes| < DISK_LIMIT && head == Le(Kind() + 256 * (|file.bytes| - position), 8)
      ensures Describes(m, file.bytes, Row())
    {
      hide Le, Digest, FromLe;
      LeHeader(Kind(), |file.bytes| - position);
      HeaderAt(base, head, Le(parent, 8) + gap + content, file.bytes);
      assert file.bytes[position..|file.bytes|] == file.bytes[position..];
    }

    /** Header and signature, the last writes of a save. */
    method Complete(objsize: nat) returns (ok: bool)
      requires Parts() && Layout()
      modifies file, this`head, this`gap
      ensures Parts() && base <= file.bytes && (|old(file.bytes)| < DISK_LIMIT ==> |file.bytes| < DISK_LIMIT)
      ensures ok ==> Layout() && head == Le(Kind() + 256 * objsize, 8) && |file.bytes| == |old(file.bytes)|
      ensures ok && writeSignature ==> gap[..signer.nsstoreLst] == signer.nsstore[..signer.nsstoreLst]
      ensures file.failed == (old(file.failed) || !ok)
    {
      hide Signer.InProgress, Le, Stored, Sign;
      ok := WriteHeader(objsize);
      if ok && writeSignature {
        ok := FillSignature();
      }
    }

    /** commit: completes the object and returns what the transaction commits, if the database accepts it. */
    method Commit(db: Database, accepts: bool) returns (ok: bool, committed: Database)
      requires Active() && |file.bytes| < DISK_LIMIT
      modifies file, this`head, this`gap
      ensures base <= file.bytes && (|old(file.bytes)| < DISK_LIMIT ==> |file.bytes| < DISK_LIMIT)
      ensures !ok ==> committed == db
      ensures ok ==> bytespassed >= filesize && Parts() && Layout()
      ensures ok ==> committed == Database(db.objects + [Row()], |file.bytes|) && Describes(m, file.bytes, Row())
      ensures ok && writeSignature ==> gap[..signer.nsstoreLst] == signer.nsstore[..signer.nsstoreLst]
      ensures !old(file.failed) ==> (ok <==> filesize <= old(bytespassed) && accepts && !file.failed)
      ensures (ok ==> file.failed == old(file.failed)) && (old(file.failed) ==> file.failed)
    {
      hide Signer.InProgress, Le, Digest, FromLe, Stored, Sign, Describes;
      committed := db;
      ok := false;
      if bytespassed < filesize {
        return;
      }
      ghost var before := file.bytes;
      ok := file.SetEnd();
      if !ok {
        return;
      }
      assert before[..|before|] == before && file.bytes[..|before|] == file.bytes;
      var tarsize := file.pos;
      ok := Complete(tarsize - position);
      if !ok {
        return;
      }
      RowDescribes();
      var hash := HashObject();
      ok := accepts;
      if ok {
        committed := Database(db.objects + [Object(position, tarsize - position, hash, Kind())], tarsize);
      }
    }
  }

  /** Two numbers, the first not smaller, have the same quotient exactly if the second reaches the whole
      multiple below the first. */
  lemma SameQuotient(n: nat, k: nat, size: nat)
    requires k <= n && 0 < size
    ensures n / size == k / size <==> size * (n / size) <= k
    ensures k / size <= n / size
  {
    if k / size < n / size {
      MulGap(size, k / size, n / size);
    } else if n / size < k / size {
      MulGap(size, n / size, k / size);
    }
  }

  lemma WholeSpan(data: seq<Byte>, i: nat)
    requires i <= |data|
    ensures Span(data, i, |data|) == data[i..]
  {
  }

  lemma HeaderAt(base: seq<Byte>, head: seq<Byte>, rest: seq<Byte>, data: seq<Byte>)
    requires |head| == 8 && data == base + head + rest
    ensures data[|base|] == head[0] && data[|base| + 1..|base| + 8] == head[1..]
  {
    assert data[|base|..|base| + 8] == head;
    forall i | 0 <= i < 7 ensures data[|base| + 1..|base| + 8][i] == head[1..][i] {
      assert data[|base| + 1 + i] == head[1 + i];
    }
  }
}
