/** Looking a block up in a parent's signature: a map from weak hashes to entries sorted by strong hash,
    searched with lower_bound. */
module SignatureIndex {
  import opened Bytes
  import opened Options
  import opened Signatures
  import opened Blake3Tree

  datatype KeyValue = KeyValue(key: Cv, value: nat)

  // ----- memcmp order -----

  /** memcmp(a, b) < 0 */
  predicate Less(a: seq<Byte>, b: seq<Byte>) {
    a != [] && b != [] && (a[0] < b[0] || (a[0] == b[0] && Less(a[1..], b[1..])))
  }

  lemma {:induction false} LessTransitive(a: seq<Byte>, b: seq<Byte>, c: seq<Byte>)
    requires !Less(b, a) && !Less(c, b) && |a| == |b| == |c|
    ensures !Less(c, a)
    decreases |a|
  {
    if a != [] && a[0] == b[0] == c[0] {
      LessTransitive(a[1..], b[1..], c[1..]);
    }
  }

  /** The order is total: two digests of which neither is less are equal. */
  lemma {:induction false} LessTotal(a: seq<Byte>, b: seq<Byte>)
    requires |a| == |b|
    ensures !Less(a, b) && !Less(b, a) <==> a == b
    ensures Less(a, b) ==> !Less(b, a)
    decreases |a|
  {
    if a != [] {
      if a[0] == b[0] {
        LessTotal(a[1..], b[1..]);
        assert a == [a[0]] + a[1..] && b == [b[0]] + b[1..];
      }
    } else {
      assert a == b;
    }
  }

  ghost predicate Sorted(s: seq<KeyValue>) {
    forall i, j :: 0 <= i < j < |s| ==> !Less(s[j].key, s[i].key)
  }

  // ----- sorting and searching -----

  /** std::sort: some sorted rearrangement. */
  method Sort(s: seq<KeyValue>) returns (r: seq<KeyValue>)
    ensures Sorted(r) && multiset(r) == multiset(s)
  {
    r := [];
    for n := 0 to |s|
      invariant Sorted(r) && multiset(r) == multiset(s[..n])
    {
      assert s[..n + 1] == s[..n] + [s[n]];
      r := Insert(r, s[n]);
    }
    assert s[..|s|] == s;
  }

  method Insert(s: seq<KeyValue>, x: KeyValue) returns (r: seq<KeyValue>)
    requires Sorted(s)
    ensures Sorted(r) && multiset(r) == multiset(s) + multiset{x}
  {
    hide Less;
    var i := LowerBound(s, x.key);
    r := s[..i] + [x] + s[i..];
    assert s == s[..i] + s[i..];
    LessTotal(x.key, x.key);
    forall j | i <= j < |s| ensures !Less(s[j].key, x.key) {}
    forall j | 0 <= j < i ensures !Less(x.key, s[j].key) {
      LessTotal(s[j].key, x.key);
    }
    InsertSorted(s, i, x);
  }

  lemma InsertSorted(s: seq<KeyValue>, i: nat, x: KeyValue)
    requires Sorted(s) && i <= |s|
    requires forall j :: i <= j < |s| ==> !Less(s[j].key, x.key)
    requires forall j :: 0 <= j < i ==> !Less(x.key, s[j].key)
    ensures Sorted(s[..i] + [x] + s[i..])
  {
    hide Less;
  }

  /** std::lower_bound: the first place whose key is not less. */
  method LowerBound(s: seq<KeyValue>, key: Cv) returns (i: nat)
    requires Sorted(s)
    ensures i <= |s|
    ensures forall j :: 0 <= j < i ==> Less(s[j].key, key)
    ensures forall j :: i <= j < |s| ==> !Less(s[j].key, key)
  {
    hide Less;
    i := 0;
    var count := |s|;
    while count > 0
      invariant 0 <= i && 0 <= count && i + count <= |s|
      invariant forall j :: 0 <= j < i ==> Less(s[j].key, key)
      invariant forall j :: i + count <= j < |s| ==> !Less(s[j].key, key)
    {
      var step := count / 2;
      if Less(s[i + step].key, key) {
        forall j | 0 <= j < i + step ensures Less(s[j].key, key) {
          if !Less(s[j].key, key) {
            LessTransitive(key, s[j].key, s[i + step].key);
          }
        }
        i, count := i + step + 1, count - (step + 1);
      } else {
        forall j | i + step < j < |s| ensures !Less(s[j].key, key) {
          LessTransitive(key, s[i + step].key, s[j].key);
        }
        count := step;
      }
    }
  }

  // ----- the index -----

  type Index = map<Word32, seq<KeyValue>>

  /** The index holds exactly the entries, each under its weak hash. */
  ghost predicate Holds(index: Index, entries: seq<Entry>) {
    && (forall h, kv :: h in index && kv in index[h] ==> kv.value < |entries| && entries[kv.value] == Entry(h, kv.key))
    && (forall i :: 0 <= i < |entries| ==>
          entries[i].weak in index && KeyValue(entries[i].strong, i) in index[entries[i].weak])
  }

  ghost predicate AllSorted(index: Index) {
    forall h :: h in index ==> Sorted(index[h])
  }

  /** Reading entry i back from the stored signature. */
  method ReadEntry(store: seq<Byte>, i: nat) returns (e: Entry)
    requires ENTRY_LEN * (i + 1) <= |store|
    ensures forall f :: store[ENTRY_LEN * i..ENTRY_LEN * (i + 1)] == EntryBytes(f) ==> e == f
  {
    var at := ENTRY_LEN * i;
    e := Entry(FromLe32(store[at..at + 4]), store[at + 4..at + 4 + OUT_LEN]);
    forall f | store[ENTRY_LEN * i..ENTRY_LEN * (i + 1)] == EntryBytes(f) ensures e == f {
      ReadBack(store[at..at + ENTRY_LEN], f);
      assert store[at..at + 4] == store[at..at + ENTRY_LEN][..4];
      assert store[at + 4..at + 4 + OUT_LEN] == store[at..at + ENTRY_LEN][4..4 + OUT_LEN];
    }
  }

  lemma ReadBack(bytes: seq<Byte>, e: Entry)
    requires bytes == EntryBytes(e)
    ensures FromLe32(bytes[..4]) == e.weak && bytes[4..4 + OUT_LEN] == e.strong
  {
    Le32RoundTrip(e.weak);
    hide FromLe32, Le32;
    assert bytes[..4] == Le32(e.weak);
  }

  function Add(index: Index, e: Entry, i: nat): Index {
    var values := if e.weak in index then index[e.weak] else [];
    index[e.weak := values + [KeyValue(e.strong, i)]]
  }

  lemma AddHolds(index: Index, entries: seq<Entry>, e: Entry)
    requires Holds(index, entries)
    ensures Holds(Add(index, e, |entries|), entries + [e])
  {
  }

  /** The index of a stored signature, in the order it is read. */
  method BuildIndex(store: seq<Byte>, ghost entries: seq<Entry>) returns (index: Index)
    requires store == Store(entries)
    ensures Holds(index, entries) && AllSorted(index)
  {
    hide Store, EntryBytes, Holds;
    index := map[];
    var k := |store| / ENTRY_LEN;
    EmptyHolds();
    assert entries[..0] == [];
    for i := 0 to k
      invariant Holds(index, entries[..i])
    {
      StoreAt(entries, i);
      var e := ReadEntry(store, i);
      AddHolds(index, entries[..i], e);
      assert entries[..i] + [e] == entries[..i + 1];
      index := Add(index, e, i);
    }
    assert entries[..k] == entries;
    index := SortAll(index, entries);
  }

  lemma EmptyHolds()
    ensures Holds(map[], [])
  {
  }

  method SortAll(index0: Index, ghost entries: seq<Entry>) returns (index: Index)
    requires Holds(index0, entries)
    ensures Holds(index, entries) && AllSorted(index)
  {
    hide Holds, Less;
    index := index0;
    var keys := index.Keys;
    while keys != {}
      invariant Holds(index, entries) && keys <= index.Keys
      invariant forall h :: h in index && h !in keys ==> Sorted(index[h])
      decreases |keys|
    {
      var h :| h in keys;
      keys := keys - {h};
      var values := Sort(index[h]);
      SortedHolds(index, entries, h, values);
      index := index[h := values];
    }
  }

  lemma SortedHolds(index: Index, entries: seq<Entry>, h: Word32, values: seq<KeyValue>)
    requires Holds(index, entries) && h in index && multiset(values) == multiset(index[h])
    ensures Holds(index[h := values], entries)
  {
    forall kv ensures kv in values <==> kv in index[h] {
      assert kv in values <==> kv in multiset(values);
      assert kv in index[h] <==> kv in multiset(index[h]);
    }
  }

  lemma NotIndexed(index: Index, h: Word32, strong: Cv, entries: seq<Entry>)
    requires Holds(index, entries) && h !in index
    ensures Entry(h, strong) !in entries
  {
  }

  /** The lookup finds an entry with both hashes exactly when the signature has one. */
  method Lookup(index: Index, h: Word32, strong: Cv, ghost entries: seq<Entry>) returns (r: Option<nat>)
    requires Holds(index, entries) && AllSorted(index) && h in index
    ensures r.Some? ==> r.value < |entries| && entries[r.value] == Entry(h, strong)
    ensures r.None? ==> Entry(h, strong) !in entries
  {
    hide Less;
    var vars := index[h];
    var i := LowerBound(vars, strong);
    if i < |vars| && vars[i].key == strong {
      assert vars[i] in index[h];
      return Some(vars[i].value);
    }
    forall j | 0 <= j < |entries| ensures entries[j] != Entry(h, strong) {
      if entries[j] == Entry(h, strong) {
        var at :| 0 <= at < |vars| && vars[at] == KeyValue(strong, j);
        LessTotal(strong, strong);
        LessTotal(vars[i].key, strong);
        assert false;
      }
    }
    return None;
  }
}
