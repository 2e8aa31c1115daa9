/** Key-to-value tables with tombstones, and their listing in key order (`BTreeMap<Vec<u8>, Option<Vec<u8>>>`). */
module Tables {
  import opened Bytes
  import opened Errors
  import opened Records

  /** `None` is a tombstone. */
  type Table = map<Bytes, Option<Bytes>>

  /** What a reader of the store sees: live keys only. */
  type View = map<Bytes, Bytes>

  function Live(t: Table): View {
    map k | k in t && t[k].Some? :: t[k].value
  }

  // ---------- records as table entries ----------

  function ValueOf(r: Record): Option<Bytes> {
    if r.op.Set? then Some(r.val) else None
  }

  /** `Record::new_set` or `Record::new_delete`. */
  function RecordOf(key: Bytes, val: Option<Bytes>): (r: Record)
    ensures r.key == key && ValueOf(r) == val && Canonical(r) == r
  {
    match val
    case Some(v) => Record(Set, key, v)
    case None => Record(Delete, key, [])
  }

  /** Inserting records one after the other; later ones overwrite. */
  function Insert(t: Table, rs: seq<Record>): Table
    decreases |rs|
  {
    if rs == [] then t else Insert(t[rs[0].key := ValueOf(rs[0])], rs[1..])
  }

  function TableOf(rs: seq<Record>): Table {
    Insert(map[], rs)
  }

  lemma {:induction false} InsertConcat(t: Table, a: seq<Record>, b: seq<Record>)
    ensures Insert(t, a + b) == Insert(Insert(t, a), b)
    decreases |a|
  {
    if a == [] {
      assert a + b == b;
    } else {
      assert (a + b)[1..] == a[1..] + b;
      InsertConcat(t[a[0].key := ValueOf(a[0])], a[1..], b);
    }
  }

  /** Inserting is overlaying: what was there before shows through where nothing was inserted. */
  lemma {:induction false} InsertIsOverlay(t: Table, rs: seq<Record>)
    ensures Insert(t, rs) == t + TableOf(rs)
    decreases |rs|
  {
    if rs != [] {
      var r, rest := rs[0], rs[1..];
      InsertIsOverlay(t[r.key := ValueOf(r)], rest);
      InsertIsOverlay(map[r.key := ValueOf(r)], rest);
      assert map[][r.key := ValueOf(r)] == map[r.key := ValueOf(r)];
      assert t[r.key := ValueOf(r)] + TableOf(rest) == t + (map[r.key := ValueOf(r)] + TableOf(rest));
    } else {
      assert t + map[] == t;
    }
  }

  // ---------- sorted lists of records ----------

  ghost predicate StrictlySorted(rs: seq<Record>) {
    forall i, j :: 0 <= i < j < |rs| ==> Less(rs[i].key, rs[j].key)
  }

  /** A linear search: the first record with the key decides. */
  function Find(rs: seq<Record>, key: Bytes): Option<Option<Bytes>>
    decreases |rs|
  {
    if rs == [] then None else if rs[0].key == key then Some(ValueOf(rs[0])) else Find(rs[1..], key)
  }

  function Get(t: Table, key: Bytes): Option<Option<Bytes>> {
    if key in t then Some(t[key]) else None
  }

  /** In a list without duplicate keys, searching it and looking its table up are the same. */
  lemma {:induction false} FindIsGet(rs: seq<Record>, key: Bytes)
    requires StrictlySorted(rs)
    ensures Find(rs, key) == Get(TableOf(rs), key)
    decreases |rs|
  {
    if rs != [] {
      var r, rest := rs[0], rs[1..];
      FindIsGet(rest, key);
      InsertIsOverlay(map[r.key := ValueOf(r)], rest);
      assert map[][r.key := ValueOf(r)] == map[r.key := ValueOf(r)];
      if r.key == key {
        FindBeyond(rest, key);
      }
    }
  }

  /** A key below every key of the list is not found in it. */
  lemma {:induction false} FindBeyond(rs: seq<Record>, key: Bytes)
    requires forall i :: 0 <= i < |rs| ==> Less(key, rs[i].key)
    ensures Find(rs, key) == None
    decreases |rs|
  {
    if rs != [] {
      LessIsAsymmetric(key, rs[0].key);
      FindBeyond(rs[1..], key);
    }
  }

  // ---------- listing a table in key order ----------

  predicate IsLeast(keys: set<Bytes>, least: Bytes) {
    least in keys && forall k :: k in keys ==> k == least || Less(least, k)
  }

  lemma {:induction false} LeastExists(keys: set<Bytes>)
    requires keys != {}
    ensures exists k :: IsLeast(keys, k)
    decreases |keys|
  {
    var k :| k in keys;
    var rest := keys - {k};
    if rest == {} {
      assert keys == {k};
      assert IsLeast(keys, k);
    } else {
      LeastExists(rest);
      var m :| IsLeast(rest, m);
      LessIsTotal(k, m);
      var least := if Less(k, m) then k else m;
      forall j | j in keys
        ensures j == least || Less(least, j)
      {
        if j != k && least == k && j != m {
          LessIsTransitive(k, m, j);
        }
      }
      assert IsLeast(keys, least);
    }
  }

  lemma LeastIsUnique(keys: set<Bytes>)
    ensures forall a, b :: IsLeast(keys, a) && IsLeast(keys, b) ==> a == b
  {
    forall a, b | IsLeast(keys, a) && IsLeast(keys, b)
      ensures a == b
    {
      LessIsAsymmetric(a, b);
    }
  }

  function Least(keys: set<Bytes>): (least: Bytes)
    requires keys != {}
    ensures IsLeast(keys, least)
  {
    LeastExists(keys);
    LeastIsUnique(keys);
    var least :| IsLeast(keys, least);
    least
  }

  /** The records of a table in key order, as iterating the map gives them. */
  function Sorted(t: Table): seq<Record>
    decreases |t.Keys|
  {
    if t == map[] then []
    else
      var k := Least(t.Keys);
      assert (t - {k}).Keys == t.Keys - {k};
      [RecordOf(k, t[k])] + Sorted(t - {k})
  }

  lemma SortedSplits(t: Table)
    requires t != map[]
    ensures var k := Least(t.Keys);
            Sorted(t) == [RecordOf(k, t[k])] + Sorted(t - {k}) && (t - {k}).Keys == t.Keys - {k} && |t - {k}| == |t| - 1
  {
    hide Least, RecordOf;
    var k := Least(t.Keys);
    assert (t - {k}).Keys == t.Keys - {k};
    assert |(t - {k}).Keys| == |t.Keys| - 1;
  }

  lemma {:induction false} SortedHoldsEntries(t: Table)
    ensures |Sorted(t)| == |t|
    ensures forall r :: r in Sorted(t) ==> r.key in t && r == RecordOf(r.key, t[r.key])
    decreases |t.Keys|
  {
    hide Least, RecordOf, Sorted;
    if t == map[] {
      SortedOfNothing();
    } else {
      SortedSplits(t);
      SortedHoldsEntries(t - {Least(t.Keys)});
    }
  }

  lemma SortedOfNothing()
    ensures Sorted(map[]) == []
  {
  }

  /** The listing ascends byte by byte: of two entries the earlier has the smaller byte where they first differ. */
  lemma SortedAscends(t: Table, i: nat, j: nat)
    requires i < j < |Sorted(t)|
    ensures Before(Sorted(t)[i].key, Sorted(t)[j].key)
  {
    hide Sorted, Less, Before;
    SortedIsStrictlySorted(t);
    LessIffBefore(Sorted(t)[i].key, Sorted(t)[j].key);
  }

  lemma {:induction false} SortedIsStrictlySorted(t: Table)
    ensures StrictlySorted(Sorted(t))
    decreases |t.Keys|
  {
    hide Least, RecordOf, Sorted, Less;
    if t == map[] {
      SortedOfNothing();
    } else {
      var k := Least(t.Keys);
      var rest := t - {k};
      SortedSplits(t);
      SortedHoldsEntries(rest);
      SortedIsStrictlySorted(rest);
      var rs := Sorted(t);
      forall i, j | 0 <= i < j < |rs|
        ensures Less(rs[i].key, rs[j].key)
      {
        var b := rs[j];
        assert b == Sorted(rest)[j - 1];
        if i > 0 {
          assert rs[i] == Sorted(rest)[i - 1];
        } else {
          assert b in Sorted(rest) && b.key in rest;
        }
      }
    }
  }

  /** Listing a table and inserting the records again gives the table back. */
  lemma {:induction false} TableOfSorted(t: Table)
    ensures TableOf(Sorted(t)) == t
    decreases |t.Keys|
  {
    hide Least, RecordOf, Sorted, Less;
    if t == map[] {
      SortedOfNothing();
    } else {
      var k := Least(t.Keys);
      var rest := t - {k};
      SortedSplits(t);
      TableOfSorted(rest);
      assert Sorted(t)[1..] == Sorted(rest);
      assert map[][k := t[k]] == map[k := t[k]];
      InsertIsOverlay(map[k := t[k]], Sorted(rest));
      PutBack(t, k);
    }
  }

  lemma PutBack(t: Table, k: Bytes)
    requires k in t
    ensures map[k := t[k]] + (t - {k}) == t
  {
  }
}
