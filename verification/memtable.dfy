/** The in-memory table and its running size (`src/memtable.rs`). */
module Memtables {
  import opened Bytes
  import opened Errors
  import opened Records
  import opened Tables

  const ENTRY_OVERHEAD_BYTES: nat := 16

  function SaturatingAdd(a: u64, b: nat): u64 {
    if a + b > U64_MAX then U64_MAX else a + b
  }

  function SaturatingSub(a: u64, b: nat): u64 {
    if a < b then 0 else a - b
  }

  function ValueLen(val: Option<Bytes>): nat {
    if val.Some? then |val.value| else 0
  }

  /** `entry_size`, with its two saturating additions. */
  function EntrySize(key: Bytes, val: Option<Bytes>): u64 {
    SaturatingAdd(SaturatingAdd(SaturatingAdd(0, |key|), ValueLen(val)), ENTRY_OVERHEAD_BYTES)
  }

  // ---------- the table and its size as a value ----------

  datatype Contents = Contents(table: Table, size: u64)

  const EMPTY := Contents(map[], 0)

  /** Inserting a value, or a tombstone. */
  function Put(s: Contents, key: Bytes, val: Option<Bytes>): Contents {
    var kept := if key in s.table then SaturatingSub(s.size, EntrySize(key, s.table[key])) else s.size;
    Contents(s.table[key := val], SaturatingAdd(kept, EntrySize(key, val)))
  }

  function PutAll(s: Contents, rs: seq<Record>): Contents
    decreases |rs|
  {
    if rs == [] then s else PutAll(Put(s, rs[0].key, ValueOf(rs[0])), rs[1..])
  }

  lemma {:induction false} PutAllInserts(s: Contents, rs: seq<Record>)
    ensures PutAll(s, rs).table == Insert(s.table, rs)
    decreases |rs|
  {
    if rs != [] {
      PutAllInserts(Put(s, rs[0].key, ValueOf(rs[0])), rs[1..]);
    }
  }

  // ---------- the running size is the sum over the entries ----------

  function RawSize(key: Bytes, val: Option<Bytes>): nat {
    |key| + ValueLen(val) + ENTRY_OVERHEAD_BYTES
  }

  ghost function Total(t: Table): nat
    decreases |t.Keys|
  {
    if t == map[] then 0
    else
      var k :| k in t;
      assert (t - {k}).Keys == t.Keys - {k};
      RawSize(k, t[k]) + Total(t - {k})
  }

  lemma {:induction false} TotalWithout(t: Table, key: Bytes)
    requires key in t
    ensures Total(t) == RawSize(key, t[key]) + Total(t - {key})
    decreases |t.Keys|
  {
    var k :| k in t && Total(t) == RawSize(k, t[k]) + Total(t - {k});
    if k != key {
      assert (t - {k}).Keys == t.Keys - {k};
      assert (t - {key}).Keys == t.Keys - {key};
      TotalWithout(t - {k}, key);
      TotalWithout(t - {key}, k);
      assert t - {k} - {key} == t - {key} - {k};
    }
  }

  ghost predicate Accurate(s: Contents) {
    s.size == Total(s.table)
  }

  lemma PutKeepsAccurate(s: Contents, key: Bytes, val: Option<Bytes>)
    requires Accurate(s) && Total(s.table[key := val]) <= U64_MAX
    ensures Accurate(Put(s, key, val))
  {
    hide Total;
    var t := s.table[key := val];
    TotalWithout(t, key);
    EntrySizeIsRaw(key, val);
    if key in s.table {
      TotalWithout(s.table, key);
      assert t - {key} == s.table - {key};
      EntrySizeIsRaw(key, s.table[key]);
    } else {
      assert t - {key} == s.table;
    }
  }

  lemma EntrySizeIsRaw(key: Bytes, val: Option<Bytes>)
    ensures EntrySize(key, val) == if RawSize(key, val) <= U64_MAX then RawSize(key, val) else U64_MAX
  {
  }

  /** In general one insertion saturates: it makes the size the sum over the entries, but at most 2^64 - 1. */
  lemma PutSaturates(s: Contents, key: Bytes, val: Option<Bytes>)
    requires Accurate(s)
    ensures var all := Total(s.table[key := val]);
            Put(s, key, val).size == if all <= 0xFFFF_FFFF_FFFF_FFFF then all else 0xFFFF_FFFF_FFFF_FFFF
  {
    hide Total;
    var t := s.table[key := val];
    TotalWithout(t, key);
    EntrySizeIsRaw(key, val);
    if key in s.table {
      TotalWithout(s.table, key);
      assert t - {key} == s.table - {key};
      EntrySizeIsRaw(key, s.table[key]);
    } else {
      assert t - {key} == s.table;
    }
  }

  /** In any state: the old entry is taken off, at most to zero, and the new one added, at most to 2^64 - 1. */
  lemma PutNeverWraps(s: Contents, key: Bytes, val: Option<Bytes>)
    ensures var was := if key in s.table then RawSize(key, s.table[key]) else 0;
            var kept := if was <= s.size then s.size - was else 0;
            var all := kept + RawSize(key, val);
            Put(s, key, val).size == if all <= 0xFFFF_FFFF_FFFF_FFFF then all else 0xFFFF_FFFF_FFFF_FFFF
  {
    EntrySizeIsRaw(key, val);
    if key in s.table {
      EntrySizeIsRaw(key, s.table[key]);
    }
  }

  /** The sum: 16 bytes for each entry, and its key, and its value unless it is a tombstone. */
  lemma TotalOfEntries(t: Table, key: Bytes, val: Bytes)
    requires key !in t
    ensures Total(map[]) == 0
    ensures Total(t[key := Some(val)]) == Total(t) + |key| + |val| + 16
    ensures Total(t[key := None]) == Total(t) + |key| + 16
  {
    TotalWithout(t[key := Some(val)], key);
    TotalWithout(t[key := None], key);
    assert t[key := Some(val)] - {key} == t == t[key := None] - {key};
  }

  function SizeOf(rs: seq<Record>): nat {
    if rs == [] then 0 else RawSize(rs[0].key, ValueOf(rs[0])) + SizeOf(rs[1..])
  }

  lemma TotalGrowsAtMost(t: Table, key: Bytes, val: Option<Bytes>)
    ensures Total(t[key := val]) <= Total(t) + RawSize(key, val)
  {
    hide Total;
    TotalWithout(t[key := val], key);
    if key in t {
      TotalWithout(t, key);
      assert t[key := val] - {key} == t - {key};
    } else {
      assert t[key := val] - {key} == t;
    }
  }

  /** A memtable filled by replay has the size of its entries too. */
  lemma {:induction false} ReplayedSizeIsAccurate(s: Contents, rs: seq<Record>)
    requires Accurate(s) && Total(s.table) + SizeOf(rs) <= U64_MAX
    ensures Accurate(PutAll(s, rs))
    decreases |rs|
  {
    hide Total, Put;
    if rs != [] {
      var key, val := rs[0].key, ValueOf(rs[0]);
      TotalGrowsAtMost(s.table, key, val);
      PutKeepsAccurate(s, key, val);
      assert Put(s, key, val).table == s.table[key := val] by { PutTable(s, key, val); }
      ReplayedSizeIsAccurate(Put(s, key, val), rs[1..]);
    }
  }

  lemma PutTable(s: Contents, key: Bytes, val: Option<Bytes>)
    ensures Put(s, key, val).table == s.table[key := val]
  {
  }

  datatype Change = Assign(key: Bytes, val: Option<Bytes>) | Clear

  function ApplyChange(s: Contents, c: Change): Contents {
    match c
    case Assign(k, v) => Put(s, k, v)
    case Clear => EMPTY
  }

  /** Every table along the way has a size that fits in usize. */
  ghost predicate AllFit(s: Contents, cs: seq<Change>)
    decreases |cs|
  {
    cs == [] || (Total(ApplyChange(s, cs[0]).table) <= U64_MAX && AllFit(ApplyChange(s, cs[0]), cs[1..]))
  }

  function ApplyChanges(s: Contents, cs: seq<Change>): Contents
    decreases |cs|
  {
    if cs == [] then s else ApplyChanges(ApplyChange(s, cs[0]), cs[1..])
  }

  /** Through any sequence of sets, overwrites, deletes and clears the size stays the sum over the entries. */
  lemma {:induction false} SizeStaysAccurate(s: Contents, cs: seq<Change>)
    requires Accurate(s) && AllFit(s, cs)
    ensures Accurate(ApplyChanges(s, cs))
    decreases |cs|
  {
    if cs != [] {
      if cs[0].Assign? {
        PutKeepsAccurate(s, cs[0].key, cs[0].val);
      }
      SizeStaysAccurate(ApplyChange(s, cs[0]), cs[1..]);
    }
  }

  // ---------- the object ----------

  class Memtable {
    var table: Table
    var size: u64

    function State(): Contents
      reads this
    {
      Contents(table, size)
    }

    constructor ()
      ensures State() == EMPTY
    {
      table := map[];
      size := 0;
    }

    method Set(key: Bytes, val: Bytes)
      modifies this
      ensures State() == Put(old(State()), key, Some(val))
    {
      var newSize := EntrySize(key, Some(val));
      if key in table {
        size := SaturatingSub(size, EntrySize(key, table[key]));
      }
      table := table[key := Some(val)];
      size := SaturatingAdd(size, newSize);
    }

    method Delete(key: Bytes)
      modifies this
      ensures State() == Put(old(State()), key, None)
    {
      var newSize := EntrySize(key, None);
      if key in table {
        size := SaturatingSub(size, EntrySize(key, table[key]));
      }
      table := table[key := None];
      size := SaturatingAdd(size, newSize);
    }

    method Clear()
      modifies this
      ensures State() == EMPTY
    {
      table := map[];
      size := 0;
    }

    predicate IsOverThreshold(threshold: u64)
      reads this
    {
      size >= threshold
    }
  }
}
