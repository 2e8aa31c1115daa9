/** Segments stacked by generation: newer layers hide older ones. */
module Layers {
  import opened Bytes
  import opened Errors
  import opened Records
  import opened Tables
  import opened Segments
  import opened SegmentReaders

  // ---------- one segment as a table ----------

  /** The table a segment file holds; the empty table when it cannot be read. */
  function SegmentTable(file: Bytes): Table {
    match OpenSegment(file, 0)
    case Err(_) => map[]
    case Ok(rd) =>
      match ReadAllFrom(rd, HEADER_SIZE)
      case Err(_) => map[]
      case Ok(rs) => TableOf(rs)
  }

  /** A list of records that a segment may hold. */
  ghost predicate Storable(rs: seq<Record>) {
    AllWellFormed(rs) && Writable(rs)
  }

  ghost predicate GoodSegment(file: Bytes) {
    exists rs :: Storable(rs) && file == SegmentBytes(rs)
  }

  lemma TableOfWritten(rs: seq<Record>)
    requires Storable(rs)
    ensures SegmentTable(SegmentBytes(rs)) == TableOf(rs)
  {
    hide SegmentBytes, AllWellFormed, Writable, OpenSegment, ReadAllFrom, IndexOf;
    WrittenSegmentOpens(rs, 0);
    WrittenSegmentReadsBack(rs, 0);
  }

  lemma GoodSegmentOpens(file: Bytes, gen: u64) returns (rs: seq<Record>)
    requires GoodSegment(file)
    ensures Storable(rs) && file == SegmentBytes(rs)
    ensures OpenSegment(file, gen) == Ok(ReaderOf(rs, gen))
    ensures ReadAllFrom(ReaderOf(rs, gen), HEADER_SIZE) == Ok(rs)
    ensures SegmentTable(file) == TableOf(rs)
  {
    hide SegmentBytes, AllWellFormed, Writable, OpenSegment, ReadAllFrom, IndexOf, SegmentTable;
    rs :| Storable(rs) && file == SegmentBytes(rs);
    WrittenSegmentOpens(rs, gen);
    WrittenSegmentReadsBack(rs, gen);
    TableOfWritten(rs);
  }

  /** The records of a table can be stored when each was accepted by the log and the file is not too long. */
  ghost predicate TableFits(t: Table) {
    |SegmentBytes(Sorted(t))| <= U64_MAX
  }

  ghost predicate AllEncodable(t: Table) {
    forall k :: k in t ==> Encodable(RecordOf(k, t[k]))
  }

  lemma SortedIsStorable(t: Table)
    requires AllEncodable(t) && TableFits(t)
    ensures Storable(Sorted(t))
    ensures TableOf(Sorted(t)) == t
  {
    hide Encodable, RecordOf, Sorted, IndexBytes, Frames, Less;
    SortedHoldsEntries(t);
    SortedIsStrictlySorted(t);
    TableOfSorted(t);
  }

  // ---------- the newest generation ----------

  predicate IsNewest(gens: set<u64>, g: u64) {
    g in gens && forall h :: h in gens ==> h <= g
  }

  lemma {:induction false} NewestExists(gens: set<u64>)
    requires gens != {}
    ensures exists g :: IsNewest(gens, g)
    decreases |gens|
  {
    var g :| g in gens;
    var rest := gens - {g};
    if rest == {} {
      assert gens == {g};
      assert IsNewest(gens, g);
    } else {
      NewestExists(rest);
      var h :| IsNewest(rest, h);
      var newest := if g < h then h else g;
      assert forall k :: k in gens ==> k == g || k in rest;
      assert IsNewest(gens, newest);
    }
  }

  function Newest(gens: set<u64>): (g: u64)
    requires gens != {}
    ensures IsNewest(gens, g)
  {
    NewestExists(gens);
    var g :| IsNewest(gens, g);
    g
  }

  // ---------- the stack ----------

  /** All segments overlaid, oldest at the bottom. */
  function Layered(segments: map<u64, Bytes>): Table
    decreases |segments.Keys|
  {
    if segments == map[] then map[]
    else
      var g := Newest(segments.Keys);
      assert (segments - {g}).Keys == segments.Keys - {g};
      Layered(segments - {g}) + SegmentTable(segments[g])
  }

  /** A segment newer than all others goes on top. */
  lemma LayeredAddsNewest(segments: map<u64, Bytes>, g: u64, file: Bytes)
    requires forall h :: h in segments ==> h < g
    ensures Layered(segments[g := file]) == Layered(segments) + SegmentTable(file)
  {
    hide SegmentTable;
    var all := segments[g := file];
    assert g in all.Keys;
    assert Newest(all.Keys) == g;
    assert all - {g} == segments;
  }

  lemma LayeredOne(g: u64, file: Bytes)
    ensures Layered(map[g := file]) == SegmentTable(file)
  {
    hide SegmentTable, Newest;
    LayeredAddsNewest(map[], g, file);
    assert map[][g := file] == map[g := file];
    assert map[] + SegmentTable(file) == SegmentTable(file);
  }

  ghost predicate Reads(readers: seq<Reader>, g: u64) {
    exists i :: 0 <= i < |readers| && readers[i].gen == g
  }

  /** Readers of exactly these segments, newest first. */
  ghost predicate Loaded(readers: seq<Reader>, segments: map<u64, Bytes>) {
    && (forall i, j :: 0 <= i < j < |readers| ==> readers[i].gen > readers[j].gen)
    && (forall i :: 0 <= i < |readers| ==> IsReaderOf(readers[i], segments))
    && (forall g :: g in segments ==> Reads(readers, g))
  }

  predicate IsReaderOf(rd: Reader, segments: map<u64, Bytes>) {
    rd.gen in segments && OpenSegment(segments[rd.gen], rd.gen) == Ok(rd)
  }

  function ReadersTable(readers: seq<Reader>): Table {
    if readers == [] then map[] else ReadersTable(readers[1..]) + SegmentTable(readers[0].file)
  }

  lemma {:induction false} LoadedIsLayered(readers: seq<Reader>, segments: map<u64, Bytes>)
    requires Loaded(readers, segments)
    ensures ReadersTable(readers) == Layered(segments)
    decreases |readers|
  {
    hide SegmentTable, OpenSegment, Loaded, Layered;
    if readers == [] {
      LoadedNothing(segments);
    } else {
      var top := readers[0];
      var below := segments - {top.gen};
      LoadedRest(readers, segments);
      LoadedIsLayered(readers[1..], below);
      LayeredAddsNewest(below, top.gen, segments[top.gen]);
      assert below[top.gen := segments[top.gen]] == segments;
    }
  }

  lemma LoadedNothing(segments: map<u64, Bytes>)
    requires Loaded([], segments)
    ensures segments == map[] && Layered(segments) == map[]
  {
    hide OpenSegment, SegmentTable;
    assert forall g :: g !in segments;
  }

  /** Below the newest reader are the readers of the other segments. */
  lemma LoadedRest(readers: seq<Reader>, segments: map<u64, Bytes>)
    requires Loaded(readers, segments) && readers != []
    ensures var top := readers[0];
            && IsReaderOf(top, segments) && top.file == segments[top.gen]
            && Loaded(readers[1..], segments - {top.gen})
            && forall g :: g in segments - {top.gen} ==> g < top.gen
  {
    hide OpenSegment, IsReaderOf, Reads;
    var top, rest := readers[0], readers[1..];
    var below := segments - {top.gen};
    assert IsReaderOf(readers[0], segments);
    ReaderFile(top, segments);
    forall i | 0 <= i < |rest|
      ensures IsReaderOf(rest[i], below)
    {
      assert rest[i] == readers[i + 1] && IsReaderOf(readers[i + 1], segments);
      StillReads(readers[i + 1], segments, top.gen);
    }
    forall i, j | 0 <= i < j < |rest|
      ensures rest[i].gen > rest[j].gen
    {
      assert rest[i] == readers[i + 1] && rest[j] == readers[j + 1];
    }
    forall g | g in below
      ensures g < top.gen && Reads(rest, g)
    {
      assert Reads(readers, g);
      var i := ReadBy(readers, g);
      ReadsWith(rest, i - 1);
    }
  }

  lemma ReaderFile(rd: Reader, segments: map<u64, Bytes>)
    requires IsReaderOf(rd, segments)
    ensures rd.gen in segments && rd.file == segments[rd.gen]
  {
    hide OpenSegment;
  }

  lemma StillReads(rd: Reader, segments: map<u64, Bytes>, g: u64)
    requires IsReaderOf(rd, segments) && rd.gen != g
    ensures IsReaderOf(rd, segments - {g})
  {
    hide OpenSegment;
  }

  lemma ReadBy(readers: seq<Reader>, g: u64) returns (i: nat)
    requires Reads(readers, g)
    ensures i < |readers| && readers[i].gen == g
  {
    i :| 0 <= i < |readers| && readers[i].gen == g;
  }

  lemma ReadsWith(readers: seq<Reader>, i: nat)
    requires i < |readers|
    ensures Reads(readers, readers[i].gen)
  {
  }

  // ---------- live keys ----------

  /** `retain` of the live entries. */
  function WithoutTombstones(t: Table): Table {
    map k | k in t && t[k].Some? :: t[k]
  }

  /** Dropping the tombstones of the bottom layer changes no answer. */
  lemma TombstonesAtBottomDoNotMatter(bottom: Table, top: Table)
    ensures Live(WithoutTombstones(bottom) + top) == Live(bottom + top)
  {
  }
}
