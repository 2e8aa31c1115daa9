/** Merging all segments into one (`src/compaction.rs`). */
module Compactions {
  import opened Bytes
  import opened Errors
  import opened Records
  import opened Tables
  import opened Memtables
  import opened FileSystems
  import opened Segments
  import opened SegmentReaders
  import opened Layers
  import opened Markers
  import opened Protocol
  import opened CrashSafety
  import opened Runs

  datatype BuildStats = BuildStats(
    segmentsRead: nat,
    recordsBefore: u64,
    liveRecordsAfter: nat,
    bytesBefore: u64,
    bytesAfter: nat)

  // ---------- what the merge computes ----------

  function ReadSegment(segments: map<u64, Bytes>, gen: u64): Result<seq<Record>> {
    if gen !in segments then Err(Other("segment file is missing"))
    else
      match OpenSegment(segments[gen], gen)
      case Err(e) => Err(e)
      case Ok(rd) => ReadAllFrom(rd, HEADER_SIZE)
  }

  /** Inserting the records of the segments in the order given. */
  function MergeInto(t: Table, segments: map<u64, Bytes>, gens: seq<u64>): Result<Table>
    decreases |gens|
  {
    if gens == [] then Ok(t)
    else
      match ReadSegment(segments, gens[0])
      case Err(e) => Err(e)
      case Ok(rs) => MergeInto(Insert(t, rs), segments, gens[1..])
  }

  /** How many records the segments hold, counted without bound. */
  function RecordCount(segments: map<u64, Bytes>, gens: seq<u64>): nat {
    if gens == [] then 0
    else (if ReadSegment(segments, gens[0]).Ok? then |ReadSegment(segments, gens[0]).value| else 0)
         + RecordCount(segments, gens[1..])
  }

  /** How many bytes their files take. */
  function ByteCount(segments: map<u64, Bytes>, gens: seq<u64>): nat {
    if gens == [] then 0
    else (if gens[0] in segments then |segments[gens[0]]| else 0) + ByteCount(segments, gens[1..])
  }

  /** What `compact_all` reports: the counts of what it read saturate. */
  function BuildStatsOf(segments: map<u64, Bytes>, inputs: seq<u64>, live: Table): BuildStats {
    BuildStats(|inputs|, SaturatingAdd(0, RecordCount(segments, inputs)), |live|,
               SaturatingAdd(0, ByteCount(segments, inputs)), |SegmentBytes(Sorted(live))|)
  }

  method CompactAll(fs: FileSystem, inputs: seq<u64>, output: u64) returns (res: Result<BuildStats>)
    modifies fs
    ensures MergeInto(map[], old(fs.disk.segments), inputs).Err? ==> res.Err? && unchanged(fs)
    ensures MergeInto(map[], old(fs.disk.segments), inputs).Ok? ==>
              var live := WithoutTombstones(MergeInto(map[], old(fs.disk.segments), inputs).value);
              && (res.Ok? <==> Writable(Sorted(live)) && TableFits(live))
              && (res.Err? ==> PartlyBuilt(output, old(fs.Now()), fs.Now()))
              && (res.Ok? ==>
                    && fs.log == old(fs.log) + BuildPlan(output, SegmentBytes(Sorted(live)), old(fs.disk))
                    && fs.disk == old(fs.disk).(temps := old(fs.disk).temps[output := SegmentBytes(Sorted(live))])
                    && res.value == BuildStatsOf(old(fs.disk.segments), inputs, live))
  {
    hide Sorted, SegmentBytes, Writable, WithoutTombstones, ReadSegment, BuildPlan, MergeInto, RecordCount, ByteCount;
    var merged, recordsBefore, bytesBefore :- MergeInputs(fs, inputs);
    merged := WithoutTombstones(merged);
    var liveRecordsAfter := |merged|;
    var stats :- BuildSegment(fs, output, Sorted(merged));
    return Ok(BuildStats(|inputs|, recordsBefore, liveRecordsAfter, bytesBefore, stats.fileBytes));
  }

  /** The loop over the inputs, oldest first. */
  method MergeInputs(fs: FileSystem, inputs: seq<u64>)
    returns (res: Result<Table>, recordsBefore: u64, bytesBefore: u64)
    ensures res.Ok? <==> MergeInto(map[], fs.disk.segments, inputs).Ok?
    ensures res.Ok? ==> res == MergeInto(map[], fs.disk.segments, inputs)
    ensures res.Ok? ==> recordsBefore == SaturatingAdd(0, RecordCount(fs.disk.segments, inputs))
    ensures res.Ok? ==> bytesBefore == SaturatingAdd(0, ByteCount(fs.disk.segments, inputs))
  {
    hide ReadSegment, Insert;
    var segments := fs.disk.segments;
    var merged: Table := map[];
    recordsBefore := 0;
    bytesBefore := 0;
    assert inputs[0..] == inputs;
    for i := 0 to |inputs|
      invariant MergeInto(merged, segments, inputs[i..]) == MergeInto(map[], segments, inputs)
      invariant SaturatingAdd(recordsBefore, RecordCount(segments, inputs[i..]))
             == SaturatingAdd(0, RecordCount(segments, inputs))
      invariant SaturatingAdd(bytesBefore, ByteCount(segments, inputs[i..]))
             == SaturatingAdd(0, ByteCount(segments, inputs))
    {
      assert inputs[i..][0] == inputs[i] && inputs[i..][1..] == inputs[i + 1..];
      var read, size := ReadInput(fs, inputs[i]);
      if read.Err? {
        return Err(read.error), recordsBefore, bytesBefore;
      }
      bytesBefore := SaturatingAdd(bytesBefore, size);
      recordsBefore := SaturatingAdd(recordsBefore, |read.value|);
      merged := InsertAll(merged, read.value);
    }
    res := Ok(merged);
  }

  /** Writes the records as a new segment under its temporary name. */
  method BuildSegment(fs: FileSystem, gen: u64, rs: seq<Record>) returns (res: Result<WriteStats>)
    modifies fs
    ensures res.Ok? <==> Writable(rs) && |SegmentBytes(rs)| <= U64_MAX
    ensures res.Err? ==> PartlyBuilt(gen, old(fs.Now()), fs.Now())
    ensures res.Ok? ==>
              && fs.log == old(fs.log) + BuildPlan(gen, SegmentBytes(rs), old(fs.disk))
              && fs.disk == old(fs.disk).(temps := old(fs.disk).temps[gen := SegmentBytes(rs)])
              && res.value == WriteStats(|rs|, |SegmentBytes(rs)|, |IndexOf(rs)|)
  {
    hide SegmentBytes, Writable, Frames, IndexOf, IndexBytes, SegmentWriter.Valid;
    var t := TempSegment(gen);
    ghost var d := fs.disk;
    if Exists(fs.disk, t) {
      fs.Perform(Remove(t));
    }
    var writer := new SegmentWriter.Create(fs, t);
    assert [] + rs == rs;
    var added := writer.WriteAll(rs);
    if added.Err? {
      writer.Abandon();
      BuildEffects(gen, writer.buffer, d, fs.disk);
      return Err(added.error);
    }
    res := writer.Finish();
    BuildEffects(gen, writer.buffer, d, fs.disk);
  }

  /** Creating the temporary file and appending to it, one call at a time. */
  lemma BuildEffects(gen: u64, file: Bytes, d: Disk, d': Disk)
    requires var t := TempSegment(gen);
             d' == Apply(AppendTo(t, file), Apply(Create(t), if Exists(d, t) then Apply(Remove(t), d) else d))
    ensures d' == d.(temps := d.temps[gen := file])
  {
    assert [] + file == file;
    assert d.temps[gen := []][gen := file] == d.temps[gen := file];
  }

  /** `metadata`, `open` and `iter_all` of one input. */
  method ReadInput(fs: FileSystem, gen: u64) returns (res: Result<seq<Record>>, size: nat)
    ensures res == ReadSegment(fs.disk.segments, gen)
    ensures res.Ok? ==> gen in fs.disk.segments && size == |fs.disk.segments[gen]|
  {
    size := 0;
    if gen !in fs.disk.segments {
      return Err(Other("segment file is missing")), size;
    }
    size := |fs.disk.segments[gen]|;
    var rd := Open(fs.disk.segments[gen], gen);
    if rd.Err? {
      return Err(rd.error), size;
    }
    res := IterAll(rd.value);
  }

  /** The loop that inserts one segment's records into the map. */
  method InsertAll(t: Table, records: seq<Record>) returns (merged: Table)
    ensures merged == Insert(t, records)
  {
    merged := t;
    assert records[0..] == records;
    for i := 0 to |records|
      invariant Insert(merged, records[i..]) == Insert(t, records)
    {
      assert records[i..][1..] == records[i + 1..];
      match records[i].op {
        case Set => merged := merged[records[i].key := Some(records[i].val)];
        case Delete => merged := merged[records[i].key := None];
      }
    }
  }

  // ---------- what the merge means ----------

  function Reverse<T>(s: seq<T>): (r: seq<T>)
    ensures |r| == |s|
  {
    if s == [] then [] else Reverse(s[1..]) + [s[0]]
  }

  lemma {:induction false} MergeIntoConcat(t: Table, segments: map<u64, Bytes>, a: seq<u64>, b: seq<u64>)
    requires MergeInto(t, segments, a).Ok?
    ensures MergeInto(t, segments, a + b) == MergeInto(MergeInto(t, segments, a).value, segments, b)
    decreases |a|
  {
    hide ReadSegment, Insert;
    if a == [] {
      assert a + b == b;
    } else {
      assert (a + b)[1..] == a[1..] + b;
      MergeIntoConcat(Insert(t, ReadSegment(segments, a[0]).value), segments, a[1..], b);
    }
  }

  lemma ReadSegmentReads(rd: Reader, segments: map<u64, Bytes>, t: Table)
    requires IsReaderOf(rd, segments) && GoodSegment(segments[rd.gen])
    ensures MergeInto(t, segments, [rd.gen]) == Ok(t + SegmentTable(rd.file))
  {
    hide OpenSegment, ReadAllFrom, SegmentTable, SegmentBytes, Storable, Insert, IndexOf, IndexOffset, GoodSegment;
    var rs := GoodSegmentOpens(segments[rd.gen], rd.gen);
    InsertIsOverlay(t, rs);
    assert [rd.gen][1..] == [];
  }

  /** Inserting the segments oldest first overlays them newest on top. */
  lemma {:induction false} MergeIsOverlay(readers: seq<Reader>, segments: map<u64, Bytes>)
    requires SegmentsInv(segments) && forall i :: 0 <= i < |readers| ==> IsReaderOf(readers[i], segments)
    ensures MergeInto(map[], segments, Reverse(Generations(readers))) == Ok(ReadersTable(readers))
    decreases |readers|
  {
    hide ReadSegment, IsReaderOf, MergeInto, SegmentTable, GoodSegment;
    if readers == [] {
      MergeNothing(segments);
    } else {
      var top, rest := readers[0], readers[1..];
      assert IsReaderOf(readers[0], segments);
      MergeIsOverlay(rest, segments);
      assert Generations(readers)[1..] == Generations(rest);
      MergeIntoConcat(map[], segments, Reverse(Generations(rest)), [top.gen]);
      assert top.gen in segments by { ReaderHasFile(top, segments); }
      ReadSegmentReads(top, segments, ReadersTable(rest));
    }
  }

  lemma MergeNothing(segments: map<u64, Bytes>)
    ensures MergeInto(map[], segments, []) == Ok(map[])
  {
  }

  lemma ReaderHasFile(rd: Reader, segments: map<u64, Bytes>)
    requires IsReaderOf(rd, segments)
    ensures rd.gen in segments
  {
    hide OpenSegment;
  }

  /**
   * Overwriting oldest to newest and then dropping tombstones gives, for every key, the answer of the search
   * from the newest segment to the oldest that stops at the first hit.
   */
  lemma MergeAnswersLikeSearch(readers: seq<Reader>, segments: map<u64, Bytes>, key: Bytes)
    requires Loaded(readers, segments) && SegmentsInv(segments)
    ensures AllSane(readers)
    ensures var merged := MergeInto(map[], segments, Reverse(Generations(readers)));
            && merged.Ok?
            && var kept := WithoutTombstones(merged.value);
               Search(readers, key) == Ok(if key in kept then kept[key] else None)
  {
    hide OpenSegment, MergeInto, Search, GoodSegment, ReadersTable;
    LoadedAreSane(readers, segments);
    MergeIsOverlay(readers, segments);
    SearchIsOverlay(readers, segments, key);
  }

  /** A merge never leaves more live records than it read. */
  lemma {:induction false} MergeKeepsAtMost(t: Table, segments: map<u64, Bytes>, gens: seq<u64>)
    requires MergeInto(t, segments, gens).Ok?
    ensures |MergeInto(t, segments, gens).value| <= |t| + RecordCount(segments, gens)
    ensures |WithoutTombstones(MergeInto(t, segments, gens).value)| <= |t| + RecordCount(segments, gens)
    decreases |gens|
  {
    hide ReadSegment, Insert;
    var merged := MergeInto(t, segments, gens).value;
    if gens != [] {
      var rs := ReadSegment(segments, gens[0]).value;
      InsertAddsAtMost(t, rs);
      MergeKeepsAtMost(Insert(t, rs), segments, gens[1..]);
    }
    SubsetIsSmaller(WithoutTombstones(merged).Keys, merged.Keys);
  }

  lemma {:induction false} InsertAddsAtMost(t: Table, rs: seq<Record>)
    ensures |Insert(t, rs)| <= |t| + |rs|
    decreases |rs|
  {
    if rs != [] {
      var t1 := t[rs[0].key := ValueOf(rs[0])];
      assert t1.Keys == t.Keys + {rs[0].key};
      InsertAddsAtMost(t1, rs[1..]);
    }
  }

  lemma SubsetIsSmaller(a: set<Bytes>, b: set<Bytes>)
    requires a <= b
    ensures |a| <= |b|
  {
    assert b == a + (b - a);
  }

  // ---------- what a merge counts ----------

  /** The sum over all segments. */
  ghost function Sum(sizes: map<u64, nat>): nat
    decreases |sizes.Keys|
  {
    if sizes == map[] then 0
    else
      var g :| g in sizes;
      assert (sizes - {g}).Keys == sizes.Keys - {g};
      sizes[g] + Sum(sizes - {g})
  }

  lemma {:induction false} SumWithout(sizes: map<u64, nat>, g: u64)
    requires g in sizes
    ensures Sum(sizes) == sizes[g] + Sum(sizes - {g})
    decreases |sizes.Keys|
  {
    var h :| h in sizes && Sum(sizes) == sizes[h] + Sum(sizes - {h});
    if h != g {
      assert (sizes - {h}).Keys == sizes.Keys - {h};
      assert (sizes - {g}).Keys == sizes.Keys - {g};
      SumWithout(sizes - {h}, g);
      SumWithout(sizes - {g}, h);
      assert sizes - {h} - {g} == sizes - {g} - {h};
    }
  }

  function Lengths(segments: map<u64, Bytes>): map<u64, nat> {
    map g | g in segments :: |segments[g]|
  }

  /** Counting the bytes of all segments, in whatever order, adds up the lengths of the files. */
  lemma {:induction false} ByteCountIsSum(segments: map<u64, Bytes>, all: map<u64, Bytes>, gens: seq<u64>)
    requires Distinct(gens) && GenSet(gens) == segments.Keys
    requires forall g :: g in segments ==> g in all && all[g] == segments[g]
    ensures ByteCount(all, gens) == Sum(Lengths(segments))
    decreases |gens|
  {
    hide Sum;
    if gens == [] {
      assert segments == map[];
      SumOfNone();
    } else {
      var g, below := gens[0], segments - {gens[0]};
      FirstGeneration(gens);
      assert below.Keys == segments.Keys - {g};
      ByteCountIsSum(below, all, gens[1..]);
      SumWithout(Lengths(segments), g);
      assert Lengths(segments) - {g} == Lengths(below);
    }
  }

  lemma SumOfNone()
    ensures Sum(map[]) == 0
  {
  }

  lemma FirstGeneration(gens: seq<u64>)
    requires gens != [] && Distinct(gens)
    ensures gens[0] in GenSet(gens) && Distinct(gens[1..]) && GenSet(gens[1..]) == GenSet(gens) - {gens[0]}
  {
    assert forall g :: g in gens <==> g == gens[0] || g in gens[1..];
  }

  /** These segments hold these records. */
  ghost predicate Holds(segments: map<u64, Bytes>, lists: map<u64, seq<Record>>) {
    && lists.Keys == segments.Keys
    && forall g :: g in segments ==> Storable(lists[g]) && segments[g] == SegmentBytes(lists[g])
  }

  function Counts(lists: map<u64, seq<Record>>): map<u64, nat> {
    map g | g in lists :: |lists[g]|
  }

  /** Counting the records of all segments, in whatever order, adds up how many each of them holds. */
  lemma {:induction false} RecordCountIsSum(segments: map<u64, Bytes>, lists: map<u64, seq<Record>>,
                                            all: map<u64, Bytes>, gens: seq<u64>)
    requires Distinct(gens) && GenSet(gens) == segments.Keys && Holds(segments, lists)
    requires forall g :: g in segments ==> g in all && all[g] == segments[g]
    ensures RecordCount(all, gens) == Sum(Counts(lists))
    decreases |gens|
  {
    hide Sum, ReadSegment, Storable, SegmentBytes;
    if gens == [] {
      assert lists == map[];
      SumOfNone();
    } else {
      var g, below, rest := gens[0], segments - {gens[0]}, lists - {gens[0]};
      FirstGeneration(gens);
      assert below.Keys == segments.Keys - {g} == rest.Keys;
      RecordCountIsSum(below, rest, all, gens[1..]);
      SumWithout(Counts(lists), g);
      assert Counts(lists) - {g} == Counts(rest);
      StoredReadsBack(all, g, lists[g]);
    }
  }

  lemma StoredReadsBack(segments: map<u64, Bytes>, g: u64, rs: seq<Record>)
    requires g in segments && Storable(rs) && segments[g] == SegmentBytes(rs)
    ensures ReadSegment(segments, g) == Ok(rs)
  {
    hide OpenSegment, ReadAllFrom, SegmentBytes, IndexOf, IndexOffset, Writable, AllWellFormed;
    WrittenSegmentOpens(rs, g);
    WrittenSegmentReadsBack(rs, g);
  }

  lemma {:induction false} ReverseKeeps(gens: seq<u64>)
    ensures GenSet(Reverse(gens)) == GenSet(gens)
    ensures Distinct(gens) ==> Distinct(Reverse(gens))
    decreases |gens|
  {
    if gens != [] {
      ReverseKeeps(gens[1..]);
      assert GenSet(gens) == {gens[0]} + GenSet(gens[1..]);
      assert GenSet(Reverse(gens[1..]) + [gens[0]]) == GenSet(Reverse(gens[1..])) + {gens[0]};
      if Distinct(gens) {
        FirstGeneration(gens);
        assert gens[0] !in GenSet(Reverse(gens[1..]));
        forall i | 0 <= i < |gens| - 1
          ensures Reverse(gens[1..])[i] != gens[0]
        {
          assert Reverse(gens[1..])[i] in GenSet(Reverse(gens[1..]));
        }
      }
    }
  }
}
