/** Every plan of the store is crash-safe, and ends where the process believes it ends. */
module CrashSafety {
  import opened Bytes
  import opened Errors
  import opened Records
  import opened Tables
  import opened Memtables
  import opened FileSystems
  import opened Wal
  import opened Segments
  import opened SegmentReaders
  import opened Layers
  import opened Markers
  import opened Protocol

  // ---------- the log ----------

  /** A log with nothing to cut is the encoding of its records. */
  lemma CleanLog(wal: Bytes)
    requires Scan(wal).Ok? && Scan(wal).value.1 == |wal|
    ensures wal == Frames(Scan(wal).value.0) && AllWellFormed(Scan(wal).value.0)
  {
    hide Scan, Frames, WellFormed, Decode;
    ScanIsSound(wal);
    assert wal[..|wal|] == wal;
  }

  /** What was replayed from the log can be encoded again. */
  lemma LogIsEncodable(wal: Bytes)
    requires Scan(wal).Ok?
    ensures AllEncodable(WalTable(wal))
  {
    hide Scan, Frames, WellFormed, Decode, TableOf;
    ScanIsSound(wal);
    TableIsEncodable(Scan(wal).value.0);
  }

  lemma {:induction false} TableIsEncodable(rs: seq<Record>)
    requires AllWellFormed(rs)
    ensures AllEncodable(TableOf(rs))
    decreases |rs|
  {
    hide Encodable;
    if rs != [] {
      var n := |rs| - 1;
      var last := rs[n];
      assert rs == rs[..n] + [last];
      assert last in rs;
      TableIsEncodable(rs[..n]);
      InsertConcat(map[], rs[..n], [last]);
      InsertOne(TableOf(rs[..n]), last);
      RecordOfItself(last);
    }
  }

  lemma InsertOne(t: Table, r: Record)
    ensures Insert(t, [r]) == t[r.key := ValueOf(r)]
  {
    assert [r][1..] == [];
  }

  lemma RecordOfItself(r: Record)
    requires WellFormed(r)
    ensures RecordOf(r.key, ValueOf(r)) == r
  {
  }

  /** The log after a complete append. */
  lemma AppendedLog(wal: Bytes, r: Record)
    requires Scan(wal).Ok? && Scan(wal).value.1 == |wal| && WellFormed(r)
    ensures Scan(wal + Frame(r)) == Ok((Scan(wal).value.0 + [r], |wal + Frame(r)|))
    ensures WalTable(wal + Frame(r)) == WalTable(wal)[r.key := ValueOf(r)]
  {
    hide Scan, Frame, WellFormed, Decode, Insert;
    var rs := Scan(wal).value.0;
    FramesAppend([], r);
    assert [] + [r] == [r] && Frames([]) + Frame(r) == Frame(r);
    assert wal[..|wal|] == wal;
    ReplayAfterCut(wal, [r]);
    InsertConcat(map[], rs, [r]);
    InsertOne(TableOf(rs), r);
  }

  /** The log after an append that the crash cut short. */
  lemma TornLog(wal: Bytes, r: Record, k: nat)
    requires Scan(wal).Ok? && Scan(wal).value.1 == |wal| && Encodable(r) && k < |Frame(r)|
    ensures Scan(wal + Frame(r)[..k]) == Ok((Scan(wal).value.0, |wal|))
    ensures WalTable(wal + Frame(r)[..k]) == WalTable(wal)
  {
    hide Scan, Frame, Encodable, Decode, TableOf, AllWellFormed;
    CleanLog(wal);
    TornAppendIsCut(Scan(wal).value.0, r, k);
  }

  lemma CutLog(wal: Bytes)
    requires Scan(wal).Ok?
    ensures var n := Scan(wal).value.1;
            Scan(wal[..n]) == Ok((Scan(wal).value.0, n)) && WalTable(wal[..n]) == WalTable(wal)
  {
    hide Scan, TableOf;
    var (rs, n) := Scan(wal).value;
    ReplayAfterCut(wal, []);
    assert wal[..n] + Frames([]) == wal[..n] && rs + [] == rs;
  }

  lemma EmptyLog()
    ensures Scan([]) == Ok(([], 0)) && WalTable([]) == map[]
  {
  }

  // ---------- appending ----------

  lemma LiveAfterPut(t: Table, key: Bytes, val: Option<Bytes>)
    ensures Live(t[key := val]) == if val.Some? then Live(t)[key := val.value] else Live(t) - {key}
  {
  }

  lemma OverlayPut(bottom: Table, top: Table, key: Bytes, val: Option<Bytes>)
    ensures bottom + top[key := val] == (bottom + top)[key := val]
  {
  }

  /** The map after one more record is logged. */
  function WithRecord(view: View, r: Record): View {
    match ValueOf(r)
    case Some(x) => view[r.key := x]
    case None => view - {r.key}
  }

  /** A crash in an append leaves the old map or the new one. */
  lemma AppendIsSafe(d: Disk, r: Record)
    requires DiskInv(d) && Scan(d.wal).value.1 == |d.wal| && WellFormed(r)
    ensures CrashSafe([WalAppend(Frame(r))], d, {Logical(d), WithRecord(Logical(d), r)})
    ensures DiskInv(LoggedDisk(d, r))
    ensures Logical(LoggedDisk(d, r)) == WithRecord(Logical(d), r)
    ensures Scan(LoggedDisk(d, r).wal).value.1 == |LoggedDisk(d, r).wal|
    ensures WalTable(LoggedDisk(d, r).wal) == WalTable(d.wal)[r.key := ValueOf(r)]
  {
    hide Scan, Frame, Decode, Layered, WalTable, ParseMarker, SegmentsInv, InTransaction, GenStep, Live, ValueOf;
    var f := Frame(r);
    var views := {Logical(d), WithRecord(Logical(d), r)};
    AppendedLog(d.wal, r);
    OverlayPut(Layered(Surviving(d)), WalTable(d.wal), r.key, ValueOf(r));
    LiveAfterPut(Layered(Surviving(d)) + WalTable(d.wal), r.key, ValueOf(r));
    forall d' | CrashState([WalAppend(f)], d, d')
      ensures Fine(d, d', views)
    {
      GenStepRefl(d.segments);
      var k := AppendLeavesPrefix(d, f, d');
      if k == |f| {
        assert f[..k] == f;
      } else {
        TornLog(d.wal, r, k);
      }
    }
    CrashSafeFirst(WalAppend(f), d, views);
  }

  /** What a crash in an append leaves is a prefix of the bytes, nothing and everything included. */
  lemma AppendLeavesPrefix(d: Disk, f: Bytes, d': Disk) returns (k: nat)
    requires CrashState([WalAppend(f)], d, d')
    ensures k <= |f| && d' == d.(wal := d.wal + f[..k])
  {
    var e := WalAppend(f);
    assert f[..0] == [] && f[..|f|] == f && d.wal + [] == d.wal;
    assert CrashState([e][1..], Apply(e, d), d') ==> d' == Apply(e, d);
    if d' == d {
      k := 0;
    } else if d' == Apply(e, d) {
      k := |f|;
    } else {
      assert Torn(e, d, d');
      k :| 0 <= k <= |f| && d' == Apply(WalAppend(f[..k]), d);
    }
  }

  // ---------- building a temporary segment ----------

  lemma RemoveIfThereIsQuiet(f: File, d: Disk)
    requires Temporary(f)
    ensures AllQuiet(RemoveIfThere(f, d))
    ensures Run(RemoveIfThere(f, d), d) == Apply(Remove(f), d)
  {
    if Exists(d, f) {
      RunOne(Remove(f), d);
    } else if f.TempSegment? {
      assert d.temps - {f.gen} == d.temps;
    }
  }

  lemma BuildEnds(gen: u64, file: Bytes, d: Disk)
    ensures AllQuiet(BuildPlan(gen, file, d))
    ensures Run(BuildPlan(gen, file, d), d) == d.(temps := d.temps[gen := file])
  {
    hide RemoveIfThere, Run, Apply;
    var t := TempSegment(gen);
    RemoveIfThereIsQuiet(t, d);
    RunConcat(RemoveIfThere(t, d), [Create(t), AppendTo(t, file)], d);
    RunTwo(Create(t), AppendTo(t, file), Apply(Remove(t), d));
    WriteTemp(gen, file, d);
  }

  lemma WriteTemp(gen: u64, file: Bytes, d: Disk)
    ensures var t := TempSegment(gen);
            Apply(AppendTo(t, file), Apply(Create(t), Apply(Remove(t), d))) == d.(temps := d.temps[gen := file])
  {
    assert [] + file == file;
    assert (d.temps - {gen})[gen := []][gen := file] == d.temps[gen := file];
  }

  lemma RunTwo(a: Effect, b: Effect, d: Disk)
    ensures Run([a, b], d) == Apply(b, Apply(a, d))
  {
    hide Apply;
    assert [a, b] == [a] + [b];
    RunConcat([a], [b], d);
    RunOne(a, d);
    RunOne(b, Apply(a, d));
  }

  // ---------- installing ----------

  /** Installing a segment that holds the replayed log changes nothing: the log shadows it. */
  lemma InstallIsSafe(d: Disk, gen: u64, rs: seq<Record>)
    requires DiskInv(d) && d.marker.None? && Above(gen, d.segments)
    requires Storable(rs) && TableOf(rs) == WalTable(d.wal)
    requires gen in d.temps && d.temps[gen] == SegmentBytes(rs)
    ensures var d1 := Apply(Install(gen), d);
            && CrashSafe([Install(gen)], d, {Logical(d)})
            && d1 == d.(segments := d.segments[gen := SegmentBytes(rs)], temps := d.temps - {gen})
            && DiskInv(d1) && Logical(d1) == Logical(d)
  {
    hide Scan, SegmentBytes, Layered, WalTable, TableOf, Storable, GoodSegment, Live;
    var file := SegmentBytes(rs);
    var d1 := Apply(Install(gen), d);
    assert GoodSegment(file) by { StorableIsGood(rs); }
    TableOfWritten(rs);
    LayeredAddsNewest(d.segments, gen, file);
    Shadowed(Layered(d.segments), WalTable(d.wal));
    InstallIsGenStep(d.segments, gen, file);
    CrashSafeOne(Install(gen), d, {Logical(d)});
  }

  lemma StorableIsGood(rs: seq<Record>)
    requires Storable(rs)
    ensures GoodSegment(SegmentBytes(rs))
  {
    hide SegmentBytes, Storable;
  }

  lemma Shadowed(a: Table, b: Table)
    ensures a + b + b == a + b
    ensures a + b + map[] == a + b
  {
  }

  lemma InstallIsGenStep(segments: map<u64, Bytes>, gen: u64, file: Bytes)
    requires Above(gen, segments)
    ensures GenStep(segments, segments[gen := file])
  {
    forall h | h in segments
      ensures ReachedBy(h, segments[gen := file])
    {
      assert h in segments[gen := file];
    }
  }

  /** Once the segment is installed the log may be emptied. */
  lemma TruncateIsSafe(d: Disk, before: map<u64, Bytes>, gen: u64, rs: seq<Record>)
    requires DiskInv(d) && d.marker.None? && Above(gen, before)
    requires Storable(rs) && TableOf(rs) == WalTable(d.wal)
    requires d.segments == before[gen := SegmentBytes(rs)]
    ensures var d2 := Apply(WalSetLen(0), d);
            && CrashSafe([WalSetLen(0)], d, {Logical(d)})
            && d2 == d.(wal := []) && DiskInv(d2) && Logical(d2) == Logical(d)
  {
    hide Scan, SegmentBytes, Layered, WalTable, TableOf, Storable, SegmentsInv, Live;
    EmptyLog();
    TableOfWritten(rs);
    LayeredAddsNewest(before, gen, SegmentBytes(rs));
    Shadowed(Layered(before), WalTable(d.wal));
    assert d.wal[..0] == [];
    GenStepRefl(d.segments);
    CrashSafeOne(WalSetLen(0), d, {Logical(d)});
  }

  // ---------- flushing ----------

  lemma FlushRecordsAreStorable(v: Volatile, d: Disk)
    requires Idle(v, d) && TableFits(v.mem.table)
    ensures Storable(Sorted(v.mem.table)) && TableOf(Sorted(v.mem.table)) == WalTable(d.wal)
  {
    hide Scan, Sorted, TableOf, Storable, WalTable, Loaded, AllEncodable, TableFits;
    LogIsEncodable(d.wal);
    SortedIsStorable(v.mem.table);
  }

  lemma FlushPlanEnds(v: Volatile, d: Disk)
    ensures Run(FlushPlan(v, d), d) == FlushedDisk(v, d)
  {
    hide FlushFile, Run, BuildPlan;
    var g, file := v.next, FlushFile(v);
    var build := BuildPlan(g, file, d);
    BuildEnds(g, file, d);
    var d1 := d.(temps := d.temps[g := file]);
    RunConcat(build, [Install(g)], d);
    RunOne(Install(g), d1);
    assert d.temps[g := file] - {g} == d.temps - {g};
    if g < U64_MAX {
      RunConcat(build + [Install(g)], [WalSetLen(0)], d);
      RunOne(WalSetLen(0), Apply(Install(g), d1));
      assert d.wal[..0] == [];
    } else {
      assert build + [Install(g)] + [] == build + [Install(g)];
    }
  }

  /** A crash anywhere in a flush leaves the same map. */
  lemma FlushIsSafe(v: Volatile, d: Disk)
    requires Idle(v, d) && TableFits(v.mem.table)
    ensures CrashSafe(FlushPlan(v, d), d, {Logical(d)})
    ensures v.next < U64_MAX ==>
              && Run(FlushPlan(v, d), d) == FlushedDisk(v, d)
              && DiskInv(FlushedDisk(v, d)) && Logical(FlushedDisk(v, d)) == Logical(d)
  {
    hide DiskInv, Logical, Sorted, SegmentBytes, WalTable, Loaded, TableFits, Storable, TableOf, CrashSafe, Run,
      BuildPlan;
    var g, rs := v.next, Sorted(v.mem.table);
    var build := BuildPlan(g, FlushFile(v), d);
    FlushRecordsAreStorable(v, d);
    BuildEnds(g, FlushFile(v), d);
    CrashSafeQuiet(build, d);
    var d1 := Run(build, d);
    SameCoreSameMeaning(d, d1);
    InstallIsSafe(d1, g, rs);
    var d2 := Apply(Install(g), d1);
    RunOne(Install(g), d1);
    CrashSafeConcat(build, [Install(g)], d, {Logical(d)});
    RunConcat(build, [Install(g)], d);
    if g < U64_MAX {
      TruncateIsSafe(d2, d.segments, g, rs);
      CrashSafeConcat(build + [Install(g)], [WalSetLen(0)], d, {Logical(d)});
      RunConcat(build + [Install(g)], [WalSetLen(0)], d);
      RunOne(WalSetLen(0), d2);
      assert d.temps[g := FlushFile(v)] - {g} == d.temps - {g};
    } else {
      assert build + [Install(g)] + [] == build + [Install(g)];
    }
  }

  /** The reader of a segment just installed. */
  lemma LoadedAddsNewest(readers: seq<Reader>, segments: map<u64, Bytes>, rs: seq<Record>, gen: u64)
    requires Loaded(readers, segments) && Above(gen, segments) && Writable(rs)
    ensures Loaded([ReaderOf(rs, gen)] + readers, segments[gen := SegmentBytes(rs)])
  {
    hide Writable, SegmentBytes, OpenSegment, IndexOf, IndexOffset;
    var rd := ReaderOf(rs, gen);
    var all, files := [rd] + readers, segments[gen := SegmentBytes(rs)];
    WrittenSegmentOpens(rs, gen);
    forall i | 0 <= i < |all|
      ensures IsReaderOf(all[i], files)
    {
      if i > 0 {
        assert IsReaderOf(readers[i - 1], segments);
      }
    }
    forall i, j | 0 <= i < j < |all|
      ensures all[i].gen > all[j].gen
    {
      assert IsReaderOf(readers[j - 1], segments);
    }
    forall g | g in files
      ensures Reads(all, g)
    {
      if g == gen {
        assert all[0].gen == g;
      } else {
        assert Reads(readers, g);
        var i :| 0 <= i < |readers| && readers[i].gen == g;
        assert all[i + 1].gen == g;
      }
    }
  }

  /** After a flush the process is between operations again. */
  lemma FlushedIsIdle(v: Volatile, d: Disk)
    requires Idle(v, d) && TableFits(v.mem.table) && v.next < U64_MAX
    ensures Idle(FlushedVolatile(v), FlushedDisk(v, d))
  {
    hide DiskInv, Logical, Sorted, SegmentBytes, WalTable, Loaded, TableFits, TableOf, CrashSafe, Writable, Scan,
      AllWellFormed, IndexOf, IndexOffset;
    FlushIsSafe(v, d);
    FlushRecordsAreStorable(v, d);
    LoadedAddsNewest(v.readers, d.segments, Sorted(v.mem.table), v.next);
    EmptyLog();
    assert d.temps - {v.next} == map[];
  }

  // ---------- compaction: the transaction ----------

  lemma SurvivingWithMarker(d: Disk, m: CompactionMarker)
    requires d.marker == Some(MarkerBytes(m)) && WellFormedMarker(m)
    ensures ParseMarker(d.marker.value) == Ok(m)
    ensures Surviving(d) == if m.output in d.segments then d.segments - GenSet(m.olds) else d.segments
  {
    hide MarkerBytes, ParseMarker;
    MarkerReadsBack(m);
  }

  /** Putting the marker in place changes nothing yet. */
  lemma MarkIsSafe(d: Disk, m: CompactionMarker)
    requires DiskInv(d) && d.marker.None? && WellFormedMarker(m) && Above(m.output, d.segments)
    requires d.segments.Keys == GenSet(m.olds)
    requires d.tempMarker == Some(MarkerBytes(m))
    ensures var d1 := d.(marker := Some(MarkerBytes(m)), tempMarker := None);
            && Apply(Rename(TempMarker, Marker), d) == d1
            && CrashSafe([Rename(TempMarker, Marker)], d, {Logical(d)})
            && DiskInv(d1) && Logical(d1) == Logical(d)
  {
    hide MarkerBytes, ParseMarker, WellFormedMarker, Scan, Layered, WalTable, SegmentsInv, GenSet, GenStep;
    var d1 := d.(marker := Some(MarkerBytes(m)), tempMarker := None);
    SurvivingWithMarker(d1, m);
    GenStepRefl(d.segments);
    CrashSafeOne(Rename(TempMarker, Marker), d, {Logical(d)});
  }

  /** Installing the output replaces all old segments at once: the merged live records answer as the stack did. */
  lemma SwitchIsSafe(d: Disk, m: CompactionMarker, rs: seq<Record>)
    requires DiskInv(d) && d.marker == Some(MarkerBytes(m)) && WellFormedMarker(m) && Above(m.output, d.segments)
    requires d.segments.Keys == GenSet(m.olds)
    requires Storable(rs) && TableOf(rs) == WithoutTombstones(Layered(d.segments))
    requires m.output in d.temps && d.temps[m.output] == SegmentBytes(rs)
    ensures var d1 := d.(segments := d.segments[m.output := SegmentBytes(rs)], temps := d.temps - {m.output});
            && Apply(Install(m.output), d) == d1
            && CrashSafe([Install(m.output)], d, {Logical(d)})
            && DiskInv(d1) && Logical(d1) == Logical(d)
  {
    hide MarkerBytes, ParseMarker, WellFormedMarker, Scan, Layered, WalTable, GoodSegment, SegmentBytes, Storable,
      TableOf, WithoutTombstones, Live, GenStep;
    var g, file := m.output, SegmentBytes(rs);
    var d1 := d.(segments := d.segments[g := file], temps := d.temps - {g});
    SurvivingWithMarker(d, m);
    SurvivingWithMarker(d1, m);
    assert d.segments[g := file] - GenSet(m.olds) == map[g := file];
    LayeredOne(g, file);
    TableOfWritten(rs);
    TombstonesAtBottomDoNotMatter(Layered(d.segments), WalTable(d.wal));
    StorableIsGood(rs);
    InstallIsGenStep(d.segments, g, file);
    CrashSafeOne(Install(g), d, {Logical(d)});
  }

  /** With marker and output in place, the old segments may go in any order. */
  lemma {:induction false} RemovalIsSafe(gens: seq<u64>, d: Disk, m: CompactionMarker)
    requires DiskInv(d) && d.marker.Some? && ParseMarker(d.marker.value) == Ok(m)
    requires m.output in d.segments && forall g :: g in gens ==> g in m.olds
    ensures var d1 := d.(segments := d.segments - GenSet(gens));
            && Run(RemoveSegments(gens), d) == d1
            && CrashSafe(RemoveSegments(gens), d, {Logical(d)})
            && DiskInv(d1) && Logical(d1) == Logical(d) && m.output in d1.segments
    decreases |gens|
  {
    hide ParseMarker, Scan, Layered, WalTable, GoodSegment, Live, GenStep, CrashSafe, Logical, DiskInv;
    if gens == [] {
      assert d.segments - GenSet([]) == d.segments;
      CrashSafeNothing(d, {Logical(d)});
    } else {
      var g, rest := gens[0], gens[1..];
      var d1 := d.(segments := d.segments - {g});
      RemoveOneIsSafe(g, d, m);
      RemovalIsSafe(rest, d1, m);
      assert RemoveSegments(gens) == [Remove(Segment(g))] + RemoveSegments(rest);
      RunOne(Remove(Segment(g)), d);
      RunConcat([Remove(Segment(g))], RemoveSegments(rest), d);
      CrashSafeConcat([Remove(Segment(g))], RemoveSegments(rest), d, {Logical(d)});
      assert GenSet(gens) == {g} + GenSet(rest);
      assert d.segments - GenSet(gens) == d.segments - {g} - GenSet(rest);
    }
  }

  lemma OlderThanOutput(m: CompactionMarker, contents: Bytes, g: u64)
    requires ParseMarker(contents) == Ok(m) && g in m.olds
    ensures g < m.output
  {
    hide ParseMarker;
    AcceptedMarkersAreWellFormed(contents);
  }

  lemma RemoveOneIsSafe(g: u64, d: Disk, m: CompactionMarker)
    requires DiskInv(d) && d.marker.Some? && ParseMarker(d.marker.value) == Ok(m)
    requires m.output in d.segments && g in m.olds
    ensures var d1 := d.(segments := d.segments - {g});
            && Apply(Remove(Segment(g)), d) == d1
            && CrashSafe([Remove(Segment(g))], d, {Logical(d)})
            && DiskInv(d1) && Logical(d1) == Logical(d) && m.output in d1.segments
  {
    hide ParseMarker, Scan, Layered, WalTable, GoodSegment, Live, GenStep;
    var d1 := d.(segments := d.segments - {g});
    OlderThanOutput(m, d.marker.value, g);
    assert d1.segments - GenSet(m.olds) == d.segments - GenSet(m.olds);
    RemoveIsGenStep(d.segments, g, m.output);
    CrashSafeOne(Remove(Segment(g)), d, {Logical(d)});
  }

  /** Removing a generation below another that stays is a generation step. */
  lemma RemoveIsGenStep(segments: map<u64, Bytes>, g: u64, kept: u64)
    requires kept in segments && g < kept
    ensures GenStep(segments, segments - {g})
  {
    var after := segments - {g};
    forall h | h in segments
      ensures ReachedBy(h, after)
    {
      assert kept in after && (h in after || h <= kept);
    }
  }

  /** The marker may go once the segments on disk are exactly the surviving ones. */
  lemma UnmarkIsSafe(d: Disk)
    requires DiskInv(d) && Surviving(d) == d.segments
    ensures var d1 := d.(marker := None);
            && Apply(Remove(Marker), d) == d1
            && CrashSafe([Remove(Marker)], d, {Logical(d)})
            && DiskInv(d1) && Logical(d1) == Logical(d)
  {
    hide Scan, Layered, WalTable, SegmentsInv, Live, GenStep;
    GenStepRefl(d.segments);
    CrashSafeOne(Remove(Marker), d, {Logical(d)});
  }

  // ---------- compaction: the whole plan ----------

  lemma {:induction false} OldLineWritesAreQuiet(olds: seq<u64>)
    ensures AllQuiet(OldLineWrites(olds))
  {
    hide OldLine, ToBytes;
    if olds != [] {
      OldLineWritesAreQuiet(olds[1..]);
    }
  }

  lemma OldLinesSplit(olds: seq<u64>)
    requires olds != []
    ensures var write := AppendTo(TempMarker, ToBytes(OldLine(olds[0])));
            && OldLineWrites(olds) == [write] + OldLineWrites(olds[1..])
            && OldLineWrites(olds)[0] == write && OldLineWrites(olds)[1..] == OldLineWrites(olds[1..])
    ensures ToBytes(OldLines(olds)) == ToBytes(OldLine(olds[0])) + ToBytes(OldLines(olds[1..]))
  {
    hide OldLine, ToBytes;
    ToBytesConcat(OldLine(olds[0]), OldLines(olds[1..]));
  }

  lemma {:induction false} OldLineWritesEnd(olds: seq<u64>, d: Disk)
    requires d.tempMarker.Some?
    ensures Run(OldLineWrites(olds), d) == d.(tempMarker := Some(d.tempMarker.value + ToBytes(OldLines(olds))))
    decreases |olds|
  {
    hide OldLine, ToBytes, OldLines, OldLineWrites;
    NoOldLines();
    if olds == [] {
      assert d.tempMarker.value + [] == d.tempMarker.value;
    } else {
      var line, rest := ToBytes(OldLine(olds[0])), olds[1..];
      var d1 := d.(tempMarker := Some(d.tempMarker.value + line));
      OldLinesSplit(olds);
      OldLineWritesEnd(rest, d1);
      assert d.tempMarker.value + line + ToBytes(OldLines(rest)) == d.tempMarker.value + ToBytes(OldLines(olds));
    }
  }

  lemma MarkerWritesEnd(m: CompactionMarker, d: Disk)
    ensures AllQuiet(MarkerWrites(m, d))
    ensures Run(MarkerWrites(m, d), d) == d.(tempMarker := Some(MarkerBytes(m)))
  {
    hide ToBytes, OldLines, OldLine, OutputLine, MagicLine, MarkerBytes, OldLineWrites, RemoveIfThere, Run;
    var a, b := ToBytes(MagicLine()), ToBytes(OutputLine(m.output));
    var head := RemoveIfThere(TempMarker, d);
    var mid := [Create(TempMarker), AppendTo(TempMarker, a), AppendTo(TempMarker, b)];
    var d0, d1 := d.(tempMarker := None), d.(tempMarker := Some(a + b));
    OldLineWritesAreQuiet(m.olds);
    RemoveIfThereIsQuiet(TempMarker, d);
    RunTwo(Create(TempMarker), AppendTo(TempMarker, a), d0);
    RunConcat([Create(TempMarker), AppendTo(TempMarker, a)], [AppendTo(TempMarker, b)], d0);
    assert mid == [Create(TempMarker), AppendTo(TempMarker, a)] + [AppendTo(TempMarker, b)];
    assert [] + a == a;
    RunOne(AppendTo(TempMarker, b), d.(tempMarker := Some(a)));
    RunConcat(head, mid, d);
    RunConcat(head + mid, OldLineWrites(m.olds), d);
    OldLineWritesEnd(m.olds, d1);
    MarkerInPieces(m);
  }

  lemma CompactionIsWellFormed(v: Volatile, d: Disk)
    requires Loaded(v.readers, d.segments) && Above(v.next, d.segments) && |v.readers| >= 2
    ensures WellFormedMarker(CompactionOf(v)) && GenSet(Generations(v.readers)) == d.segments.Keys
    ensures forall i, j :: 0 <= i < j < |v.readers| ==> CompactionOf(v).olds[i] > CompactionOf(v).olds[j]
  {
    hide OpenSegment;
    var gens := Generations(v.readers);
    forall i | 0 <= i < |gens|
      ensures gens[i] in d.segments
    {
      assert IsReaderOf(v.readers[i], d.segments);
    }
    forall g | g in d.segments
      ensures g in gens
    {
      assert Reads(v.readers, g);
      var i :| 0 <= i < |v.readers| && v.readers[i].gen == g;
      assert gens[i] == g;
    }
  }

  lemma MergedRecordsAreStorable(v: Volatile, d: Disk)
    requires Loaded(v.readers, d.segments) && SegmentsInv(d.segments)
    requires TableFits(WithoutTombstones(ReadersTable(v.readers)))
    ensures Storable(MergedRecords(v)) && TableOf(MergedRecords(v)) == WithoutTombstones(Layered(d.segments))
  {
    hide Sorted, TableOf, Storable, TableFits, Loaded, Layered, ReadersTable, AllEncodable, WithoutTombstones;
    LoadedIsLayered(v.readers, d.segments);
    LayeredIsEncodable(d.segments);
    LiveIsEncodable(Layered(d.segments));
    SortedIsStorable(WithoutTombstones(ReadersTable(v.readers)));
  }

  lemma LiveIsEncodable(t: Table)
    requires AllEncodable(t)
    ensures AllEncodable(WithoutTombstones(t))
  {
    hide Encodable;
  }

  lemma {:induction false} LayeredIsEncodable(segments: map<u64, Bytes>)
    requires SegmentsInv(segments)
    ensures AllEncodable(Layered(segments))
    decreases |segments.Keys|
  {
    hide GoodSegment, SegmentTable, Encodable, Newest;
    if segments != map[] {
      var g := Newest(segments.Keys);
      var below := segments - {g};
      assert below.Keys == segments.Keys - {g};
      LayeredIsEncodable(below);
      GoodSegmentIsEncodable(segments[g]);
    }
  }

  lemma GoodSegmentIsEncodable(file: Bytes)
    requires GoodSegment(file)
    ensures AllEncodable(SegmentTable(file))
  {
    hide SegmentTable, TableOf, OpenSegment, ReadAllFrom, SegmentBytes, WellFormed, GoodSegment, IndexOf, IndexOffset;
    var rs := GoodSegmentOpens(file, 0);
    TableIsEncodable(rs);
  }

  /** A crash anywhere in the replacement of the segments leaves the same map. */
  lemma MergeIsSafe(v: Volatile, d: Disk)
    requires Idle(v, d) && |v.readers| >= 2
    requires TableFits(WithoutTombstones(ReadersTable(v.readers)))
    ensures CrashSafe(MergePlan(v, d), d, {Logical(d)})
    ensures v.next < U64_MAX ==>
              && Run(MergePlan(v, d), d) == MergedDisk(v, d)
              && DiskInv(MergedDisk(v, d)) && Logical(MergedDisk(v, d)) == Logical(d)
  {
    hide DiskInv, Logical, MergedRecords, SegmentBytes, WalTable, Loaded, TableFits, Storable, TableOf, CrashSafe,
      Run, BuildPlan,
      MarkerWrites, MarkerBytes, ParseMarker, WellFormedMarker, WithoutTombstones, Layered, ReadersTable, Scan,
      RemoveSegments, Generations, GenSet;
    var views := {Logical(d)};
    var g, rs, m := v.next, MergedRecords(v), CompactionOf(v);
    var file := SegmentBytes(rs);
    assert SegmentsInv(d.segments) && Loaded(v.readers, d.segments) by { IdleParts(v, d); }
    CompactionIsWellFormed(v, d);
    MergedRecordsAreStorable(v, d);
    // build and write the temporary marker
    var build := BuildPlan(g, file, d);
    BuildEnds(g, file, d);
    var d1 := d.(temps := d.temps[g := file]);
    CrashSafeQuiet(build, d);
    SameCoreSameMeaning(d, d1);
    SameMarkerPlan(m, d, d1);
    var writes := MarkerWrites(m, d1);
    MarkerWritesEnd(m, d1);
    var d2 := d1.(tempMarker := Some(MarkerBytes(m)));
    CrashSafeQuiet(writes, d1);
    SameCoreSameMeaning(d1, d2);
    Chain(build, writes, d, views);
    // mark and switch
    var rename := Rename(TempMarker, Marker);
    MarkIsSafe(d2, m);
    var d3 := d2.(marker := Some(MarkerBytes(m)), tempMarker := None);
    RunOne(rename, d2);
    Chain(build + writes, [rename], d, views);
    SwitchIsSafe(d3, m, rs);
    var d4 := d3.(segments := d3.segments[g := file], temps := d3.temps - {g});
    RunOne(Install(g), d3);
    Chain(build + writes + [rename], [Install(g)], d, views);
    var upToSwitch := build + writes + [rename] + [Install(g)];
    assert upToSwitch == SwitchPlan(m, file, d);
    if g < U64_MAX {
      FinishIsSafe(v, d, d4, m, file);
      Chain(upToSwitch, RemoveSegments(m.olds) + [Remove(Marker)], d, views);
      assert d.temps[g := file] - {g} == d.temps - {g};
    } else {
      assert upToSwitch + [] == upToSwitch;
    }
  }

  lemma IdleParts(v: Volatile, d: Disk)
    requires Idle(v, d)
    ensures SegmentsInv(d.segments) && Loaded(v.readers, d.segments)
  {
    hide Scan, WalTable, SegmentsInv, Loaded, MarkerInv;
  }

  lemma SameMarkerPlan(m: CompactionMarker, d: Disk, d1: Disk)
    requires d.tempMarker == d1.tempMarker
    ensures MarkerPlan(m, d) == MarkerPlan(m, d1)
  {
    hide ToBytes, OldLineWrites, OutputLine, MagicLine;
  }

  lemma Chain(p: seq<Effect>, q: seq<Effect>, d: Disk, views: set<View>)
    requires CrashSafe(p, d, views) && CrashSafe(q, Run(p, d), views)
    ensures CrashSafe(p + q, d, views) && Run(p + q, d) == Run(q, Run(p, d))
  {
    hide CrashSafe, Run;
    CrashSafeConcat(p, q, d, views);
    RunConcat(p, q, d);
  }

  /** After the switch: remove every old segment, then the marker. */
  lemma FinishIsSafe(v: Volatile, d: Disk, d4: Disk, m: CompactionMarker, file: Bytes)
    requires DiskInv(d4) && d4.marker == Some(MarkerBytes(m)) && WellFormedMarker(m) && d4.tempMarker.None?
    requires d4.segments == d.segments[m.output := file] && d.segments.Keys == GenSet(m.olds)
    ensures var end := d4.(segments := map[m.output := file], marker := None);
            && CrashSafe(RemoveSegments(m.olds) + [Remove(Marker)], d4, {Logical(d4)})
            && Run(RemoveSegments(m.olds) + [Remove(Marker)], d4) == end
            && DiskInv(end) && Logical(end) == Logical(d4)
  {
    hide DiskInv, Logical, CrashSafe, Run, MarkerBytes, ParseMarker, Scan, RemoveSegments, WellFormedMarker;
    assert m.output !in m.olds by { OutputIsNew(m); }
    SurvivingWithMarker(d4, m);
    RemovalIsSafe(m.olds, d4, m);
    var d5 := d4.(segments := d4.segments - GenSet(m.olds));
    assert d5.segments == map[m.output := file];
    SurvivingWithMarker(d5, m);
    assert d5.segments - GenSet(m.olds) == d5.segments;
    UnmarkIsSafe(d5);
    RunOne(Remove(Marker), d5);
    Chain(RemoveSegments(m.olds), [Remove(Marker)], d4, {Logical(d4)});
  }

  lemma OutputIsNew(m: CompactionMarker)
    requires WellFormedMarker(m)
    ensures m.output !in m.olds
  {
  }

  ghost predicate Mergeable(v: Volatile, d: Disk) {
    Idle(v, d) && |v.readers| >= 2 && TableFits(WithoutTombstones(ReadersTable(v.readers)))
  }

  lemma SwitchPlanEnds(m: CompactionMarker, file: Bytes, d: Disk)
    ensures Run(SwitchPlan(m, file, d), d) == SwitchedDisk(d, m, file)
  {
    hide Run, MarkerBytes, BuildPlan, MarkerWrites;
    var g, build := m.output, BuildPlan(m.output, file, d);
    BuildEnds(g, file, d);
    var d1 := d.(temps := d.temps[g := file]);
    SameMarkerPlan(m, d, d1);
    MarkerWritesEnd(m, d1);
    var d2 := d1.(tempMarker := Some(MarkerBytes(m)));
    RunConcat(MarkerWrites(m, d1), [Rename(TempMarker, Marker)], d1);
    RunOne(Rename(TempMarker, Marker), d2);
    var d3 := d2.(marker := Some(MarkerBytes(m)), tempMarker := None);
    RunConcat(build, MarkerPlan(m, d), d);
    RunConcat(build + MarkerPlan(m, d), [Install(g)], d);
    RunOne(Install(g), d3);
    assert d.temps[g := file] - {g} == d.temps - {g};
  }

  lemma MergePlanEnds(v: Volatile, d: Disk)
    requires Mergeable(v, d)
    ensures Run(MergePlan(v, d), d) == MergedEnd(v, d)
  {
    hide Idle, TableFits, WithoutTombstones, ReadersTable, MergedRecords, SegmentBytes, Run, SwitchPlan, SwitchedDisk,
      RemoveSegments, Generations;
    if v.next < U64_MAX {
      MergeIsSafe(v, d);
    } else {
      var plan := SwitchPlan(CompactionOf(v), SegmentBytes(MergedRecords(v)), d);
      SwitchPlanEnds(CompactionOf(v), SegmentBytes(MergedRecords(v)), d);
      assert plan + [] == plan;
    }
  }

  /** After a merge the process is between operations again. */
  lemma MergedIsIdle(v: Volatile, d: Disk)
    requires Idle(v, d) && |v.readers| >= 2 && v.next < U64_MAX
    requires TableFits(WithoutTombstones(ReadersTable(v.readers)))
    ensures Idle(MergedVolatile(v), MergedDisk(v, d))
  {
    hide DiskInv, Logical, MergedRecords, SegmentBytes, WalTable, Loaded, TableFits, TableOf, CrashSafe, Writable, Scan,
      AllWellFormed, WithoutTombstones, ReadersTable, IndexOf, IndexOffset, MergePlan, Layered;
    MergeIsSafe(v, d);
    IdleParts(v, d);
    MergedRecordsAreStorable(v, d);
    NothingLoaded();
    LoadedAddsNewest([], map[], MergedRecords(v), v.next);
    assert [ReaderOf(MergedRecords(v), v.next)] + [] == [ReaderOf(MergedRecords(v), v.next)];
    assert map[][v.next := SegmentBytes(MergedRecords(v))] == map[v.next := SegmentBytes(MergedRecords(v))];
    assert d.temps - {v.next} == map[];
  }

  lemma NothingLoaded()
    ensures Loaded([], map[])
  {
  }
}
