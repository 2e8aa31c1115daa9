/** The store (`src/store.rs`): each method makes exactly the file-system calls of its plan. */
module Stores {
  import opened Bytes
  import opened Errors
  import opened Records
  import opened Tables
  import opened Memtables
  import opened FileSystems
  import Wal
  import opened Segments
  import opened SegmentReaders
  import opened Layers
  import opened Names
  import opened Markers
  import opened Protocol
  import opened CrashSafety
  import opened Recovery
  import opened Runs
  import opened Compactions
  import opened Outcomes
  import opened Operations

  // ---------- recovery, step by step ----------

  /** `recover_pending_compaction`. */
  method RecoverPendingCompaction(fs: FileSystem) returns (res: Result<()>)
    modifies fs
    ensures res.Ok? <==> RecoverOk(old(fs.disk))
    ensures res.Ok? ==> fs.log == old(fs.log) + RecoverPlan(old(fs.disk)) && fs.disk == RecoveredDisk(old(fs.disk))
    ensures res.Err? ==>
              && fs.log == old(fs.log) + RemoveIfThere(TempMarker, old(fs.disk))
              && fs.disk == old(fs.disk).(tempMarker := None)
  {
    hide ParseMarker, OpenSegment, Remaining, RemoveSegments, RecoverPlan, RecoveredDisk, GenSet;
    ghost var d, log := fs.disk, fs.log;
    if !Exists(fs.disk, Marker) {
      if Exists(fs.disk, TempMarker) {
        fs.Perform(Remove(TempMarker));
      }
      RecoverCallsUnmarked(d, log);
      return Ok(());
    }
    if Exists(fs.disk, TempMarker) {
      fs.Perform(Remove(TempMarker));
    }
    RecoverCallsUnmarked(d, log);
    var m :- ReadMarker(fs.disk.marker.value);
    AcceptedMarkersAreWellFormed(d.marker.value);
    if !Exists(fs.disk, Segment(m.output)) {
      var _ :- CheckOldSegments(fs, m.olds);
      NoRemovals();
    } else {
      var _ :- Open(fs.disk.segments[m.output], m.output);
      RemoveOldSegments(fs, m.olds);
    }
    ghost var before := fs.disk.temps;
    if Exists(fs.disk, TempSegment(m.output)) {
      fs.Perform(Remove(TempSegment(m.output)));
    } else {
      assert before - {m.output} == before;
    }
    fs.Perform(Remove(Marker));
    RecoverCalls(d, log, m);
    return Ok(());
  }

  /** Without a marker, recovery only removes a temporary one. */
  lemma RecoverCallsUnmarked(d: Disk, log: seq<Effect>)
    ensures log + RemoveIfThere(TempMarker, d) == if d.tempMarker.Some? then log + [Remove(TempMarker)] else log
    ensures d.marker.None? ==>
              log + RecoverPlan(d) == log + RemoveIfThere(TempMarker, d) && RecoveredDisk(d) == d.(tempMarker := None)
  {
    if d.marker.None? {
      assert RemoveIfThere(TempMarker, d) + [] == RemoveIfThere(TempMarker, d);
    }
  }

  /** With a marker, these are the calls of recovery, and this is where it ends. */
  lemma RecoverCalls(d: Disk, log: seq<Effect>, m: CompactionMarker)
    requires d.marker.Some? && ParseMarker(d.marker.value) == Ok(m)
    ensures var gens := if m.output in d.segments then Remaining(m.olds, d.segments) else [];
            log + RecoverPlan(d) == log + RemoveIfThere(TempMarker, d) + RemoveSegments(gens)
                                    + RemoveIfThere(TempSegment(m.output), d) + [Remove(Marker)]
    ensures RecoveredDisk(d) == Disk(d.wal, if m.output in d.segments then d.segments - GenSet(m.olds) else d.segments,
                                     d.temps - {m.output}, None, None)
    ensures forall l: seq<Effect> :: l + [] == l
  {
    hide ParseMarker, RemoveSegments, Remaining, GenSet, RemoveIfThere;
  }

  lemma NoRemovals()
    ensures RemoveSegments([]) == []
  {
  }

  /** The loop that insists on every old segment before rolling back. */
  method CheckOldSegments(fs: FileSystem, olds: seq<u64>) returns (res: Result<()>)
    ensures res.Ok? <==> forall g :: g in olds ==> g in fs.disk.segments
  {
    for i := 0 to |olds|
      invariant forall k :: 0 <= k < i ==> olds[k] in fs.disk.segments
    {
      if !Exists(fs.disk, Segment(olds[i])) {
        assert olds[i] in olds;
        return Err(Other("cannot roll back interrupted compaction: old segment is missing"));
      }
    }
    return Ok(());
  }

  /** The loop that removes those of the old segments that are still there. */
  method RemoveOldSegments(fs: FileSystem, olds: seq<u64>)
    requires Distinct(olds)
    modifies fs
    ensures fs.log == old(fs.log) + RemoveSegments(Remaining(olds, old(fs.disk.segments)))
    ensures fs.disk == old(fs.disk).(segments := old(fs.disk.segments) - GenSet(olds))
  {
    hide RemoveSegments, Remaining, GenSet;
    ghost var segments := fs.disk.segments;
    ghost var goal := fs.log + RemoveSegments(Remaining(olds, segments));
    NothingRemoved(segments);
    assert olds[0..] == olds && olds[..0] == [];
    for i := 0 to |olds|
      invariant goal == fs.log + RemoveSegments(Remaining(olds[i..], segments))
      invariant fs.disk == old(fs.disk).(segments := segments - GenSet(olds[..i]))
    {
      var g := olds[i];
      NextRemoval(segments, olds, i);
      if Exists(fs.disk, Segment(g)) {
        fs.Perform(Remove(Segment(g)));
      }
    }
    NoRemovals();
    assert olds[..|olds|] == olds && olds[|olds|..] == [];
  }

  lemma NothingRemoved(segments: map<u64, Bytes>)
    ensures segments - GenSet([]) == segments && Remaining([], segments) == []
  {
  }

  /** One turn of the removal: a segment that is still there is removed, and the others wait. */
  lemma NextRemoval(segments: map<u64, Bytes>, olds: seq<u64>, i: nat)
    requires i < |olds| && Distinct(olds)
    ensures var g := olds[i];
            var later := RemoveSegments(Remaining(olds[i + 1..], segments));
            var left := segments - GenSet(olds[..i]);
            && (g in left <==> g in segments)
            && RemoveSegments(Remaining(olds[i..], segments))
               == (if g in segments then [Remove(Segment(g))] else []) + later
            && segments - GenSet(olds[..i + 1]) == (if g in segments then left - {g} else left)
  {
    var g := olds[i];
    var rest := Remaining(olds[i + 1..], segments);
    assert olds[i..][1..] == olds[i + 1..];
    assert GenSet(olds[..i + 1]) == GenSet(olds[..i]) + {g};
    assert g !in olds[..i];
    assert RemoveSegments([g] + rest) == [Remove(Segment(g))] + RemoveSegments(rest);
    assert [] + rest == rest && [] + RemoveSegments(rest) == RemoveSegments(rest);
  }

  /** `remove_stale_temp_files`. */
  method RemoveStaleTempFiles(fs: FileSystem) returns (ghost order: seq<u64>)
    modifies fs
    ensures GenSet(order) == old(fs.disk.temps).Keys
    ensures fs.log == old(fs.log) + RemoveTemps(order)
    ensures fs.disk == old(fs.disk).(temps := map[])
  {
    hide FileName, ParseTempSegmentGeneration;
    ghost var d := fs.disk;
    order := [];
    var names, files := ReadDir(fs.disk);
    assert d.temps - GenSet([]) == d.temps;
    for i := 0 to |names|
      invariant fs.disk == d.(temps := d.temps - GenSet(order)) && fs.log == old(fs.log) + RemoveTemps(order)
      invariant forall g :: g in order <==> TempSegment(g) in files[..i]
    {
      NamesAreRecognised(files[i]);
      var parsed := ParseTempSegmentGeneration(names[i]);
      assert files[..i + 1] == files[..i] + [files[i]];
      if parsed.Some? {
        fs.Perform(Remove(TempSegment(parsed.value)));
        assert RemoveTemps(order + [parsed.value]) == RemoveTemps(order) + [Remove(TempSegment(parsed.value))];
        assert d.temps - GenSet(order) - {parsed.value} == d.temps - GenSet(order + [parsed.value]);
        order := order + [parsed.value];
      }
    }
    assert files[..|files|] == files;
    forall g | g in d.temps
      ensures g in order
    {
      assert Exists(d, TempSegment(g));
    }
    forall g | g in order
      ensures g in d.temps
    {
      assert TempSegment(g) in files;
    }
    assert d.temps - GenSet(order) == map[];
  }

  // ---------- loading ----------

  ghost predicate StrictlyDescending(gens: seq<u64>) {
    forall i, j :: 0 <= i < j < |gens| ==> gens[i] > gens[j]
  }

  /** Sorting, newest generation first. */
  function SortDescending(gens: seq<u64>): seq<u64> {
    if gens == [] then [] else InsertDescending(gens[0], SortDescending(gens[1..]))
  }

  function InsertDescending(g: u64, gens: seq<u64>): seq<u64> {
    if gens == [] || g >= gens[0] then [g] + gens else [gens[0]] + InsertDescending(g, gens[1..])
  }

  lemma {:induction false} InsertKeepsOrder(g: u64, gens: seq<u64>)
    requires StrictlyDescending(gens) && g !in gens
    ensures StrictlyDescending(InsertDescending(g, gens))
    ensures forall x :: x in InsertDescending(g, gens) <==> x == g || x in gens
    decreases |gens|
  {
    if gens != [] && g < gens[0] {
      InsertKeepsOrder(g, gens[1..]);
      var rest := InsertDescending(g, gens[1..]);
      assert InsertDescending(g, gens) == [gens[0]] + rest;
      assert forall x :: x in gens <==> x == gens[0] || x in gens[1..];
      forall j | 0 <= j < |rest|
        ensures gens[0] > rest[j]
      {
        assert rest[j] in rest;
      }
    } else {
      assert InsertDescending(g, gens) == [g] + gens;
      if gens != [] {
        assert g != gens[0];
      }
    }
  }

  lemma {:induction false} SortIsStrict(gens: seq<u64>)
    requires Distinct(gens)
    ensures StrictlyDescending(SortDescending(gens))
    ensures forall g :: g in SortDescending(gens) <==> g in gens
    decreases |gens|
  {
    if gens != [] {
      SortIsStrict(gens[1..]);
      assert gens[0] !in gens[1..];
      InsertKeepsOrder(gens[0], SortDescending(gens[1..]));
      assert forall x :: x in gens <==> x == gens[0] || x in gens[1..];
    }
  }

  /** The generations named in a directory listing. */
  method DiscoverSegments(fs: FileSystem) returns (discovered: seq<u64>)
    ensures Distinct(discovered) && forall g :: g in discovered <==> g in fs.disk.segments
  {
    hide FileName, ParseSegmentGeneration, StartsWith, EndsWith;
    discovered := [];
    var names, files := ReadDir(fs.disk);
    for i := 0 to |names|
      invariant forall g :: g in discovered <==> Segment(g) in files[..i]
      invariant Distinct(discovered)
    {
      NamesAreRecognised(files[i]);
      assert files[..i + 1] == files[..i] + [files[i]];
      if StartsWith(names[i], PREFIX) && EndsWith(names[i], SEGMENT_SUFFIX) {
        match ParseSegmentGeneration(names[i])
        case None =>
          assert false; // every name in the directory was made by `FileName`
        case Some(g) =>
          assert Segment(g) !in files[..i];
          discovered := discovered + [g];
      }
    }
    assert files[..|files|] == files;
    forall g | g in fs.disk.segments
      ensures g in discovered
    {
      assert Exists(fs.disk, Segment(g));
    }
    forall g | g in discovered
      ensures g in fs.disk.segments
    {
      assert Segment(g) in files && Exists(fs.disk, Segment(g));
    }
  }

  /** `load_segments`. */
  method LoadSegments(fs: FileSystem) returns (res: Result<(seq<Reader>, u64)>)
    ensures res.Ok? <==> LoadOk(fs.disk.segments)
    ensures res.Ok? ==>
              Loaded(res.value.0, fs.disk.segments) && res.value.1 == NextGeneration(fs.disk.segments)
  {
    hide OpenSegment, SortDescending;
    var segments := fs.disk.segments;
    var found := DiscoverSegments(fs);
    var gens := SortDescending(found);
    SortIsStrict(found);
    var i := 1;
    while i < |gens| {
      if gens[i - 1] == gens[i] {
        assert false; // no two files have the same generation
      }
      i := i + 1;
    }
    var next := 1;
    if gens != [] {
      FirstIsNewest(segments, gens);
      if gens[0] == U64_MAX {
        return Err(Other("segment generation exhausted"));
      }
      next := gens[0] + 1;
    } else {
      assert forall g :: g !in segments;
      assert segments == map[];
    }
    var readers :- OpenAll(segments, gens);
    return Ok((readers, next));
  }

  lemma FirstIsNewest(segments: map<u64, Bytes>, gens: seq<u64>)
    requires StrictlyDescending(gens) && gens != [] && forall g :: g in gens <==> g in segments
    ensures segments != map[] && Newest(segments.Keys) == gens[0]
  {
    assert gens[0] in segments;
    assert IsNewest(segments.Keys, gens[0]) by {
      forall h | h in segments.Keys
        ensures h <= gens[0]
      {
        assert h in gens;
      }
    }
  }

  /** Opens the segments in the order given. */
  method OpenAll(segments: map<u64, Bytes>, gens: seq<u64>) returns (res: Result<seq<Reader>>)
    requires StrictlyDescending(gens) && forall g :: g in gens <==> g in segments
    ensures res.Ok? <==> forall g :: g in segments ==> OpenSegment(segments[g], g).Ok?
    ensures res.Ok? ==> Loaded(res.value, segments)
  {
    hide OpenSegment;
    var readers: seq<Reader> := [];
    for i := 0 to |gens|
      invariant |readers| == i
      invariant forall k :: 0 <= k < i ==> readers[k].gen == gens[k] && IsReaderOf(readers[k], segments)
    {
      assert gens[i] in gens;
      var rd :- Open(segments[gens[i]], gens[i]);
      readers := readers + [rd];
    }
    forall g | g in segments
      ensures Reads(readers, g) && OpenSegment(segments[g], g).Ok?
    {
      assert g in gens;
      var k :| 0 <= k < |gens| && gens[k] == g;
      assert readers[k].gen == g && IsReaderOf(readers[k], segments);
    }
    return Ok(readers);
  }

  /** The loop of the replay callback. */
  method ApplyRecords(memtable: Memtable, records: seq<Record>)
    modifies memtable
    ensures memtable.State() == PutAll(old(memtable.State()), records)
  {
    hide Put;
    assert records[0..] == records;
    for i := 0 to |records|
      invariant PutAll(memtable.State(), records[i..]) == PutAll(old(memtable.State()), records)
    {
      assert records[i..][1..] == records[i + 1..];
      match records[i].op {
        case Set => memtable.Set(records[i].key, records[i].val);
        case Delete => memtable.Delete(records[i].key);
      }
    }
  }

  /** The loop that removes the replaced segments; a missing one ends it. */
  method RemoveAll(fs: FileSystem, gens: seq<u64>) returns (res: Result<()>)
    modifies fs
    ensures var n := Removable(gens, old(fs.disk.segments));
            && (res.Ok? <==> n == |gens|)
            && Did(RemoveSegments(gens[..n]), old(fs.Now()), fs.Now())
  {
    hide RemoveSegments, Did;
    ghost var start := fs.Now();
    RemovedNothing(gens, start);
    for i := 0 to |gens|
      invariant Did(RemoveSegments(gens[..i]), start, fs.Now())
      invariant Removable(gens, start.disk.segments) == i + Removable(gens[i..], fs.disk.segments)
    {
      assert gens[i..][0] == gens[i] && gens[i..][1..] == gens[i + 1..];
      if !Exists(fs.disk, Segment(gens[i])) {
        return Err(Other("segment file is missing"));
      }
      RemovedOneMore(gens, i, start, fs.Now());
      fs.Perform(Remove(Segment(gens[i])));
    }
    return Ok(());
  }

  lemma RemovedNothing(gens: seq<u64>, t: Trace)
    ensures Did(RemoveSegments(gens[..0]), t, t) && gens[0..] == gens
  {
    hide Did;
    assert RemoveSegments(gens[..0]) == [];
    DidNothing(t);
  }

  lemma RemovedOneMore(gens: seq<u64>, i: nat, start: Trace, t: Trace)
    requires i < |gens| && Did(RemoveSegments(gens[..i]), start, t)
    ensures var e := Remove(Segment(gens[i]));
            Did(RemoveSegments(gens[..i + 1]), start, Trace(Apply(e, t.disk), t.log + [e]))
  {
    hide Did, Apply;
    var e := Remove(Segment(gens[i]));
    DidOne(e, t);
    DidThen(RemoveSegments(gens[..i]), [e], start, t, Trace(Apply(e, t.disk), t.log + [e]));
    assert RemoveSegments(gens[..i + 1]) == RemoveSegments(gens[..i]) + [e];
  }

  /** The calls of an open, one after the other, up to where it stops. */
  lemma OpenCalls(d: Disk, order: seq<u64>, log: seq<Effect>)
    ensures log + OpenAttempt(d, order) ==
            if !RecoverOk(d) then log + RemoveIfThere(TempMarker, d)
            else if !OpenOk(d) then log + RecoverPlan(d) + RemoveTemps(order)
            else log + RecoverPlan(d) + RemoveTemps(order) + Wal.CutPlan(d.wal, Wal.Scan(d.wal).value.1)
    ensures RecoverOk(d) && GenSet(order) == RecoveredTemps(d).Keys ==> TempOrder(order, d)
  {
    hide RecoverPlan, RemoveTemps, Wal.Scan, RecoverOk, LoadOk, Surviving, Wal.CutPlan, RemoveIfThere, RecoveredTemps;
    hide GenSet;
  }

  // ---------- the store ----------

  class Store {
    const fs: FileSystem
    const memtable: Memtable
    const threshold: u64
    var segments: seq<Reader>
    var next: u64

    function State(): Volatile
      reads this, memtable
    {
      Volatile(memtable.State(), segments, next, threshold)
    }

    ghost predicate Valid()
      reads this
    {
      AllSane(segments)
    }

    constructor (fs: FileSystem, memtable: Memtable, segments: seq<Reader>, next: u64, threshold: u64)
      requires AllSane(segments)
      ensures this.fs == fs && this.memtable == memtable
      ensures Valid() && State() == Volatile(memtable.State(), segments, next, threshold)
    {
      this.fs := fs;
      this.memtable := memtable;
      this.segments := segments;
      this.next := next;
      this.threshold := threshold;
    }

    ghost function Now(): Snapshot
      reads this, memtable, fs
    {
      Snapshot(State(), fs.Now())
    }

    /** `open_with_threshold`. */
    static method OpenWithThreshold(fs: FileSystem, threshold: u64)
      returns (res: Result<Store>, ghost order: seq<u64>)
      modifies fs
      ensures res.Ok? <==> OpenOk(old(fs.disk))
      ensures RecoverOk(old(fs.disk)) ==> TempOrder(order, old(fs.disk))
      ensures fs.log == old(fs.log) + OpenAttempt(old(fs.disk), order)
      ensures fs.disk == AttemptedDisk(old(fs.disk))
      ensures res.Ok? ==>
                && fresh(res.value) && fresh(res.value.memtable) && res.value.fs == fs && res.value.Valid()
                && Opened(res.value.State(), old(fs.disk), threshold)
    {
      hide RecoverPlan, RemoveTemps, Wal.Scan, RecoverOk, LoadOk, Surviving, RecoveredTemps, PutAll;
      hide OpenAttempt, TempOrder, GenSet, Loaded, AllSane;
      order := [];
      ghost var d, log := fs.disk, fs.log;
      var recovered := RecoverPendingCompaction(fs);
      OpenCalls(d, order, log);
      if recovered.Err? {
        return Err(recovered.error), order;
      }
      order := RemoveStaleTempFiles(fs);
      OpenCalls(d, order, log);
      var loaded := LoadSegments(fs);
      if loaded.Err? {
        return Err(loaded.error), order;
      }
      var (readers, next) := loaded.value;
      LoadedAreSane(readers, Surviving(d));
      var memtable := new Memtable();
      var replayed := Wal.Replay(fs);
      if replayed.Err? {
        return Err(replayed.error), order;
      }
      var (records, _) := replayed.value;
      ApplyRecords(memtable, records);
      var store := new Store(fs, memtable, readers, next, threshold);
      res := Ok(store);
    }

    method Set(key: Bytes, val: Bytes) returns (res: Result<()>)
      requires Valid()
      modifies this, fs, memtable
      ensures Valid()
      ensures Written(SetOp(key, val), res.Ok?, old(Now()), Now())
      ensures Performed(SetOp(key, val), res.Ok?, old(Now()), Now())
      ensures !Accepts(SetOp(key, val)) ==> res.error.RecordTooLarge?
      ensures res.Ok? ==> memtable.State() == EMPTY || memtable.size < threshold
    {
      hide Frame, Flushed, Performed, Encodable, Put;
      ghost var op, s := SetOp(key, val), Now();
      var record := RecordOf(key, Some(val));
      res := Wal.Append(fs, record);
      if res.Ok? {
        memtable.Set(key, val);
        res := FlushIfOver();
      }
      WrittenIsPerformed(op, res.Ok?, s, Now());
      if res.Ok? {
        AcknowledgedWriteIsBelowThreshold(op, s, Now());
      }
    }

    method Delete(key: Bytes) returns (res: Result<()>)
      requires Valid()
      modifies this, fs, memtable
      ensures Valid()
      ensures Written(DeleteOp(key), res.Ok?, old(Now()), Now())
      ensures Performed(DeleteOp(key), res.Ok?, old(Now()), Now())
      ensures !Accepts(DeleteOp(key)) ==> res.error.RecordTooLarge?
      ensures res.Ok? ==> memtable.State() == EMPTY || memtable.size < threshold
    {
      hide Frame, Flushed, Performed, Encodable, Put;
      ghost var op, s := DeleteOp(key), Now();
      var record := RecordOf(key, None);
      res := Wal.Append(fs, record);
      if res.Ok? {
        memtable.Delete(key);
        res := FlushIfOver();
      }
      WrittenIsPerformed(op, res.Ok?, s, Now());
      if res.Ok? {
        AcknowledgedWriteIsBelowThreshold(op, s, Now());
      }
    }

    /** The end of `set` and `delete`: flush when the memtable is over the threshold. */
    method FlushIfOver() returns (res: Result<()>)
      requires Valid()
      modifies this, fs, memtable
      ensures Valid()
      ensures if Flushes(old(Now()).v) then Flushed(res.Ok?, old(Now()), Now()) else res.Ok? && Now() == old(Now())
    {
      hide Flushed;
      if memtable.IsOverThreshold(threshold) {
        res := FlushMemtable();
      } else {
        res := Ok(());
      }
    }

    method FlushMemtable() returns (res: Result<()>)
      requires Valid()
      modifies this, fs, memtable
      ensures Valid()
      ensures Flushed(res.Ok?, old(Now()), Now())
    {
      hide Sorted, SegmentBytes, Writable, BuildPlan, OpenSegment, PartlyBuilt, Apply, Did, FlushPlan, ReaderOf;
      if memtable.table == map[] {
        return Ok(());
      }
      ghost var s := Now();
      var gen := next;
      var rs := Sorted(memtable.table);
      var _ :- BuildSegment(fs, gen, rs);
      WrittenSegmentOpens(rs, gen);
      FlushInstalls(s.v, s.at.disk);
      fs.Perform(Install(gen));
      var reopened := Open(fs.disk.segments[gen], gen);
      if reopened.Err? {
        assert false; // a segment just written opens
      }
      segments := [reopened.value] + segments;
      if gen == U64_MAX {
        FlushMade(s.v, s.at, fs.Now());
        return Err(Other("segment generation exhausted"));
      }
      next := gen + 1;
      Wal.Truncate(fs);
      FlushMade(s.v, s.at, fs.Now());
      memtable.Clear();
      return Ok(());
    }

    method Get(key: Bytes) returns (res: Result<Option<Bytes>>)
      requires Valid()
      ensures res == Answer(State(), key)
      ensures Idle(State(), fs.disk) ==> res == Ok(ViewAt(Logical(fs.disk), key))
    {
      hide ScanFrom, StartOffset, Idle, Logical, Sane;
      if Idle(State(), fs.disk) {
        AnswerIsLogical(State(), fs.disk, key);
      }
      if key in memtable.table {
        return Ok(memtable.table[key]);
      }
      assert segments[0..] == segments;
      for i := 0 to |segments|
        invariant AllSane(segments[i..])
        invariant Search(segments, key) == Search(segments[i..], key)
      {
        assert segments[i..][0] == segments[i] && segments[i..][1..] == segments[i + 1..];
        var found, _ := LookupKey(segments[i], key);
        match found {
          case Err(e) => return Err(e);
          case Ok(Some(val)) => return Ok(val);
          case Ok(None) =>
        }
      }
      return Ok(None);
    }

    method Compact() returns (res: Result<CompactionStats>)
      requires Valid()
      modifies this, fs, memtable
      ensures Valid()
      ensures Compacted(res, old(Now()), Now())
      ensures Performed(CompactOp, res.Ok?, old(Now()), Now())
      ensures Idle(old(State()), old(fs.disk)) && Room(CompactOp, old(State())) && res.Ok? ==>
                res.value == CompactStats(old(State()), old(fs.disk))
    {
      hide Flushed, Merged, Performed, Idle, Room, CompactStats;
      ghost var s := Now();
      if memtable.table != map[] {
        var flushed := FlushMemtable();
        if flushed.Err? {
          res := Err(flushed.error);
          CompactedIsPerformed(res, s, Now());
          return;
        }
      }
      if |segments| < 2 {
        res := Ok(CompactionStats(0, 0, 0, 0, 0));
      } else {
        res := MergeSegments();
      }
      CompactedIsPerformed(res, s, Now());
    }

    /** The part of `compact` that replaces two or more segments. */
    method MergeSegments() returns (res: Result<CompactionStats>)
      requires Valid()
      modifies this, fs
      ensures Valid()
      ensures Merged(res, old(Now()), Now())
      ensures Mergeable(old(State()), old(fs.disk)) ==>
                && Did(MergePlan(old(State()), old(fs.disk)), old(fs.Now()), fs.Now())
                && (res.Ok? <==> old(next) < U64_MAX)
                && (res.Ok? ==> State() == MergedVolatile(old(State())))
                && (res.Ok? ==> res.value == MergeStats(old(State()), old(fs.disk)))
    {
      hide Switched, Finished, Generations, Mergeable, Did, MergedVolatile, MergeStats;
      ghost var s := Now();
      var gen := next;
      var olds := Generations(segments);
      var switched := SwitchTo(CompactionMarker(gen, olds));
      ghost var mid := fs.Now();
      assert Switched(switched, CompactionOf(s.v), s.at, mid);
      if switched.Err? {
        res := Err(switched.error);
      } else {
        var finished := FinishMerge(gen, olds);
        res := if finished.Ok? then Ok(StatsOf(switched.value)) else Err(finished.error);
      }
      if Mergeable(s.v, s.at.disk) {
        MergedBetween(res, s, Now());
      }
    }

    /** Build the replacement, write the marker, install. */
    method SwitchTo(m: CompactionMarker) returns (res: Result<BuildStats>)
      modifies fs
      ensures Switched(res, m, old(fs.Now()), fs.Now())
      ensures res.Ok? ==> m.output in fs.disk.segments
    {
      hide Sorted, SegmentBytes, Writable, WithoutTombstones, BuildPlan, TableFits, MergeInto, MarkerPlan, MarkerBytes;
      hide BuildStatsOf, PartlyBuilt, Did, Apply, SwitchPlan, RemoveIfThere, Reverse;
      ghost var start := fs.Now();
      ghost var merged := MergeInto(map[], start.disk.segments, Reverse(m.olds));
      ghost var file := if merged.Ok? then SegmentBytes(Sorted(WithoutTombstones(merged.value))) else [];
      if Exists(fs.disk, TempSegment(m.output)) {
        fs.Perform(Remove(TempSegment(m.output)));
      }
      ghost var cleared := fs.Now();
      ClearedTemp(m.output, start, cleared);
      var built := CompactAll(fs, Reverse(m.olds), m.output);
      if built.Err? {
        if merged.Ok? {
          PartlyAfterClearing(m.output, start, cleared, fs.Now());
        }
        return built;
      }
      ghost var mid := fs.Now();
      BuiltAfterClearing(m.output, file, start, cleared, mid);
      var marked := WriteMarker(fs, m);
      if marked.Err? {
        fs.Perform(Remove(TempSegment(m.output)));
        BuildTakenBack(m.output, file, start, mid, fs.Now());
        return Err(marked.error);
      }
      fs.Perform(Install(m.output));
      SwitchMade(m, file, start, mid, fs.Now());
      return built;
    }

    /** Check the replacement, serve it, remove the old segments, and unmark. */
    method FinishMerge(gen: u64, olds: seq<u64>) returns (res: Result<()>)
      requires Valid() && gen in fs.disk.segments
      modifies this, fs
      ensures Valid()
      ensures Finished(res.Ok?, gen, olds, old(Now()), Now())
    {
      hide OpenSegment, RemoveSegments, Removable, Did, Apply;
      ghost var start := fs.Now();
      var reopened := Open(fs.disk.segments[gen], gen);
      if reopened.Err? {
        fs.Perform(Remove(Segment(gen)));
        fs.Perform(Remove(Marker));
        DidTwo(Remove(Segment(gen)), Remove(Marker), start);
        return Err(reopened.error);
      }
      if gen == U64_MAX {
        return Err(Other("segment generation exhausted"));
      }
      next := gen + 1;
      segments := [reopened.value];
      var removed := RemoveAll(fs, olds);
      ghost var left := fs.Now();
      ghost var n := Removable(olds, start.disk.segments);
      if removed.Err? {
        assert RemoveSegments(olds[..n]) + [] == RemoveSegments(olds[..n]);
        return Err(removed.error);
      }
      fs.Perform(Remove(Marker));
      DidOne(Remove(Marker), left);
      DidThen(RemoveSegments(olds[..n]), [Remove(Marker)], start, left, fs.Now());
      return Ok(());
    }

    /** The log is read and its torn tail cut, then every segment is read and checked. */
    method Verify() returns (res: Result<VerifyStats>)
      requires Valid()
      modifies fs
      ensures res == Verified(State(), old(fs.disk.wal))
      ensures Wal.Scan(old(fs.disk.wal)).Err? ==> unchanged(fs)
      ensures Wal.Scan(old(fs.disk.wal)).Ok? ==>
                var good := Wal.Scan(old(fs.disk.wal)).value.1;
                && fs.log == old(fs.log) + Wal.CutPlan(old(fs.disk.wal), good)
                && fs.disk == old(fs.disk).(wal := old(fs.disk.wal)[..good])
      ensures Idle(State(), old(fs.disk)) ==>
                var count := RecordCount(old(fs.disk.segments), Generations(segments));
                && fs.disk == old(fs.disk) && fs.log == old(fs.log)
                && (res.Ok? <==> count <= U64_MAX)
                && (res.Ok? ==> res.value == VerifyStats(|Wal.Scan(fs.disk.wal).value.0|, |segments|, count))
    {
      hide Wal.Scan, RecordCount, Idle, AllSane, CheckReaders, Generations;
      ghost var d := fs.disk;
      if Idle(State(), d) {
        VerifiedBetween(State(), d);
        assert d.wal[..|d.wal|] == d.wal && fs.log + [] == fs.log;
      }
      var replayed :- Wal.Replay(fs);
      var recordsChecked :- CheckSegments();
      return Ok(VerifyStats(replayed.1.recordsReplayed, |segments|, recordsChecked));
    }

    /** The loop over the segments, newest first. */
    method CheckSegments() returns (res: Result<u64>)
      requires Valid()
      ensures res == CheckReaders(segments, None, 0)
    {
      hide ReadAllFrom, Sane;
      var recordsChecked: u64 := 0;
      var previous: Option<u64> := None;
      assert segments[0..] == segments;
      for i := 0 to |segments|
        invariant AllSane(segments[i..])
        invariant CheckReaders(segments[i..], previous, recordsChecked) == CheckReaders(segments, None, 0)
      {
        assert segments[i..][0] == segments[i] && segments[i..][1..] == segments[i + 1..];
        if previous.Some? && segments[i].gen >= previous.value {
          return Err(InvalidSegmentFile("invalid segment generation order"));
        }
        previous := Some(segments[i].gen);
        var records :- IterAll(segments[i]);
        if recordsChecked + |records| > U64_MAX {
          return Err(Other("verify record count overflow"));
        }
        recordsChecked := recordsChecked + |records|;
      }
      return Ok(recordsChecked);
    }
  }
}
