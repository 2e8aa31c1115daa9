/**
 * What the methods of the store do (`src/store.rs`): first to any state, errors included, and then between operations,
 * where they make exactly the plans about which the crash theorems speak.
 */
module Outcomes {
  import opened Bytes
  import opened Errors
  import opened Records
  import opened Tables
  import opened Memtables
  import opened FileSystems
  import opened Segments
  import opened SegmentReaders
  import opened Layers
  import opened Markers
  import opened Protocol
  import opened CrashSafety
  import opened Recovery
  import opened Runs
  import opened Compactions
  import Wal

  datatype CompactionStats = CompactionStats(
    segmentsMerged: nat,
    recordsBefore: u64,
    liveRecordsAfter: nat,
    bytesBefore: u64,
    bytesAfter: nat)

  datatype VerifyStats = VerifyStats(walRecords: nat, segmentsChecked: nat, recordsChecked: u64)

  /** A process, its directory, and the calls made so far. */
  datatype Snapshot = Snapshot(v: Volatile, at: Trace)

  // ---------- writing, in any state ----------

  ghost predicate FlushFits(v: Volatile) {
    Writable(Sorted(v.mem.table)) && TableFits(v.mem.table)
  }

  /**
   * `flush_memtable`. There may be nothing to flush. When the records cannot be written, part of the temporary file
   * stays and nothing else changes. Otherwise the flush is made; the last generation is installed and served, but
   * the memtable and the log are kept and an error is reported.
   */
  ghost predicate Flushed(ok: bool, s: Snapshot, s': Snapshot) {
    if s.v.mem.table == map[] then ok && s' == s
    else if !FlushFits(s.v) then !ok && s'.v == s.v && PartlyBuilt(s.v.next, s.at, s'.at)
    else
      && Did(FlushPlan(s.v, s.at.disk), s.at, s'.at)
      && if s.v.next < U64_MAX then ok && s'.v == FlushedVolatile(s.v)
         else !ok && s'.v == s.v.(readers := [ReaderOf(Sorted(s.v.mem.table), s.v.next)] + s.v.readers)
  }

  function AfterLog(s: Snapshot, r: Record): Snapshot {
    Snapshot(Logged(s.v, r), Trace(LoggedDisk(s.at.disk, r), s.at.log + [WalAppend(Frame(r))]))
  }

  /** `set` and `delete`: refused without a trace, or logged and remembered, and flushed when over the threshold. */
  ghost predicate Written(op: StoreOp, ok: bool, s: Snapshot, s': Snapshot)
    requires !op.CompactOp?
  {
    if !Accepts(op) then !ok && s' == s
    else
      var logged := AfterLog(s, OpRecord(op));
      if Flushes(logged.v) then Flushed(ok, logged, s') else ok && s' == logged
  }

  // ---------- compacting, in any state ----------

  /**
   * The first half of `compact`: build the output, write the marker, install. An input that cannot be read costs
   * nothing but a stale temporary file; an output that cannot be written stays behind in part; and when there is a
   * marker already the output is removed again.
   */
  ghost predicate Switched(res: Result<BuildStats>, m: CompactionMarker, t: Trace, t': Trace) {
    match MergeInto(map[], t.disk.segments, Reverse(m.olds))
    case Err(_) => res.Err? && Did(RemoveIfThere(TempSegment(m.output), t.disk), t, t')
    case Ok(merged) =>
      var live := WithoutTombstones(merged);
      var file := SegmentBytes(Sorted(live));
      if !Writable(Sorted(live)) || !TableFits(live) then res.Err? && PartlyBuilt(m.output, t, t')
      else if t.disk.marker.Some? then
        res.Err? && Did(BuildPlan(m.output, file, t.disk) + [Remove(TempSegment(m.output))], t, t')
      else
        res == Ok(BuildStatsOf(t.disk.segments, Reverse(m.olds), live)) && Did(SwitchPlan(m, file, t.disk), t, t')
  }

  /** How many of the generations can be removed one after the other before one is missing. */
  function Removable(gens: seq<u64>, segments: map<u64, Bytes>): (n: nat)
    ensures n <= |gens|
    decreases |gens|
  {
    if gens == [] || gens[0] !in segments then 0 else 1 + Removable(gens[1..], segments - {gens[0]})
  }

  /**
   * The second half: check the output, serve it, remove the old segments, unmark. An output that does not open is
   * taken back with its marker; one of the last generation is left in place; a missing old segment ends the removal.
   */
  ghost predicate Finished(ok: bool, gen: u64, olds: seq<u64>, s: Snapshot, s': Snapshot) {
    && gen in s.at.disk.segments
    && var reopened := OpenSegment(s.at.disk.segments[gen], gen);
       if reopened.Err? then
         !ok && s'.v == s.v && Did([Remove(Segment(gen)), Remove(Marker)], s.at, s'.at)
       else if gen == U64_MAX then !ok && s' == s
       else
         var n := Removable(olds, s.at.disk.segments);
         && s'.v == s.v.(readers := [reopened.value], next := gen + 1)
         && (ok <==> n == |olds|)
         && Did(RemoveSegments(olds[..n]) + if ok then [Remove(Marker)] else [], s.at, s'.at)
  }

  function StatsOf(b: BuildStats): CompactionStats {
    CompactionStats(b.segmentsRead, b.recordsBefore, b.liveRecordsAfter, b.bytesBefore, b.bytesAfter)
  }

  /** Both halves. */
  ghost predicate Merged(res: Result<CompactionStats>, s: Snapshot, s': Snapshot) {
    exists switched, mid ::
      && Switched(switched, CompactionOf(s.v), s.at, mid)
      && match switched
         case Err(_) => res.Err? && s' == Snapshot(s.v, mid)
         case Ok(b) =>
           && Finished(res.Ok?, s.v.next, Generations(s.v.readers), Snapshot(s.v, mid), s')
           && (res.Ok? ==> res.value == StatsOf(b))
  }

  ghost predicate MergedIfUseful(res: Result<CompactionStats>, s: Snapshot, s': Snapshot) {
    if |s.v.readers| < 2 then res == Ok(CompactionStats(0, 0, 0, 0, 0)) && s' == s else Merged(res, s, s')
  }

  /** `compact`: flush what is unflushed, and merge when there is more than one segment. */
  ghost predicate Compacted(res: Result<CompactionStats>, s: Snapshot, s': Snapshot) {
    if s.v.mem.table == map[] then MergedIfUseful(res, s, s')
    else
      exists flushed, mid ::
        && Flushed(flushed, s, mid)
        && if flushed then MergedIfUseful(res, mid, s') else res.Err? && s' == mid
  }

  // ---------- the calls of a flush, one after the other ----------

  lemma FlushInstalls(v: Volatile, d: Disk)
    ensures var file := FlushFile(v);
            Apply(Install(v.next), d.(temps := d.temps[v.next := file]))
            == d.(segments := d.segments[v.next := file], temps := d.temps - {v.next})
  {
    hide FlushFile;
    assert d.temps[v.next := FlushFile(v)] - {v.next} == d.temps - {v.next};
  }

  /** Build, installation and, with generations left, truncation make the flush. */
  lemma FlushMade(v: Volatile, start: Trace, end: Trace)
    requires var installed := Apply(Install(v.next), start.disk.(temps := start.disk.temps[v.next := FlushFile(v)]));
             end.disk == if v.next < U64_MAX then installed.(wal := []) else installed
    requires var log := start.log + BuildPlan(v.next, FlushFile(v), start.disk) + [Install(v.next)];
             end.log == if v.next < U64_MAX then log + [WalSetLen(0)] else log
    ensures Did(FlushPlan(v, start.disk), start, end)
  {
    hide FlushFile, BuildPlan, Run;
    FlushInstalls(v, start.disk);
    FlushPlanEnds(v, start.disk);
    FlushCalls(v, start.disk, start.log);
  }

  lemma FlushCalls(v: Volatile, d: Disk, log: seq<Effect>)
    ensures var installed := log + BuildPlan(v.next, FlushFile(v), d) + [Install(v.next)];
            log + FlushPlan(v, d) == if v.next < U64_MAX then installed + [WalSetLen(0)] else installed
  {
    hide FlushFile, BuildPlan;
  }

  // ---------- the calls of the switch, one after the other ----------

  /** `compact` removes a stale temporary file before it reads its inputs. */
  lemma ClearedTemp(gen: u64, start: Trace, cleared: Trace)
    requires var e := Remove(TempSegment(gen));
             cleared == if Exists(start.disk, e.file) then Trace(Apply(e, start.disk), start.log + [e]) else start
    ensures Did(RemoveIfThere(TempSegment(gen), start.disk), start, cleared)
    ensures cleared.disk == start.disk.(temps := start.disk.temps - {gen})
    ensures cleared.log == start.log + RemoveIfThere(TempSegment(gen), start.disk)
  {
    hide Did;
    DidNothing(start);
    DidOne(Remove(TempSegment(gen)), start);
    if !Exists(start.disk, TempSegment(gen)) {
      assert start.disk.temps - {gen} == start.disk.temps;
    }
  }

  /** So the removal before the build finds nothing, and together they make the build plan. */
  lemma BuiltAfterClearing(gen: u64, file: Bytes, start: Trace, cleared: Trace, built: Trace)
    requires cleared.disk == start.disk.(temps := start.disk.temps - {gen})
    requires cleared.log == start.log + RemoveIfThere(TempSegment(gen), start.disk)
    requires built.log == cleared.log + BuildPlan(gen, file, cleared.disk)
    requires built.disk == cleared.disk.(temps := cleared.disk.temps[gen := file])
    ensures built.log == start.log + BuildPlan(gen, file, start.disk)
    ensures built.disk == start.disk.(temps := start.disk.temps[gen := file])
  {
    var writes := [Create(TempSegment(gen)), AppendTo(TempSegment(gen), file)];
    assert RemoveIfThere(TempSegment(gen), cleared.disk) + writes == writes;
    assert cleared.log + writes == start.log + (RemoveIfThere(TempSegment(gen), start.disk) + writes);
    assert (start.disk.temps - {gen})[gen := file] == start.disk.temps[gen := file];
  }

  lemma PartlyAfterClearing(gen: u64, start: Trace, cleared: Trace, built: Trace)
    requires cleared.disk == start.disk.(temps := start.disk.temps - {gen})
    requires cleared.log == start.log + RemoveIfThere(TempSegment(gen), start.disk)
    requires PartlyBuilt(gen, cleared, built)
    ensures PartlyBuilt(gen, start, built)
  {
    hide BuildPlan, RemoveIfThere;
    BuiltAfterClearing(gen, built.disk.temps[gen], start, cleared, built);
  }

  /** A marker was there: the output is built and taken back. */
  lemma BuildTakenBack(gen: u64, file: Bytes, start: Trace, built: Trace, end: Trace)
    requires built.log == start.log + BuildPlan(gen, file, start.disk)
    requires built.disk == start.disk.(temps := start.disk.temps[gen := file])
    requires var e := Remove(TempSegment(gen)); end == Trace(Apply(e, built.disk), built.log + [e])
    ensures Did(BuildPlan(gen, file, start.disk) + [Remove(TempSegment(gen))], start, end)
  {
    hide BuildPlan, Run, Apply;
    BuildEnds(gen, file, start.disk);
    DidOne(Remove(TempSegment(gen)), built);
    DidThen(BuildPlan(gen, file, start.disk), [Remove(TempSegment(gen))], start, built, end);
  }

  /** Build, marker and installation make the switch. */
  lemma SwitchMade(m: CompactionMarker, file: Bytes, start: Trace, built: Trace, end: Trace)
    requires built.log == start.log + BuildPlan(m.output, file, start.disk)
    requires built.disk == start.disk.(temps := start.disk.temps[m.output := file])
    requires end.log == built.log + MarkerPlan(m, built.disk) + [Install(m.output)]
    requires end.disk == Apply(Install(m.output), built.disk.(marker := Some(MarkerBytes(m)), tempMarker := None))
    ensures Did(SwitchPlan(m, file, start.disk), start, end)
    ensures m.output in end.disk.segments
  {
    hide BuildPlan, MarkerPlan, MarkerBytes, Run;
    SameMarkerPlan(m, start.disk, built.disk);
    SwitchPlanEnds(m, file, start.disk);
    var g := m.output;
    assert start.disk.temps[g := file] - {g} == start.disk.temps - {g};
    calc {
      end.log;
      start.log + BuildPlan(g, file, start.disk) + MarkerPlan(m, start.disk) + [Install(g)];
      start.log + (BuildPlan(g, file, start.disk) + MarkerPlan(m, start.disk)) + [Install(g)];
      start.log + SwitchPlan(m, file, start.disk);
    }
  }

  // ---------- verifying, in any state ----------

  /** The loop of `verify` over the segments, newest first. */
  function CheckReaders(readers: seq<Reader>, previous: Option<u64>, count: u64): Result<u64>
    requires AllSane(readers)
    decreases |readers|
  {
    if readers == [] then Ok(count)
    else if previous.Some? && readers[0].gen >= previous.value then
      Err(InvalidSegmentFile("invalid segment generation order"))
    else
      match ReadAllFrom(readers[0], HEADER_SIZE)
      case Err(e) => Err(e)
      case Ok(rs) =>
        if count + |rs| > U64_MAX then Err(Other("verify record count overflow"))
        else CheckReaders(readers[1..], Some(readers[0].gen), count + |rs|)
  }

  /** `verify`: the log first, then the segments. */
  function Verified(v: Volatile, wal: Bytes): Result<VerifyStats>
    requires AllSane(v.readers)
  {
    match Wal.Scan(wal)
    case Err(e) => Err(e)
    case Ok((rs, _)) =>
      match CheckReaders(v.readers, None, 0)
      case Err(e) => Err(e)
      case Ok(count) => Ok(VerifyStats(|rs|, |v.readers|, count))
  }

  // ---------- between operations ----------

  /**
   * What a method that performs `op` promises between operations, with room for the segments to be written: it makes
   * exactly the calls of the plan, whatever it returns; it succeeds unless a generation number runs out; and when it
   * succeeds the process is in the planned state.
   */
  ghost predicate Performed(op: StoreOp, ok: bool, s: Snapshot, s': Snapshot) {
    Idle(s.v, s.at.disk) && Accepts(op) && Room(op, s.v) ==>
      && Did(OpPlan(op, s.v, s.at.disk), s.at, s'.at)
      && (ok <==> Completes(op, s.v))
      && (ok ==> s'.v == OpVolatile(op, s.v))
  }

  /** A method that performs an operation makes a step of the run: acknowledged or, when it errs, cut off. */
  lemma PerformedIsAStep(op: StoreOp, ok: bool, s: Snapshot, s': Snapshot)
    requires Performed(op, ok, s, s')
    requires Idle(s.v, s.at.disk) && Accepts(op) && Room(op, s.v)
    ensures ok ==> Step(Up(s.v, s.at.disk), Acknowledged(op), Up(s'.v, s'.at.disk))
    ensures !ok ==> Step(Up(s.v, s.at.disk), Interrupted(op), Down(s'.at.disk))
  {
    hide Idle, Accepts, Room, OpPlan, OpVolatile, Completes, Run;
    RunIsCrashState(OpPlan(op, s.v, s.at.disk), s.at.disk);
  }

  /** Dying anywhere among the calls that the method makes is an interrupted step of the run. */
  lemma DyingIsAStep(op: StoreOp, ok: bool, s: Snapshot, s': Snapshot, left: Disk)
    requires Performed(op, ok, s, s')
    requires Idle(s.v, s.at.disk) && Accepts(op) && Room(op, s.v)
    ensures s.at.log <= s'.at.log
    ensures CrashState(s'.at.log[|s.at.log|..], s.at.disk, left) ==>
              Step(Up(s.v, s.at.disk), Interrupted(op), Down(left))
  {
    hide Idle, Accepts, Room, OpPlan, OpVolatile, Completes, Run, CrashState;
    assert s'.at.log[|s.at.log|..] == OpPlan(op, s.v, s.at.disk);
  }

  /** An open that completes makes a step of the run. */
  lemma OpeningIsAStep(d: Disk, order: seq<u64>, v: Volatile, threshold: u64)
    requires DiskInv(d) && OpenOk(d) && TempOrder(order, d) && Opened(v, d, threshold)
    ensures Step(Down(d), OpenDone(threshold, order), Up(v, OpenedDisk(d)))
  {
    hide DiskInv, OpenOk, TempOrder, Opened, OpenPlan, Run, Wal.Scan, OpenedDisk;
    OpenIsSafe(d, order);
  }

  /** An open that dies anywhere among its calls makes a step of the run, and so does one that returns an error. */
  lemma FailedOpeningIsAStep(d: Disk, order: seq<u64>, left: Disk)
    requires DiskInv(d) && TempOrder(order, d)
    requires CrashState(OpenAttempt(d, order), d, left) || (!OpenOk(d) && left == AttemptedDisk(d))
    ensures Step(Down(d), OpenInterrupted(order), Down(left))
  {
    hide DiskInv, OpenOk, TempOrder, RecoverPlan, Run, Wal.Scan, RecoverOk, CrashState, RemoveTemps, Wal.CutPlan;
    RecoveryIsPossible(d);
    var front := RecoverPlan(d) + RemoveTemps(order);
    var back := if Wal.Scan(d.wal).Ok? then Wal.CutPlan(d.wal, Wal.Scan(d.wal).value.1) else [];
    if !OpenOk(d) {
      RefusedAfterClearing(d, order);
      RunIsCrashState(front, d);
      CrashPrefix(front, back, d, left);
    }
  }

  /** A refused open of a sound directory has recovered and removed the temporary files. */
  lemma RefusedAfterClearing(d: Disk, order: seq<u64>)
    requires DiskInv(d) && TempOrder(order, d) && !OpenOk(d)
    ensures AttemptedDisk(d) == Run(RecoverPlan(d) + RemoveTemps(order), d)
  {
    hide DiskInv, OpenOk, RecoverPlan, Run, RecoverOk, RemoveTemps, Surviving, RecoveredTemps, Logical, CrashSafe;
    RecoveryIsPossible(d);
    RecoverIsSafe(d);
    RunConcat(RecoverPlan(d), RemoveTemps(order), d);
    RemoveTempsEnds(order, RecoveredDisk(d));
    assert RecoveredTemps(d) - GenSet(order) == map[];
  }

  // ---------- from any state to between operations: writing ----------

  /** What holds when a set or delete goes on to flush. */
  lemma BeforeFlush(op: StoreOp, v: Volatile, d: Disk)
    requires Idle(v, d) && !op.CompactOp? && Accepts(op) && Room(op, v) && Flushes(Logged(v, OpRecord(op)))
    ensures var logged := Logged(v, OpRecord(op));
            logged.mem.table != map[] && FlushFits(logged) && logged.next == v.next
  {
    hide Frame, Idle, TableFits, Encodable, Sorted, Writable, Storable;
    var r := OpRecord(op);
    OpRecordIsWellFormed(op);
    LoggedIsIdle(v, d, r);
    FlushRecordsAreStorable(Logged(v, r), LoggedDisk(d, r));
    assert Writable(Sorted(Logged(v, r).mem.table)) by { StorableIsWritable(Sorted(Logged(v, r).mem.table)); }
    assert r.key in Logged(v, r).mem.table;
  }

  lemma StorableIsWritable(rs: seq<Record>)
    requires Storable(rs)
    ensures Writable(rs)
  {
    hide Writable;
  }

  /** Between operations a set or a delete follows its plan. */
  lemma WrittenIsPerformed(op: StoreOp, ok: bool, s: Snapshot, s': Snapshot)
    requires !op.CompactOp? && Written(op, ok, s, s')
    ensures Performed(op, ok, s, s')
  {
    hide Frame, Idle, Room, Accepts, OpRecord, FlushPlan, FlushFits, FlushedVolatile, Logged, LoggedDisk, Flushes, Did;
    if Idle(s.v, s.at.disk) && Accepts(op) && Room(op, s.v) {
      var r := OpRecord(op);
      var logged, first := AfterLog(s, r), [WalAppend(Frame(r))];
      LoggedTrace(s, r);
      if Flushes(logged.v) {
        BeforeFlush(op, s.v, s.at.disk);
        DidThen(first, FlushPlan(logged.v, logged.at.disk), s.at, logged.at, s'.at);
      } else {
        assert first + [] == first;
      }
    }
  }

  lemma LoggedTrace(s: Snapshot, r: Record)
    ensures Did([WalAppend(Frame(r))], s.at, AfterLog(s, r).at)
  {
    hide Frame, Did;
    DidOne(WalAppend(Frame(r)), s.at);
  }

  // ---------- from any state to between operations: compacting ----------

  lemma {:induction false} AllRemovable(gens: seq<u64>, segments: map<u64, Bytes>)
    requires Distinct(gens) && forall g :: g in gens ==> g in segments
    ensures Removable(gens, segments) == |gens|
    decreases |gens|
  {
    if gens != [] {
      assert forall g :: g in gens[1..] ==> g in gens && g != gens[0];
      AllRemovable(gens[1..], segments - {gens[0]});
    }
  }

  /** The removal goes on until a generation that is missing: never there, or listed and removed before. */
  lemma {:induction false} RemovableStopsAtMissing(gens: seq<u64>, segments: map<u64, Bytes>)
    ensures var n := Removable(gens, segments);
            && (forall i :: 0 <= i < n ==> gens[i] in segments && gens[i] !in gens[..i])
            && (n < |gens| ==> gens[n] !in segments || gens[n] in gens[..n])
    decreases |gens|
  {
    if gens != [] && gens[0] in segments {
      var rest, below := gens[1..], segments - {gens[0]};
      var n := Removable(gens, segments);
      RemovableStopsAtMissing(rest, below);
      forall i | 0 < i < n
        ensures gens[i] in segments && gens[i] !in gens[..i]
      {
        assert gens[i] == rest[i - 1] && gens[..i] == [gens[0]] + rest[..i - 1];
      }
      if n < |gens| {
        assert gens[n] == rest[n - 1] && gens[..n] == [gens[0]] + rest[..n - 1];
      }
    }
  }

  /** What a merge finds between operations. */
  lemma MergeCase(v: Volatile, d: Disk)
    requires Mergeable(v, d)
    ensures var olds, rs := Generations(v.readers), MergedRecords(v);
            && d.marker.None?
            && MergeInto(map[], d.segments, Reverse(olds)) == Ok(ReadersTable(v.readers))
            && Writable(rs) && TableFits(WithoutTombstones(ReadersTable(v.readers)))
            && OpenSegment(SegmentBytes(rs), v.next) == Ok(ReaderOf(rs, v.next))
            && Removable(olds, d.segments[v.next := SegmentBytes(rs)]) == |olds|
  {
    hide TableFits, Sorted, Writable, WithoutTombstones, ReadersTable, SegmentBytes, MergeInto, OpenSegment, IndexOf;
    hide IndexOffset, Storable, MergedRecords, Generations, GenSet, Distinct, Removable;
    IdleParts(v, d);
    CompactionIsWellFormed(v, d);
    MergedRecordsAreStorable(v, d);
    StorableIsWritable(MergedRecords(v));
    WrittenSegmentOpens(MergedRecords(v), v.next);
    MergeIsOverlay(v.readers, d.segments);
    InGenSet(Generations(v.readers));
    AllRemovable(Generations(v.readers), d.segments[v.next := SegmentBytes(MergedRecords(v))]);
  }

  function MergeStats(v: Volatile, d: Disk): CompactionStats {
    StatsOf(BuildStatsOf(d.segments, Reverse(Generations(v.readers)), WithoutTombstones(ReadersTable(v.readers))))
  }

  /** Between operations the switch is always made. */
  lemma SwitchedBetween(res: Result<BuildStats>, v: Volatile, t: Trace, t': Trace)
    requires Mergeable(v, t.disk) && Switched(res, CompactionOf(v), t, t')
    ensures res.Ok? && StatsOf(res.value) == MergeStats(v, t.disk)
    ensures Did(SwitchPlan(CompactionOf(v), SegmentBytes(MergedRecords(v)), t.disk), t, t')
    ensures t'.disk == SwitchedDisk(t.disk, CompactionOf(v), SegmentBytes(MergedRecords(v)))
  {
    hide Mergeable, Sorted, SegmentBytes, Writable, TableFits, WithoutTombstones, ReadersTable, MergeInto, Removable;
    hide OpenSegment, Generations, BuildStatsOf, SwitchPlan, SwitchedDisk, BuildPlan, PartlyBuilt;
    MergeCase(v, t.disk);
    SwitchPlanEnds(CompactionOf(v), SegmentBytes(MergedRecords(v)), t.disk);
  }

  /** Between operations a merge follows its plan, and reports what it read and wrote. */
  lemma MergedBetween(res: Result<CompactionStats>, s: Snapshot, s': Snapshot)
    requires Mergeable(s.v, s.at.disk) && Merged(res, s, s')
    ensures Did(MergePlan(s.v, s.at.disk), s.at, s'.at)
    ensures res.Ok? <==> s.v.next < U64_MAX
    ensures res.Ok? ==> s'.v == MergedVolatile(s.v) && res.value == MergeStats(s.v, s.at.disk)
  {
    hide Mergeable, SegmentBytes, MergedRecords, Switched, OpenSegment, Generations, SwitchPlan, Did, RemoveSegments;
    hide Removable, MergeStats, StatsOf, ReaderOf, TableFits, Writable, MergeInto, MarkerBytes, WithoutTombstones;
    var v, d := s.v, s.at.disk;
    var switched, mid :| Switched(switched, CompactionOf(v), s.at, mid)
      && match switched
         case Err(_) => res.Err? && s' == Snapshot(v, mid)
         case Ok(b) =>
           && Finished(res.Ok?, v.next, Generations(v.readers), Snapshot(v, mid), s')
           && (res.Ok? ==> res.value == StatsOf(b));
    MergeCase(v, d);
    SwitchedBetween(switched, v, s.at, mid);
    var plan := SwitchPlan(CompactionOf(v), SegmentBytes(MergedRecords(v)), d);
    if v.next < U64_MAX {
      var olds := Generations(v.readers);
      assert olds[..|olds|] == olds;
      DidThen(plan, RemoveSegments(olds) + [Remove(Marker)], s.at, mid, s'.at);
    } else {
      assert plan + [] == plan;
    }
  }

  /**
   * An output that does not open is taken back safely: wherever the process dies in it, once the first call is made
   * recovery succeeds and keeps exactly the old segments; and until then nothing has changed.
   */
  lemma TakingBackKeepsOldSegments(ok: bool, m: CompactionMarker, s: Snapshot, s': Snapshot, left: Disk)
    requires Finished(ok, m.output, m.olds, s, s')
    requires OpenSegment(s.at.disk.segments[m.output], m.output).Err?
    requires s.at.disk.marker == Some(MarkerBytes(m)) && WellFormedMarker(m)
    requires forall g :: g in m.olds ==> g in s.at.disk.segments
    ensures !ok && s'.v == s.v && s.at.log <= s'.at.log
    ensures CrashState(s'.at.log[|s.at.log|..], s.at.disk, left) ==>
              || left == s.at.disk
              || (RecoverOk(left) && Surviving(left) == s.at.disk.segments - {m.output})
  {
    hide MarkerBytes, ParseMarker, OpenSegment, Run;
    var e, f, d := Remove(Segment(m.output)), Remove(Marker), s.at.disk;
    assert s'.at.log[|s.at.log|..] == [e, f];
    MarkerReadsBack(m);
    OutputIsNew(m);
    if CrashState([e, f], d, left) {
      assert [e, f][1..] == [f] && [f][1..] == [];
      assert CrashState([e, f], d, left) <==> left == d || left == Apply(e, d) || CrashState([f], Apply(e, d), left);
      assert CrashState([f], Apply(e, d), left) <==> left == Apply(e, d) || left == Apply(f, Apply(e, d));
    }
  }

  /** A switch that fails has changed no segment, no marker and no log, and one that finds a marker leaves no output. */
  lemma FailedSwitchChangesNothing(res: Result<BuildStats>, m: CompactionMarker, t: Trace, t': Trace)
    requires Switched(res, m, t, t') && res.Err?
    ensures t'.disk.segments == t.disk.segments && t'.disk.marker == t.disk.marker && t'.disk.wal == t.disk.wal
    ensures
      var merged := MergeInto(map[], t.disk.segments, Reverse(m.olds));
      merged.Ok? && t.disk.marker.Some?
      && Writable(Sorted(WithoutTombstones(merged.value))) && TableFits(WithoutTombstones(merged.value)) ==>
        m.output !in t'.disk.temps
  {
    hide MergeInto, Sorted, WithoutTombstones, Writable, TableFits, SegmentBytes, BuildPlan, Run, Reverse;
    hide RemoveIfThere;
    RemoveIfThereIsQuiet(TempSegment(m.output), t.disk);
    var merged := MergeInto(map[], t.disk.segments, Reverse(m.olds));
    if merged.Ok? {
      var file := SegmentBytes(Sorted(WithoutTombstones(merged.value)));
      BuildEnds(m.output, file, t.disk);
      RunConcat(BuildPlan(m.output, file, t.disk), [Remove(TempSegment(m.output))], t.disk);
      RunOne(Remove(TempSegment(m.output)), t.disk.(temps := t.disk.temps[m.output := file]));
    }
  }

  /** A flush that fails gives up neither the memtable nor the log. */
  lemma FailedFlushKeepsData(s: Snapshot, s': Snapshot)
    requires Flushed(false, s, s')
    ensures s'.v.mem == s.v.mem && s'.at.disk.wal == s.at.disk.wal
    ensures forall g :: g in s.at.disk.segments && g != s.v.next ==>
              g in s'.at.disk.segments && s'.at.disk.segments[g] == s.at.disk.segments[g]
  {
    hide FlushPlan, Run, FlushFile, BuildPlan, FlushFits, ReaderOf, FlushedVolatile;
    FlushPlanEnds(s.v, s.at.disk);
  }

  /** What a compaction finds: the flush, if there is one, can be made, and the merge starts between operations. */
  lemma CompactCase(v: Volatile, d: Disk)
    requires Idle(v, d) && Room(CompactOp, v)
    ensures v.mem.table != map[] ==> FlushFits(v)
    ensures v.mem.table != map[] && v.next < U64_MAX ==>
              && Idle(FlushedVolatile(v), FlushedDisk(v, d))
              && Run(FlushPlan(v, d), d) == FlushedDisk(v, d)
              && MergeFits(FlushedVolatile(v))
    ensures v.mem.table == map[] ==> MergeFits(v)
  {
    hide Idle, TableFits, Sorted, Writable, WithoutTombstones, ReadersTable, FlushPlan, FlushedVolatile, FlushedDisk;
    hide SegmentBytes;
    if v.mem.table == map[] {
      assert ReadersTable(v.readers) + map[] == ReadersTable(v.readers);
    } else {
      FlushRecordsAreStorable(v, d);
      StorableIsWritable(Sorted(v.mem.table));
      if v.next < U64_MAX {
        FlushedIsIdle(v, d);
        FlushPlanEnds(v, d);
        FlushedReadersTable(v, d);
        FlushedIsNext(v);
      }
    }
  }

  lemma MergedIfUsefulBetween(res: Result<CompactionStats>, s: Snapshot, s': Snapshot)
    requires Idle(s.v, s.at.disk) && MergeFits(s.v)
    requires MergedIfUseful(res, s, s')
    ensures Did(MergeIfUseful(s.v, s.at.disk), s.at, s'.at)
    ensures res.Ok? <==> |s.v.readers| < 2 || s.v.next < U64_MAX
    ensures res.Ok? ==> s'.v == (if |s.v.readers| < 2 then s.v else MergedVolatile(s.v))
    ensures res.Ok? ==> res.value == MergeIfUsefulStats(s.v, s.at.disk)
  {
    hide Idle, TableFits, WithoutTombstones, ReadersTable, Merged, MergePlan, MergedVolatile, MergeStats, Did;
    if |s.v.readers| < 2 {
      DidNothing(s.at);
    } else {
      MergedBetween(res, s, s');
    }
  }

  function MergeIfUsefulStats(v: Volatile, d: Disk): CompactionStats {
    if |v.readers| < 2 then CompactionStats(0, 0, 0, 0, 0) else MergeStats(v, d)
  }

  /** What a compaction reports. */
  function CompactStats(v: Volatile, d: Disk): CompactionStats
    requires v.mem.table == map[] || v.next < U64_MAX
  {
    if v.mem.table == map[] then MergeIfUsefulStats(v, d)
    else MergeIfUsefulStats(FlushedVolatile(v), FlushedDisk(v, d))
  }

  /** Between operations a compaction follows its plan, and reports what it read and wrote. */
  lemma CompactedIsPerformed(res: Result<CompactionStats>, s: Snapshot, s': Snapshot)
    requires Compacted(res, s, s')
    ensures Performed(CompactOp, res.Ok?, s, s')
    ensures Idle(s.v, s.at.disk) && Room(CompactOp, s.v) && res.Ok? ==> res.value == CompactStats(s.v, s.at.disk)
  {
    hide Idle, Room, FlushPlan, MergeIfUseful, MergedVolatile, FlushedDisk, FlushFits, Did, MergedIfUseful, TableFits;
    hide MergeIfUsefulStats, ReadersTable, WithoutTombstones;
    var v, d := s.v, s.at.disk;
    if Idle(v, d) && Room(CompactOp, v) {
      CompactCase(v, d);
      if v.mem.table == map[] {
        MergedIfUsefulBetween(res, s, s');
      } else {
        var flushed, mid :| Flushed(flushed, s, mid)
          && if flushed then MergedIfUseful(res, mid, s') else res.Err? && s' == mid;
        if flushed {
          DiskAfter(FlushPlan(v, d), s.at, mid.at);
          MergedIfUsefulBetween(res, mid, s');
          DidThen(FlushPlan(v, d), MergeIfUseful(mid.v, mid.at.disk), s.at, mid.at, s'.at);
          FlushedIsNext(v);
        } else {
          assert FlushPlan(v, d) + [] == FlushPlan(v, d);
        }
      }
    }
  }

  lemma DiskAfter(plan: seq<Effect>, t: Trace, t': Trace)
    requires Did(plan, t, t')
    ensures t'.disk == Run(plan, t.disk)
  {
    hide Run;
  }

  /**
   * The live records that a compaction reports are the keys of the map, and, unless the count of records read
   * overflowed, no more than that count.
   */
  lemma CompactReportsTheMap(v: Volatile, d: Disk)
    requires Idle(v, d) && Room(CompactOp, v) && Completes(CompactOp, v)
    ensures var stats := CompactStats(v, d);
            stats.segmentsMerged > 0 ==>
              && stats.liveRecordsAfter == |Logical(d)|
              && (stats.recordsBefore < U64_MAX ==> stats.liveRecordsAfter <= stats.recordsBefore)
  {
    hide Idle, Room, FlushPlan, MergedVolatile, FlushedDisk, FlushedVolatile, TableFits, ReadersTable, Logical, DiskInv;
    hide MergeIfUsefulStats, WithoutTombstones, CrashSafe, Run, Writable, Sorted;
    CompactCase(v, d);
    if v.mem.table == map[] {
      MergeReportsTheMap(v, d);
    } else {
      FlushIsSafe(v, d);
      assert FlushedVolatile(v).mem.table == map[] by { FlushedIsEmpty(v); }
      MergeReportsTheMap(FlushedVolatile(v), FlushedDisk(v, d));
    }
  }

  lemma FlushedIsEmpty(v: Volatile)
    requires v.next < U64_MAX
    ensures FlushedVolatile(v).mem.table == map[]
  {
    hide Sorted, ReaderOf;
  }

  lemma MergeReportsTheMap(v: Volatile, d: Disk)
    requires Idle(v, d) && v.mem.table == map[]
    ensures var stats := MergeIfUsefulStats(v, d);
            stats.segmentsMerged > 0 ==>
              && stats.liveRecordsAfter == |Logical(d)|
              && (stats.recordsBefore < U64_MAX ==> stats.liveRecordsAfter <= stats.recordsBefore)
  {
    hide DiskInv, WalTable, Loaded, Wal.Scan, ReadersTable, WithoutTombstones, RecordCount, ByteCount, MergeInto;
    hide Generations, SegmentBytes, Sorted, Layered, Live, SegmentsInv;
    var t := ReadersTable(v.readers);
    IdleParts(v, d);
    LoadedIsLayered(v.readers, d.segments);
    assert t + map[] == t;
    LiveCounts(t);
    assert forall i :: 0 <= i < |v.readers| ==> IsReaderOf(v.readers[i], d.segments) by {
      LoadedAreReaders(v.readers, d.segments);
    }
    MergeIsOverlay(v.readers, d.segments);
    MergeKeepsAtMost(map[], d.segments, Reverse(Generations(v.readers)));
  }

  lemma LoadedAreReaders(readers: seq<Reader>, segments: map<u64, Bytes>)
    requires Loaded(readers, segments)
    ensures forall i :: 0 <= i < |readers| ==> IsReaderOf(readers[i], segments)
  {
    hide IsReaderOf, Reads;
  }

  lemma LiveCounts(t: Table)
    ensures |Live(t)| == |WithoutTombstones(t)|
  {
    assert Live(t).Keys == WithoutTombstones(t).Keys;
  }

  // ---------- what a compaction reports ----------

  function AtMostU64(n: nat): nat {
    if n <= 0xFFFF_FFFF_FFFF_FFFF then n else 0xFFFF_FFFF_FFFF_FFFF
  }

  /**
   * The report of a merge, told from the two directories: how many segments there were, how many records and bytes they
   * held, counted up to 2^64 - 1, how many keys the map has, and how long the one file is that is there now.
   */
  ghost predicate Reports(stats: CompactionStats, before: map<u64, Bytes>, lists: map<u64, seq<Record>>,
                          view: View, after: map<u64, Bytes>) {
    && stats.segmentsMerged == |before|
    && stats.recordsBefore == AtMostU64(Sum(Counts(lists)))
    && stats.bytesBefore == AtMostU64(Sum(Lengths(before)))
    && stats.liveRecordsAfter == |view|
    && |after| == 1 && forall g :: g in after ==> |after[g]| == stats.bytesAfter
  }

  lemma {:induction false} AsManyReaders(readers: seq<Reader>, segments: map<u64, Bytes>)
    requires Loaded(readers, segments)
    ensures |readers| == |segments|
    decreases |readers|
  {
    hide Loaded, IsReaderOf;
    if readers == [] {
      LoadedNothing(segments);
    } else {
      var g := readers[0].gen;
      LoadedRest(readers, segments);
      ReaderHasFile(readers[0], segments);
      AsManyReaders(readers[1..], segments - {g});
      assert (segments - {g}).Keys == segments.Keys - {g};
      assert |(segments - {g}).Keys| == |segments.Keys| - 1;
    }
  }

  /** A merge between operations reports what it found and what it left. */
  lemma MergeReports(res: Result<CompactionStats>, s: Snapshot, s': Snapshot, lists: map<u64, seq<Record>>)
    requires Mergeable(s.v, s.at.disk) && Merged(res, s, s') && res.Ok?
    requires s.v.mem.table == map[] && Holds(s.at.disk.segments, lists)
    ensures Reports(res.value, s.at.disk.segments, lists, Logical(s.at.disk), s'.at.disk.segments)
  {
    hide Mergeable, Merged, MergePlan, Did, Logical, Holds, MergeStats, Sum, Counts, Lengths, MergedRecords,
      SegmentBytes;
    var v, d := s.v, s.at.disk;
    MergedBetween(res, s, s');
    MergePlanEnds(v, d);
    DiskAfter(MergePlan(v, d), s.at, s'.at);
    assert s'.at.disk.segments == map[v.next := SegmentBytes(MergedRecords(v))];
    MergeCounts(v, d, lists);
    assert |s'.at.disk.segments.Keys| == 1 by { assert s'.at.disk.segments.Keys == {v.next}; }
  }

  lemma MergeCounts(v: Volatile, d: Disk, lists: map<u64, seq<Record>>)
    requires Mergeable(v, d) && v.mem.table == map[] && Holds(d.segments, lists)
    ensures var stats := MergeStats(v, d);
            && stats.segmentsMerged == |d.segments|
            && stats.recordsBefore == AtMostU64(Sum(Counts(lists)))
            && stats.bytesBefore == AtMostU64(Sum(Lengths(d.segments)))
            && stats.liveRecordsAfter == |Logical(d)|
            && stats.bytesAfter == |SegmentBytes(MergedRecords(v))|
  {
    hide Logical, Holds, Sum, Counts, Lengths, SegmentBytes, Generations, RecordCount, ByteCount, Idle, ReadersTable;
    hide WithoutTombstones, Sorted, TableFits, Distinct, GenSet, Reverse, Loaded, DiskInv, WalTable, Wal.Scan,
      MergeStats;
    var order := Reverse(Generations(v.readers));
    IdleParts(v, d);
    assert Above(v.next, d.segments) by { IdleIsAbove(v, d); }
    assert Distinct(order) && GenSet(order) == d.segments.Keys by { MergeOrder(v, d); }
    AsManyReaders(v.readers, d.segments);
    ByteCountIsSum(d.segments, d.segments, order);
    RecordCountIsSum(d.segments, lists, d.segments, order);
    MergeReportsTheMap(v, d);
    MergeStatsAre(v, d);
  }

  lemma MergeStatsAre(v: Volatile, d: Disk)
    ensures var stats, order := MergeStats(v, d), Reverse(Generations(v.readers));
            && stats.segmentsMerged == |v.readers|
            && stats.recordsBefore == AtMostU64(RecordCount(d.segments, order))
            && stats.bytesBefore == AtMostU64(ByteCount(d.segments, order))
            && stats.bytesAfter == |SegmentBytes(MergedRecords(v))|
  {
    hide RecordCount, ByteCount, SegmentBytes, Sorted, WithoutTombstones, ReadersTable;
  }

  lemma IdleIsAbove(v: Volatile, d: Disk)
    requires Idle(v, d)
    ensures Above(v.next, d.segments)
  {
    hide DiskInv, WalTable, Loaded, Wal.Scan;
  }

  lemma MergeOrder(v: Volatile, d: Disk)
    requires Loaded(v.readers, d.segments) && |v.readers| >= 2 && Above(v.next, d.segments)
    ensures Distinct(Reverse(Generations(v.readers))) && GenSet(Reverse(Generations(v.readers))) == d.segments.Keys
  {
    hide Generations, Loaded, GenSet, Reverse;
    CompactionIsWellFormed(v, d);
    ReverseKeeps(Generations(v.readers));
  }

  /** The directory that a compaction merges: with a memtable to flush, the flushed segment is there too. */
  function BeforeMerge(v: Volatile, d: Disk): map<u64, Bytes> {
    if v.mem.table == map[] then d.segments else d.segments[v.next := FlushFile(v)]
  }

  /** A compaction between operations reports what it merged and what it left, or nothing when it merged nothing. */
  lemma CompactReports(res: Result<CompactionStats>, s: Snapshot, s': Snapshot, lists: map<u64, seq<Record>>)
    requires Idle(s.v, s.at.disk) && Room(CompactOp, s.v) && Compacted(res, s, s') && res.Ok?
    requires Holds(BeforeMerge(s.v, s.at.disk), lists)
    ensures if |BeforeMerge(s.v, s.at.disk)| < 2 then
              res.value == CompactionStats(0, 0, 0, 0, 0) && s'.at.disk.segments == BeforeMerge(s.v, s.at.disk)
            else
              Reports(res.value, BeforeMerge(s.v, s.at.disk), lists, Logical(s.at.disk), s'.at.disk.segments)
  {
    hide Idle, Room, Logical, Holds, Merged, Reports, FlushFile, FlushPlan, TableFits, ReadersTable, Did, Sorted,
      Writable;
    hide WithoutTombstones, FlushedVolatile, DiskInv, CrashSafe, Run;
    var v, d := s.v, s.at.disk;
    CompactCase(v, d);
    if v.mem.table == map[] {
      UsefulReports(res, s, s', lists);
    } else {
      var flushed, mid :| Flushed(flushed, s, mid)
        && if flushed then MergedIfUseful(res, mid, s') else res.Err? && s' == mid;
      DiskAfter(FlushPlan(v, d), s.at, mid.at);
      FlushIsSafe(v, d);
      assert mid.v.mem.table == map[] by { FlushedIsEmpty(v); }
      UsefulReports(res, mid, s', lists);
    }
  }

  /**
   * After a compaction that merged, one segment holds the map: a record with the value of each key, and no tombstone.
   */
  lemma CompactionLeavesTheMap(res: Result<CompactionStats>, s: Snapshot, s': Snapshot) returns (rs: seq<Record>)
    requires Idle(s.v, s.at.disk) && Room(CompactOp, s.v) && Compacted(res, s, s') && res.Ok?
    requires |BeforeMerge(s.v, s.at.disk)| >= 2
    ensures Storable(rs)
    ensures |s'.at.disk.segments| == 1
    ensures forall g :: g in s'.at.disk.segments ==> s'.at.disk.segments[g] == SegmentBytes(rs)
    ensures TableOf(rs) == map k | k in Logical(s.at.disk) :: Some(Logical(s.at.disk)[k])
  {
    hide Idle, Room, Logical, Merged, FlushFile, FlushPlan, TableFits, ReadersTable, Did, Sorted, Writable, Storable;
    hide WithoutTombstones, FlushedVolatile, DiskInv, CrashSafe, Run, SegmentBytes, TableOf, Loaded;
    var v, d := s.v, s.at.disk;
    CompactCase(v, d);
    if v.mem.table == map[] {
      IdleParts(v, d);
      AsManyReaders(v.readers, d.segments);
      rs := MergeLeavesTheMap(res, s, s');
    } else {
      var flushed, mid :| Flushed(flushed, s, mid)
        && if flushed then MergedIfUseful(res, mid, s') else res.Err? && s' == mid;
      DiskAfter(FlushPlan(v, d), s.at, mid.at);
      FlushIsSafe(v, d);
      assert mid.v.mem.table == map[] by { FlushedIsEmpty(v); }
      IdleParts(mid.v, mid.at.disk);
      AsManyReaders(mid.v.readers, mid.at.disk.segments);
      rs := MergeLeavesTheMap(res, mid, s');
    }
  }

  lemma MergeLeavesTheMap(res: Result<CompactionStats>, s: Snapshot, s': Snapshot) returns (rs: seq<Record>)
    requires Mergeable(s.v, s.at.disk) && Merged(res, s, s') && res.Ok? && s.v.mem.table == map[]
    ensures Storable(rs)
    ensures |s'.at.disk.segments| == 1
    ensures forall g :: g in s'.at.disk.segments ==> s'.at.disk.segments[g] == SegmentBytes(rs)
    ensures TableOf(rs) == map k | k in Logical(s.at.disk) :: Some(Logical(s.at.disk)[k])
  {
    hide Mergeable, Merged, MergePlan, Did, Logical, MergeStats, MergedRecords, SegmentBytes, Storable, TableOf, Idle;
    hide TableFits, Loaded, Live, Layered, WithoutTombstones;
    var v, d := s.v, s.at.disk;
    MergedBetween(res, s, s');
    MergePlanEnds(v, d);
    DiskAfter(MergePlan(v, d), s.at, s'.at);
    rs := MergedRecords(v);
    assert s'.at.disk.segments == map[v.next := SegmentBytes(rs)];
    assert |s'.at.disk.segments.Keys| == 1 by { assert s'.at.disk.segments.Keys == {v.next}; }
    assert Idle(v, d) && TableFits(WithoutTombstones(ReadersTable(v.readers))) by { MergeableParts(v, d); }
    IdleParts(v, d);
    MergedRecordsAreStorable(v, d);
    LogicalOfSegments(v, d);
    LiveAsTable(Layered(d.segments));
  }

  lemma MergeableParts(v: Volatile, d: Disk)
    requires Mergeable(v, d)
    ensures Idle(v, d) && TableFits(WithoutTombstones(ReadersTable(v.readers)))
  {
    hide Idle, TableFits;
  }

  lemma LogicalOfSegments(v: Volatile, d: Disk)
    requires Idle(v, d) && v.mem.table == map[]
    ensures Logical(d) == Live(Layered(d.segments))
  {
    hide DiskInv, WalTable, Loaded, Wal.Scan, Layered, Live;
    assert Layered(d.segments) + map[] == Layered(d.segments);
  }

  lemma LiveAsTable(t: Table)
    ensures WithoutTombstones(t) == map k | k in Live(t) :: Some(Live(t)[k])
  {
  }

  lemma UsefulReports(res: Result<CompactionStats>, s: Snapshot, s': Snapshot, lists: map<u64, seq<Record>>)
    requires Idle(s.v, s.at.disk) && MergeFits(s.v)
    requires MergedIfUseful(res, s, s') && res.Ok? && s.v.mem.table == map[] && Holds(s.at.disk.segments, lists)
    ensures if |s.at.disk.segments| < 2 then
              res.value == CompactionStats(0, 0, 0, 0, 0) && s'.at.disk.segments == s.at.disk.segments
            else Reports(res.value, s.at.disk.segments, lists, Logical(s.at.disk), s'.at.disk.segments)
  {
    hide Idle, TableFits, WithoutTombstones, ReadersTable, Merged, Holds, Reports, Logical;
    IdleParts(s.v, s.at.disk);
    AsManyReaders(s.v.readers, s.at.disk.segments);
    if |s.v.readers| >= 2 {
      MergeReports(res, s, s', lists);
    }
  }

  // ---------- verifying: when it succeeds ----------

  function RecordsIn(readers: seq<Reader>): nat
    requires AllSane(readers)
  {
    if readers == [] then 0
    else
      var first := ReadAllFrom(readers[0], HEADER_SIZE);
      (if first.Ok? then |first.value| else 0) + RecordsIn(readers[1..])
  }

  /** The readers come newest first, every one of them reads to its end, and their records can be counted. */
  ghost predicate AllReadable(readers: seq<Reader>)
    requires AllSane(readers)
  {
    && (forall i, j :: 0 <= i < j < |readers| ==> readers[i].gen > readers[j].gen)
    && (forall i :: 0 <= i < |readers| ==> ReadAllFrom(readers[i], HEADER_SIZE).Ok?)
  }

  lemma {:induction false} CheckReadersIff(readers: seq<Reader>, previous: Option<u64>, count: u64)
    requires AllSane(readers)
    ensures var all := count + RecordsIn(readers);
            && (CheckReaders(readers, previous, count).Ok? <==>
                  && AllReadable(readers) && all <= U64_MAX
                  && (previous.Some? && readers != [] ==> readers[0].gen < previous.value))
            && (CheckReaders(readers, previous, count).Ok? ==> CheckReaders(readers, previous, count).value == all)
    decreases |readers|
  {
    hide ReadAllFrom, Sane;
    if readers != [] {
      var top, rest := readers[0], readers[1..];
      assert forall i :: 0 <= i < |rest| ==> rest[i] == readers[i + 1];
      var first := ReadAllFrom(top, HEADER_SIZE);
      if first.Ok? && count + |first.value| <= U64_MAX {
        CheckReadersIff(rest, Some(top.gen), count + |first.value|);
        if AllReadable(rest) && (rest != [] ==> rest[0].gen < top.gen) {
          ReadableWithTop(readers);
        }
      }
    }
  }

  lemma ReadableWithTop(readers: seq<Reader>)
    requires AllSane(readers) && readers != [] && ReadAllFrom(readers[0], HEADER_SIZE).Ok?
    requires AllReadable(readers[1..]) && (|readers| > 1 ==> readers[1].gen < readers[0].gen)
    ensures AllReadable(readers)
  {
    hide ReadAllFrom, Sane;
    var rest := readers[1..];
    assert forall i :: 0 < i < |readers| ==> readers[i] == rest[i - 1];
    forall i, j | 0 <= i < j < |readers|
      ensures readers[i].gen > readers[j].gen
    {
      if i == 0 && j > 1 {
        assert rest[0].gen > rest[j - 1].gen;
      }
    }
  }

  /** In any state verification succeeds exactly when log and segments are sound, and then it has counted them all. */
  lemma VerifiedIff(v: Volatile, wal: Bytes)
    requires AllSane(v.readers)
    ensures Verified(v, wal).Ok? <==>
            Wal.Scan(wal).Ok? && AllReadable(v.readers) && RecordsIn(v.readers) <= U64_MAX
    ensures Verified(v, wal).Ok? ==>
              var stats := Verified(v, wal).value;
              && stats.walRecords == |Wal.Scan(wal).value.0|
              && stats.segmentsChecked == |v.readers|
              && stats.recordsChecked == RecordsIn(v.readers)
    ensures Wal.Scan(wal).Err? ==> Verified(v, wal) == Err(Wal.Scan(wal).error)
  {
    hide Wal.Scan, AllReadable, RecordsIn, CheckReaders, AllSane;
    CheckReadersIff(v.readers, None, 0);
  }

  lemma {:induction false} RecordsInPrefix(readers: seq<Reader>, i: nat)
    requires AllSane(readers) && i <= |readers|
    ensures AllSane(readers[..i]) && RecordsIn(readers[..i]) <= RecordsIn(readers)
    decreases i
  {
    hide ReadAllFrom, Sane;
    if i > 0 {
      assert readers[..i][1..] == readers[1..][..i - 1];
      RecordsInPrefix(readers[1..], i - 1);
    }
  }

  /** The first reader that cannot be read decides the error. */
  lemma {:induction false} CheckReachesError(readers: seq<Reader>, previous: Option<u64>, count: u64, i: nat)
    requires AllSane(readers) && i < |readers|
    requires forall j, k :: 0 <= j < k < |readers| ==> readers[j].gen > readers[k].gen
    requires previous.Some? ==> readers[0].gen < previous.value
    requires forall k :: 0 <= k < i ==> ReadAllFrom(readers[k], HEADER_SIZE).Ok?
    requires AllSane(readers[..i]) && count + RecordsIn(readers[..i]) <= U64_MAX
    requires ReadAllFrom(readers[i], HEADER_SIZE).Err?
    ensures CheckReaders(readers, previous, count) == Err(ReadAllFrom(readers[i], HEADER_SIZE).error)
    decreases i
  {
    hide ReadAllFrom, Sane;
    if i > 0 {
      var n := |ReadAllFrom(readers[0], HEADER_SIZE).value|;
      assert readers[..i][1..] == readers[1..][..i - 1] && readers[..i][0] == readers[0];
      CheckReachesError(readers[1..], Some(readers[0].gen), count + n, i - 1);
    }
  }

  // ---------- verifying, between operations ----------

  /** Between operations verification succeeds exactly when the count fits, and it has counted every record. */
  lemma VerifiedBetween(v: Volatile, d: Disk)
    requires Idle(v, d) && AllSane(v.readers)
    ensures Wal.Scan(d.wal).Ok? && Wal.Scan(d.wal).value.1 == |d.wal|
    ensures var count := RecordCount(d.segments, Generations(v.readers));
            Verified(v, d.wal) ==
            if count <= U64_MAX then Ok(VerifyStats(|Wal.Scan(d.wal).value.0|, |v.readers|, count))
            else Err(Other("verify record count overflow"))
  {
    hide Wal.Scan, WalTable, IsReaderOf, Reads, SegmentsInv, CheckReaders, RecordCount, AllSane, Generations;
    CheckCounts(v.readers, d.segments, None, 0);
  }

  lemma {:induction false} CheckCounts(readers: seq<Reader>, segments: map<u64, Bytes>, previous: Option<u64>,
                                       count: u64)
    requires SegmentsInv(segments) && AllSane(readers)
    requires forall i :: 0 <= i < |readers| ==> IsReaderOf(readers[i], segments)
    requires forall i, j :: 0 <= i < j < |readers| ==> readers[i].gen > readers[j].gen
    requires previous.Some? && readers != [] ==> readers[0].gen < previous.value
    ensures var all := count + RecordCount(segments, Generations(readers));
            CheckReaders(readers, previous, count) ==
            if all <= U64_MAX then Ok(all) else Err(Other("verify record count overflow"))
    decreases |readers|
  {
    hide OpenSegment, ReadAllFrom, GoodSegment, ReadSegment, Sane, IsReaderOf, SegmentBytes, Storable, IndexOf;
    if readers != [] {
      var top, rest := readers[0], readers[1..];
      assert IsReaderOf(readers[0], segments);
      var n := ReaderCounts(top, segments);
      assert Generations(readers)[1..] == Generations(rest);
      if count + n <= U64_MAX {
        CheckCounts(rest, segments, Some(top.gen), count + n);
      }
    }
  }

  /** A reader of a sound segment reads as many records as the segment holds. */
  lemma ReaderCounts(rd: Reader, segments: map<u64, Bytes>) returns (n: nat)
    requires IsReaderOf(rd, segments) && SegmentsInv(segments) && Sane(rd)
    ensures ReadAllFrom(rd, HEADER_SIZE).Ok? && |ReadAllFrom(rd, HEADER_SIZE).value| == n
    ensures ReadSegment(segments, rd.gen) == ReadAllFrom(rd, HEADER_SIZE)
  {
    hide OpenSegment, ReadAllFrom, GoodSegment, Storable, SegmentBytes, IndexOf, IndexOffset;
    var rs := GoodSegmentOpens(segments[rd.gen], rd.gen);
    n := |rs|;
  }
}
