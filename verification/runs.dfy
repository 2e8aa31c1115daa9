/** Whole runs: any sequence of operations, reads, opens and crashes. */
module Runs {
  import opened Bytes
  import opened Errors
  import opened Records
  import opened Tables
  import opened Memtables
  import opened FileSystems
  import opened Wal
  import opened Segments
  import opened SegmentReaders
  import opened Layers
  import opened Markers
  import opened Protocol
  import opened CrashSafety
  import opened Recovery

  // ---------- reading ----------

  ghost predicate AllSane(readers: seq<Reader>) {
    forall i :: 0 <= i < |readers| ==> Sane(readers[i])
  }

  /** The search of `get` through the segments, newest first; the first hit decides. */
  function Search(readers: seq<Reader>, key: Bytes): Result<Option<Bytes>>
    requires AllSane(readers)
    decreases |readers|
  {
    if readers == [] then Ok(None)
    else
      match ScanFrom(readers[0], StartOffset(readers[0].index, key, HEADER_SIZE), key)
      case Err(e) => Err(e)
      case Ok(Some(val)) => Ok(val)
      case Ok(None) => Search(readers[1..], key)
  }

  /** `get`: the memtable first. */
  function Answer(v: Volatile, key: Bytes): Result<Option<Bytes>>
    requires AllSane(v.readers)
  {
    if key in v.mem.table then Ok(v.mem.table[key]) else Search(v.readers, key)
  }

  function ViewAt(view: View, key: Bytes): Option<Bytes> {
    if key in view then Some(view[key]) else None
  }

  lemma LoadedAreSane(readers: seq<Reader>, segments: map<u64, Bytes>)
    requires Loaded(readers, segments)
    ensures AllSane(readers)
  {
    hide OpenSegment, Sane;
    forall i | 0 <= i < |readers|
      ensures Sane(readers[i])
    {
      assert IsReaderOf(readers[i], segments);
    }
  }

  /** The search ends at the first segment that knows the key, with a value or a tombstone, or that cannot be read. */
  lemma {:induction false} SearchStopsAtFirst(readers: seq<Reader>, key: Bytes, i: nat)
    requires AllSane(readers) && i <= |readers|
    requires forall j :: 0 <= j < i ==> ScanOf(readers[j], key) == Ok(None)
    requires i < |readers| ==> ScanOf(readers[i], key) != Ok(None)
    ensures Search(readers, key) ==
            if i == |readers| then Ok(None)
            else if ScanOf(readers[i], key).Err? then Err(ScanOf(readers[i], key).error)
            else Ok(ScanOf(readers[i], key).value.value)
    decreases i
  {
    hide ScanFrom, StartOffset, Sane;
    if i > 0 {
      assert ScanOf(readers[0], key) == Ok(None);
      assert forall j :: 0 <= j < i - 1 ==> readers[1..][j] == readers[j + 1];
      SearchStopsAtFirst(readers[1..], key, i - 1);
    }
  }

  /** What one segment says about a key. */
  function ScanOf(rd: Reader, key: Bytes): Result<Option<Option<Bytes>>>
    requires Sane(rd)
  {
    ScanFrom(rd, StartOffset(rd.index, key, HEADER_SIZE), key)
  }

  /** Searching newest to oldest finds what overlaying oldest to newest holds. */
  lemma {:induction false} SearchIsOverlay(readers: seq<Reader>, segments: map<u64, Bytes>, key: Bytes)
    requires Loaded(readers, segments) && SegmentsInv(segments)
    ensures AllSane(readers)
    ensures Search(readers, key) == Ok(ViewAt(Live(ReadersTable(readers)), key))
    decreases |readers|
  {
    hide OpenSegment, ScanFrom, Loaded, GoodSegment, SegmentTable, Sane, StartOffset;
    LoadedAreSane(readers, segments);
    if readers != [] {
      LoadedRest(readers, segments);
      var top := readers[0];
      SearchIsOverlay(readers[1..], segments - {top.gen}, key);
      OneSegmentAnswers(top, segments, key);
    }
  }

  lemma OneSegmentAnswers(rd: Reader, segments: map<u64, Bytes>, key: Bytes)
    requires IsReaderOf(rd, segments) && GoodSegment(segments[rd.gen])
    ensures Sane(rd)
    ensures ScanFrom(rd, StartOffset(rd.index, key, HEADER_SIZE), key) == Ok(Get(SegmentTable(rd.file), key))
  {
    hide OpenSegment, ScanFrom, SegmentTable, StartOffset, SegmentBytes, Writable, AllWellFormed, Find, TableOf,
      IndexOf, IndexOffset, GoodSegment;
    var rs := GoodSegmentOpens(segments[rd.gen], rd.gen);
    assert StrictlySorted(rs) by { StorableIsSorted(rs); }
    LookupIsFind(rs, rd.gen, key);
    FindIsGet(rs, key);
  }

  lemma StorableIsSorted(rs: seq<Record>)
    requires Storable(rs)
    ensures StrictlySorted(rs) && AllWellFormed(rs)
  {
    hide AllWellFormed, StrictlySorted, Encodable, Frames;
  }

  /** Between operations `get` answers from the logical map. */
  lemma AnswerIsLogical(v: Volatile, d: Disk, key: Bytes)
    requires Idle(v, d)
    ensures AllSane(v.readers)
    ensures ServedView(v) == Logical(d)
    ensures Answer(v, key) == Ok(ViewAt(Logical(d), key))
  {
    hide Loaded, Search, Layered, WalTable, SegmentsInv, Scan;
    SearchIsOverlay(v.readers, d.segments, key);
    LoadedIsLayered(v.readers, d.segments);
  }

  // ---------- one operation ----------

  lemma OpRecordIsWellFormed(op: StoreOp)
    requires !op.CompactOp? && Accepts(op)
    ensures WellFormed(OpRecord(op))
  {
  }

  lemma WithRecordIsApplyOp(view: View, op: StoreOp)
    requires !op.CompactOp?
    ensures WithRecord(view, OpRecord(op)) == ApplyOp(view, op)
  {
  }

  /** Logging a record leaves the process consistent with the log. */
  lemma LoggedIsIdle(v: Volatile, d: Disk, r: Record)
    requires Idle(v, d) && WellFormed(r)
    ensures Idle(Logged(v, r), LoggedDisk(d, r))
  {
    hide Scan, Frame, WalTable, Loaded, DiskInv, WellFormed, Logical, CrashSafe;
    AppendIsSafe(d, r);
  }

  /** A crash anywhere in a set or a delete leaves the map before it or after it. */
  lemma WriteIsSafe(op: StoreOp, v: Volatile, d: Disk)
    requires Idle(v, d) && !op.CompactOp? && Accepts(op) && Room(op, v)
    ensures CrashSafe(OpPlan(op, v, d), d, {Logical(d), ApplyOp(Logical(d), op)})
    ensures Completes(op, v) ==>
              var d' := Run(OpPlan(op, v, d), d);
              Idle(OpVolatile(op, v), d') && Logical(d') == ApplyOp(Logical(d), op)
  {
    hide Frame, DiskInv, Logical, CrashSafe, Run, FlushPlan, TableFits, OpRecord, Accepts, ApplyOp, WithRecord,
      WellFormed, Idle, Flushes, Logged, LoggedDisk;
    var r := OpRecord(op);
    var views := {Logical(d), ApplyOp(Logical(d), op)};
    var v1, d1 := Logged(v, r), LoggedDisk(d, r);
    OpRecordIsWellFormed(op);
    WithRecordIsApplyOp(Logical(d), op);
    AppendStep(v, d, r);
    if Flushes(v1) {
      FlushIsSafe(v1, d1);
      CrashSafeWiden(FlushPlan(v1, d1), d1, {Logical(d1)}, views);
      Chain([WalAppend(Frame(r))], FlushPlan(v1, d1), d, views);
      if v1.next < U64_MAX {
        FlushedIsIdle(v1, d1);
      }
      LoggedKeepsNext(v, r);
    } else {
      assert [WalAppend(Frame(r))] + [] == [WalAppend(Frame(r))];
    }
  }

  lemma LoggedKeepsNext(v: Volatile, r: Record)
    ensures Logged(v, r).next == v.next
  {
  }

  lemma AppendStep(v: Volatile, d: Disk, r: Record)
    requires Idle(v, d) && WellFormed(r)
    ensures CrashSafe([WalAppend(Frame(r))], d, {Logical(d), WithRecord(Logical(d), r)})
    ensures Run([WalAppend(Frame(r))], d) == LoggedDisk(d, r)
    ensures Idle(Logged(v, r), LoggedDisk(d, r)) && Logical(LoggedDisk(d, r)) == WithRecord(Logical(d), r)
  {
    hide Scan, Frame, WalTable, Loaded, DiskInv, WellFormed, Logical, CrashSafe, Run, WithRecord;
    AppendIsSafe(d, r);
    LoggedIsIdle(v, d, r);
    RunOne(WalAppend(Frame(r)), d);
  }

  lemma MergeIfUsefulIsSafe(v: Volatile, d: Disk)
    requires Idle(v, d) && MergeFits(v)
    ensures CrashSafe(MergeIfUseful(v, d), d, {Logical(d)})
    ensures |v.readers| < 2 || v.next < U64_MAX ==>
              var d' := Run(MergeIfUseful(v, d), d);
              Idle(if |v.readers| < 2 then v else MergedVolatile(v), d') && Logical(d') == Logical(d)
  {
    hide DiskInv, Logical, CrashSafe, MergePlan, TableFits, WithoutTombstones, ReadersTable, MergedVolatile, MergedDisk;
    if |v.readers| < 2 {
      CrashSafeNothing(d, {Logical(d)});
    } else {
      MergeIsSafe(v, d);
      if v.next < U64_MAX {
        MergedIsIdle(v, d);
      }
    }
  }

  lemma FlushedReadersTable(v: Volatile, d: Disk)
    requires Idle(v, d) && TableFits(v.mem.table) && v.next < U64_MAX
    ensures ReadersTable(FlushedVolatile(v).readers) == ReadersTable(v.readers) + v.mem.table
  {
    hide DiskInv, Sorted, SegmentBytes, WalTable, Loaded, TableFits, TableOf, Storable, SegmentTable, IndexOf,
      IndexOffset;
    FlushRecordsAreStorable(v, d);
    TableOfWritten(Sorted(v.mem.table));
    var all := FlushedVolatile(v).readers;
    assert all[1..] == v.readers;
  }

  /** A crash anywhere in a compaction leaves the map as it was: no deleted key comes back. */
  lemma CompactIsSafe(v: Volatile, d: Disk)
    requires Idle(v, d) && Room(CompactOp, v)
    ensures CrashSafe(OpPlan(CompactOp, v, d), d, {Logical(d)})
    ensures Completes(CompactOp, v) ==>
              var d' := Run(OpPlan(CompactOp, v, d), d);
              Idle(OpVolatile(CompactOp, v), d') && Logical(d') == Logical(d)
  {
    hide DiskInv, Logical, CrashSafe, Run, FlushPlan, MergeIfUseful, TableFits, WithoutTombstones, ReadersTable, Idle,
      MergedVolatile, FlushedDisk;
    if v.mem.table == map[] {
      assert ReadersTable(v.readers) + map[] == ReadersTable(v.readers);
      MergeIfUsefulIsSafe(v, d);
    } else {
      FlushIsSafe(v, d);
      if v.next < U64_MAX {
        FlushedIsIdle(v, d);
        FlushedReadersTable(v, d);
        MergeIfUsefulIsSafe(FlushedVolatile(v), FlushedDisk(v, d));
        Chain(FlushPlan(v, d), MergeIfUseful(FlushedVolatile(v), FlushedDisk(v, d)), d, {Logical(d)});
      } else {
        assert FlushPlan(v, d) + [] == FlushPlan(v, d);
      }
    }
  }

  /** A crash anywhere in an operation leaves the map before it or after it; completing it leaves the map after it. */
  lemma OpIsSafe(op: StoreOp, v: Volatile, d: Disk)
    requires Idle(v, d) && Accepts(op) && Room(op, v)
    ensures CrashSafe(OpPlan(op, v, d), d, {Logical(d), ApplyOp(Logical(d), op)})
    ensures Completes(op, v) ==>
              var d' := Run(OpPlan(op, v, d), d);
              Idle(OpVolatile(op, v), d') && Logical(d') == ApplyOp(Logical(d), op)
  {
    hide DiskInv, Logical, CrashSafe, Run, OpPlan, OpVolatile, Idle, Room, Completes;
    if op.CompactOp? {
      CompactIsSafe(v, d);
      CrashSafeWiden(OpPlan(op, v, d), d, {Logical(d)}, {Logical(d), ApplyOp(Logical(d), op)});
    } else {
      WriteIsSafe(op, v, d);
    }
  }

  // ---------- machines and events ----------

  /** A process serving a directory, or a directory without one. */
  datatype Machine = Up(v: Volatile, disk: Disk) | Down(disk: Disk)

  datatype Event =
    | Acknowledged(op: StoreOp)
    | Refused(op: StoreOp)
    | Answered(key: Bytes, answer: Option<Bytes>)
    | Interrupted(op: StoreOp)
    | Killed
    | OpenDone(threshold: u64, order: seq<u64>)
    | OpenInterrupted(order: seq<u64>)

  /** One event of a run. An operation that is interrupted may have reached any point of its plan. */
  ghost predicate Step(m: Machine, e: Event, m': Machine) {
    match e
    case Acknowledged(op) =>
      && m.Up? && Accepts(op) && Room(op, m.v) && Completes(op, m.v)
      && m' == Up(OpVolatile(op, m.v), Run(OpPlan(op, m.v, m.disk), m.disk))
    case Refused(op) =>
      m.Up? && !Accepts(op) && m' == m
    case Answered(key, answer) =>
      m.Up? && AllSane(m.v.readers) && Answer(m.v, key) == Ok(answer) && m' == m
    case Interrupted(op) =>
      m.Up? && Accepts(op) && Room(op, m.v) && m'.Down? && CrashState(OpPlan(op, m.v, m.disk), m.disk, m'.disk)
    case Killed =>
      m.Up? && m' == Down(m.disk)
    case OpenDone(threshold, order) =>
      && m.Down? && OpenOk(m.disk) && TempOrder(order, m.disk)
      && m'.Up? && m'.disk == Run(OpenPlan(m.disk, order), m.disk) && Opened(m'.v, m.disk, threshold)
    case OpenInterrupted(order) =>
      && m.Down? && TempOrder(order, m.disk)
      && m'.Down? && CrashState(OpenPlan(m.disk, order), m.disk, m'.disk)
  }

  ghost predicate MachineInv(m: Machine) {
    DiskInv(m.disk) && (m.Up? ==> Idle(m.v, m.disk))
  }

  /** The event's effect on the map; `kept` says whether an interrupted operation was applied. */
  function EventView(view: View, e: Event, kept: bool): View {
    if e.Acknowledged? || (e.Interrupted? && kept) then ApplyOp(view, e.op) else view
  }

  lemma StepKeepsMeaning(m: Machine, e: Event, m': Machine) returns (kept: bool)
    requires MachineInv(m) && Step(m, e, m')
    ensures MachineInv(m')
    ensures Logical(m'.disk) == EventView(Logical(m.disk), e, kept)
    ensures GenStep(m.disk.segments, m'.disk.segments)
    ensures e.Answered? ==> e.answer == ViewAt(Logical(m.disk), e.key)
  {
    hide DiskInv, Logical, Run, OpPlan, OpVolatile, Idle, Room, Completes, OpenPlan, Opened, TempOrder, OpenOk,
      Answer, GenStep, ApplyOp, CrashState;
    kept := false;
    GenStepRefl(m.disk.segments);
    match e
    case Acknowledged(op) =>
      OpIsSafe(op, m.v, m.disk);
      RunIsCrashState(OpPlan(op, m.v, m.disk), m.disk);
      IdleIsSound(m'.v, m'.disk);
    case Refused(op) =>
    case Answered(key, answer) =>
      AnswerIsLogical(m.v, m.disk, key);
    case Interrupted(op) =>
      OpIsSafe(op, m.v, m.disk);
      kept := Logical(m'.disk) == ApplyOp(Logical(m.disk), op);
    case Killed =>
    case OpenDone(threshold, order) =>
      OpenIsSafe(m.disk, order);
      RunIsCrashState(OpenPlan(m.disk, order), m.disk);
      OpenedIsIdle(m'.v, m.disk, threshold);
    case OpenInterrupted(order) =>
      OpenIsSafe(m.disk, order);
  }

  lemma IdleIsSound(v: Volatile, d: Disk)
    requires Idle(v, d)
    ensures DiskInv(d)
  {
  }

  // ---------- runs ----------

  ghost predicate ValidRun(ms: seq<Machine>, es: seq<Event>) {
    && |ms| == |es| + 1
    && (forall i :: 0 <= i < |es| ==> Step(ms[i], es[i], ms[i + 1]))
  }

  /** The map after the events: acknowledged operations in order, interrupted ones when kept. */
  function RunView(view: View, es: seq<Event>, kept: seq<bool>): View
    requires |es| == |kept|
    decreases |es|
  {
    if es == [] then view
    else
      var n := |es| - 1;
      EventView(RunView(view, es[..n], kept[..n]), es[n], kept[n])
  }

  /** The state of a run after its first i events. */
  ghost predicate ExplainedAt(ms: seq<Machine>, es: seq<Event>, kept: seq<bool>, i: nat)
    requires |ms| == |es| + 1 && |kept| == |es| && i <= |es|
  {
    var view := RunView(Logical(ms[0].disk), es[..i], kept[..i]);
    && MachineInv(ms[i])
    && Logical(ms[i].disk) == view
    && (ms[i].Up? ==> ServedView(ms[i].v) == view)
    && (ms[i].Down? ==> (OpenOk(ms[i].disk) <==> U64_MAX !in Surviving(ms[i].disk)))
    && (i < |es| && es[i].Answered? ==> es[i].answer == ViewAt(view, es[i].key))
  }

  /**
   * The guarantee of the store. In every run, however often it is interrupted, recovery included, one decision per
   * interrupted operation explains everything: at every point the directory means, and a serving process shows,
   * exactly the acknowledged operations in order with the kept interrupted ones among them; every answer agrees; and
   * an open can fail only when the last generation is in use.
   */
  lemma {:induction false} EveryRunIsExplained(ms: seq<Machine>, es: seq<Event>) returns (kept: seq<bool>)
    requires ValidRun(ms, es) && MachineInv(ms[0])
    ensures |kept| == |es|
    ensures forall i :: 0 <= i <= |es| ==> ExplainedAt(ms, es, kept, i)
    decreases |es|
  {
    hide Logical, Step, MachineInv, ServedView, OpenOk, EventView, ViewAt, Surviving;
    if es == [] {
      kept := [];
      ExplainStart(ms, es, kept);
    } else {
      var n := |es| - 1;
      var before := EveryRunIsExplained(ms[..n + 1], es[..n]);
      assert ExplainedAt(ms[..n + 1], es[..n], before, n);
      assert es[..n][..n] == es[..n] && before[..n] == before;
      assert Step(ms[n], es[n], ms[n + 1]);
      var k := StepKeepsMeaning(ms[n], es[n], ms[n + 1]);
      kept := before + [k];
      assert kept[..n] == before && es[..n + 1] == es && kept[..n + 1] == kept;
      forall i | 0 <= i <= |es|
        ensures ExplainedAt(ms, es, kept, i)
      {
        if i <= n {
          assert ExplainedAt(ms[..n + 1], es[..n], before, i);
          assert es[..n][..i] == es[..i] && before[..i] == kept[..i];
        } else {
          MachineFacts(ms[n + 1]);
        }
      }
    }
  }

  lemma ExplainStart(ms: seq<Machine>, es: seq<Event>, kept: seq<bool>)
    requires |ms| == 1 && es == [] && kept == [] && MachineInv(ms[0])
    ensures ExplainedAt(ms, es, kept, 0)
  {
    hide Logical, MachineInv, ServedView, OpenOk, Surviving;
    MachineFacts(ms[0]);
  }

  lemma MachineFacts(m: Machine)
    requires MachineInv(m)
    ensures m.Up? ==> ServedView(m.v) == Logical(m.disk)
    ensures OpenOk(m.disk) <==> U64_MAX !in Surviving(m.disk)
  {
    hide Logical, DiskInv, ServedView, OpenOk, Idle, Surviving;
    OpenSucceedsIff(m.disk);
    if m.Up? {
      AnswerIsLogical(m.v, m.disk, []);
    }
  }

  // ---------- generations ----------

  /**
   * Generations over whole runs: between any two points of a run an installed file is never changed, a generation
   * that appears lies above all that were there, and the newest generation never sinks.
   */
  lemma {:induction false} GenerationsOnlyGrow(ms: seq<Machine>, es: seq<Event>, i: nat, j: nat)
    requires ValidRun(ms, es) && MachineInv(ms[0])
    requires i <= j <= |es|
    ensures MachineInv(ms[j]) && GenStep(ms[i].disk.segments, ms[j].disk.segments)
    decreases j
  {
    hide Logical, Step, MachineInv, GenStep, EventView;
    if j == 0 {
      GenStepRefl(ms[0].disk.segments);
    } else {
      GenerationsOnlyGrow(ms, es, if i < j then i else j - 1, j - 1);
      assert Step(ms[j - 1], es[j - 1], ms[j]);
      var _ := StepKeepsMeaning(ms[j - 1], es[j - 1], ms[j]);
      if i < j {
        GenStepTrans(ms[i].disk.segments, ms[j - 1].disk.segments, ms[j].disk.segments);
      } else {
        GenStepRefl(ms[j].disk.segments);
      }
    }
  }

  /** The calls of an event, all of them or, when it is cut off, those it would have made. */
  function EventPlan(m: Machine, e: Event): seq<Effect> {
    match e
    case Acknowledged(op) => if m.Up? then OpPlan(op, m.v, m.disk) else []
    case Interrupted(op) => if m.Up? then OpPlan(op, m.v, m.disk) else []
    case OpenDone(_, order) => OpenPlan(m.disk, order)
    case OpenInterrupted(order) => OpenPlan(m.disk, order)
    case _ => []
  }

  function EventViews(view: View, e: Event): set<View> {
    {view} + if e.Acknowledged? || e.Interrupted? then {ApplyOp(view, e.op)} else {}
  }

  lemma EventIsSafe(m: Machine, e: Event, m': Machine)
    requires MachineInv(m) && Step(m, e, m')
    ensures CrashSafe(EventPlan(m, e), m.disk, EventViews(Logical(m.disk), e))
  {
    hide DiskInv, Logical, Run, OpPlan, OpVolatile, Idle, Room, Completes, OpenPlan, Opened, TempOrder, OpenOk;
    hide Answer, ApplyOp, CrashState, CrashSafe, Accepts;
    match e
    case Acknowledged(op) =>
      OpIsSafe(op, m.v, m.disk);
      assert EventViews(Logical(m.disk), e) == {Logical(m.disk), ApplyOp(Logical(m.disk), op)};
    case Interrupted(op) =>
      OpIsSafe(op, m.v, m.disk);
      assert EventViews(Logical(m.disk), e) == {Logical(m.disk), ApplyOp(Logical(m.disk), op)};
    case OpenDone(_, order) =>
      assert EventViews(Logical(m.disk), e) == {Logical(m.disk)};
      OpenIsSafe(m.disk, order);
    case OpenInterrupted(order) =>
      assert EventViews(Logical(m.disk), e) == {Logical(m.disk)};
      OpenIsSafe(m.disk, order);
    case _ =>
      assert EventViews(Logical(m.disk), e) == {Logical(m.disk)};
      CrashSafeNothing(m.disk, {Logical(m.disk)});
  }

  /** Event i after n of its calls: far enough from its end to end where the run says it did. */
  ghost predicate Moment(ms: seq<Machine>, es: seq<Event>, i: nat, n: nat) {
    && |ms| == |es| + 1 && i <= |es|
    && n <= (if i < |es| then |EventPlan(ms[i], es[i])| else 0)
    && (i < |es| ==> CrashState(EventPlan(ms[i], es[i])[n..], DiskAt(ms, es, i, n), ms[i + 1].disk))
  }

  /** The directory at that moment. */
  function DiskAt(ms: seq<Machine>, es: seq<Event>, i: nat, n: nat): Disk
    requires |ms| == |es| + 1 && i <= |es|
  {
    if i < |es| && n <= |EventPlan(ms[i], es[i])| then Run(EventPlan(ms[i], es[i])[..n], ms[i].disk) else ms[i].disk
  }

  /** Every event has its start as a moment, and a completed one has all of its calls. */
  lemma EventsHaveMoments(ms: seq<Machine>, es: seq<Event>, i: nat, n: nat)
    requires ValidRun(ms, es) && i < |es| && n <= |EventPlan(ms[i], es[i])|
    requires n == 0 || es[i].Acknowledged? || es[i].OpenDone?
    ensures Moment(ms, es, i, n)
    ensures n == 0 ==> DiskAt(ms, es, i, n) == ms[i].disk
  {
    hide OpPlan, OpVolatile, Idle, Room, Completes, OpenPlan, Opened, TempOrder, OpenOk, Answer, Accepts, CrashState,
      Run;
    var m, m' := ms[i], ms[i + 1];
    assert Step(m, es[i], m');
    var plan := EventPlan(m, es[i]);
    assert plan[..n] + plan[n..] == plan && plan[..0] == [];
    RunConcat(plan[..n], plan[n..], m.disk);
    RunIsCrashState(plan[n..], Run(plan[..n], m.disk));
    RunNothing(m.disk);
    assert n == 0 ==> plan[n..] == plan;
    RunIsCrashState([], m.disk);
  }

  predicate NotAfter(i: nat, n: nat, j: nat, p: nat) {
    i < j || (i == j && n <= p)
  }

  /** Inside one event too, generations only grow. */
  lemma PlanOnlyGrows(plan: seq<Effect>, d: Disk, views: set<View>, n: nat, p: nat)
    requires CrashSafe(plan, d, views) && n <= p <= |plan|
    ensures DiskInv(Run(plan[..p], d))
    ensures GenStep(Run(plan[..n], d).segments, Run(plan[..p], d).segments)
  {
    hide DiskInv, GenStep, CrashSafe, CrashState, Run, Logical;
    var mid, rest := Run(plan[..n], d), plan[n..];
    CrashSafeLater(plan, d, views, n);
    assert plan[..p] == plan[..n] + plan[n..p] && rest == plan[n..p] + plan[p..];
    RunConcat(plan[..n], plan[n..p], d);
    RunIsCrashState(plan[n..p], mid);
    CrashPrefix(plan[n..p], plan[p..], mid, Run(plan[n..p], mid));
    CrashIsFine(rest, mid, views, Run(plan[n..p], mid));
  }

  /** From a moment inside an event to its end. */
  lemma EventEndGrows(ms: seq<Machine>, es: seq<Event>, i: nat, n: nat)
    requires ValidRun(ms, es) && MachineInv(ms[0]) && i < |es| && Moment(ms, es, i, n)
    ensures GenStep(DiskAt(ms, es, i, n).segments, ms[i + 1].disk.segments)
  {
    hide DiskInv, GenStep, CrashSafe, CrashState, Run, Logical, Step, MachineInv, EventPlan, EventViews;
    GenerationsOnlyGrow(ms, es, i, i);
    assert Step(ms[i], es[i], ms[i + 1]);
    EventIsSafe(ms[i], es[i], ms[i + 1]);
    var plan, views := EventPlan(ms[i], es[i]), EventViews(Logical(ms[i].disk), es[i]);
    CrashSafeLater(plan, ms[i].disk, views, n);
    CrashIsFine(plan[n..], DiskAt(ms, es, i, n), views, ms[i + 1].disk);
  }

  /** From the start of an event to a moment inside it, or between two moments inside it. */
  lemma EventGrows(ms: seq<Machine>, es: seq<Event>, i: nat, n: nat, p: nat)
    requires ValidRun(ms, es) && MachineInv(ms[0]) && n <= p && Moment(ms, es, i, p)
    ensures DiskAt(ms, es, i, 0) == ms[i].disk
    ensures DiskInv(DiskAt(ms, es, i, p))
    ensures GenStep(DiskAt(ms, es, i, n).segments, DiskAt(ms, es, i, p).segments)
  {
    hide DiskInv, GenStep, CrashSafe, CrashState, Logical, Step, EventPlan, EventViews, Idle;
    GenerationsOnlyGrow(ms, es, i, i);
    if i < |es| {
      assert Step(ms[i], es[i], ms[i + 1]);
      EventIsSafe(ms[i], es[i], ms[i + 1]);
      PlanOnlyGrows(EventPlan(ms[i], es[i]), ms[i].disk, EventViews(Logical(ms[i].disk), es[i]), n, p);
    }
  }

  /**
   * The same between any two moments of a run, those in the middle of operations and of recoveries included: the
   * directory is sound, no installed file changes, and what appears lies above all that was there.
   */
  lemma MomentsOnlyGrow(ms: seq<Machine>, es: seq<Event>, i: nat, n: nat, j: nat, p: nat)
    requires ValidRun(ms, es) && MachineInv(ms[0])
    requires Moment(ms, es, i, n) && Moment(ms, es, j, p) && NotAfter(i, n, j, p)
    ensures DiskInv(DiskAt(ms, es, j, p))
    ensures GenStep(DiskAt(ms, es, i, n).segments, DiskAt(ms, es, j, p).segments)
  {
    hide DiskInv, GenStep, Step, MachineInv, Moment, DiskAt, ValidRun;
    MomentInRun(ms, es, i, n);
    MomentInRun(ms, es, j, p);
    if i == j {
      EventGrows(ms, es, i, n, p);
    } else {
      EventEndGrows(ms, es, i, n);
      GenerationsOnlyGrow(ms, es, i + 1, j);
      EventGrows(ms, es, j, 0, p);
      var a, b, c := DiskAt(ms, es, i, n).segments, ms[i + 1].disk.segments, ms[j].disk.segments;
      GenStepTrans(a, b, c);
      GenStepTrans(a, c, DiskAt(ms, es, j, p).segments);
    }
  }

  lemma MomentInRun(ms: seq<Machine>, es: seq<Event>, i: nat, n: nat)
    requires Moment(ms, es, i, n)
    ensures |ms| == |es| + 1 && i <= |es|
  {
    hide EventPlan, DiskAt, CrashState;
  }

  /**
   * No generation is used twice. One that was on disk at some moment and gone at a later one, be it in the middle of
   * the same compaction, never comes back; and one that is still there holds the same file.
   */
  lemma RemovedGenerationsStayAway(ms: seq<Machine>, es: seq<Event>, i: nat, n: nat, j: nat, p: nat, k: nat, q: nat,
                                   g: u64)
    requires ValidRun(ms, es) && MachineInv(ms[0])
    requires Moment(ms, es, i, n) && Moment(ms, es, j, p) && Moment(ms, es, k, q)
    requires NotAfter(i, n, j, p) && NotAfter(j, p, k, q)
    requires g in DiskAt(ms, es, i, n).segments
    ensures g !in DiskAt(ms, es, j, p).segments ==> g !in DiskAt(ms, es, k, q).segments
    ensures g in DiskAt(ms, es, k, q).segments ==>
              DiskAt(ms, es, k, q).segments[g] == DiskAt(ms, es, i, n).segments[g]
  {
    hide Step, MachineInv, Moment, DiskAt, ValidRun, DiskInv, GenStep;
    MomentsOnlyGrow(ms, es, i, n, j, p);
    MomentsOnlyGrow(ms, es, j, p, k, q);
    MomentsOnlyGrow(ms, es, i, n, k, q);
    MomentInRun(ms, es, j, p);
    MomentInRun(ms, es, k, q);
    StaysAway(DiskAt(ms, es, i, n).segments, DiskAt(ms, es, j, p).segments, DiskAt(ms, es, k, q).segments, g);
  }

  lemma StaysAway(a: map<u64, Bytes>, b: map<u64, Bytes>, c: map<u64, Bytes>, g: u64)
    requires GenStep(a, b) && GenStep(b, c) && GenStep(a, c) && g in a
    ensures g !in b ==> g !in c
    ensures g in c ==> c[g] == a[g]
  {
    assert ReachedBy(g, b);
    var h :| h in b && g <= h;
  }

  /** A new store is a place where runs start: the empty directory, whose map is empty. */
  lemma EmptyDirectoryIsSound()
    ensures MachineInv(Down(EMPTY_DISK)) && Logical(EMPTY_DISK) == map[]
  {
    EmptyLog();
  }

  /** Opening the empty directory serves the empty map, and the first segment will have generation 1. */
  lemma EmptyDirectoryOpens(threshold: u64)
    ensures var v := Volatile(EMPTY, [], 1, threshold);
            Step(Down(EMPTY_DISK), OpenDone(threshold, []), Up(v, EMPTY_DISK)) && ServedView(v) == map[]
  {
    hide OpenSegment;
    EmptyLog();
    NothingLoaded();
    assert OpenPlan(EMPTY_DISK, []) == [];
    assert GenSet([]) == {};
  }

  /**
   * A compaction that is interrupted, followed by any number of interrupted recoveries and, perhaps, a completed one:
   * the map never changes, so no deleted key comes back.
   */
  lemma {:induction false} CompactionNeverResurrects(ms: seq<Machine>, es: seq<Event>)
    requires ValidRun(ms, es) && MachineInv(ms[0])
    requires forall i :: 0 <= i < |es| ==> es[i] == Interrupted(CompactOp) || es[i].OpenInterrupted? || es[i].OpenDone?
    ensures MachineInv(ms[|es|]) && Logical(ms[|es|].disk) == Logical(ms[0].disk)
    decreases |es|
  {
    hide Step, MachineInv, Logical;
    if es != [] {
      var n := |es| - 1;
      CompactionNeverResurrects(ms[..n + 1], es[..n]);
      assert Step(ms[n], es[n], ms[n + 1]);
      var _ := StepKeepsMeaning(ms[n], es[n], ms[n + 1]);
    }
  }

  // ---------- the last generation ----------

  /** A sound directory that no open accepts: its only segment, an empty one, has the last generation. */
  lemma LastGenerationDoesNotOpen()
    ensures var d := EMPTY_DISK.(segments := map[U64_MAX := SegmentBytes([])]);
            DiskInv(d) && !OpenOk(d)
  {
    hide SegmentBytes;
    EmptyLog();
    EmptySegmentIsStorable();
    StorableIsGood([]);
    OpenSucceedsIff(EMPTY_DISK.(segments := map[U64_MAX := SegmentBytes([])]));
  }

  lemma EmptySegmentIsStorable()
    ensures Storable([])
  {
  }

  /** A process between operations leaves a directory that opens. */
  lemma IdleOpens(v: Volatile, d: Disk)
    requires Idle(v, d)
    ensures OpenOk(d)
  {
    hide Scan, WalTable, Loaded, SegmentsInv, OpenOk;
    OpenSucceedsIff(d);
  }

  /** A flush or a merge that finds no generation after its own has installed the last one. */
  lemma LastIsUsed(op: StoreOp, v: Volatile, d: Disk)
    requires Idle(v, d) && Accepts(op) && Room(op, v) && !Completes(op, v)
    ensures U64_MAX in Surviving(Run(OpPlan(op, v, d), d))
  {
    hide DiskInv, Run, FlushPlan, MergePlan, TableFits, WithoutTombstones, ReadersTable, Accepts, OpRecord, FlushFile;
    hide Idle, Flushes, Logged, Frame, MergedRecords, CompactionOf, FlushedVolatile, FlushedDisk, Surviving;
    if !op.CompactOp? {
      var v1, d1 := Logged(v, OpRecord(op)), LoggedDisk(d, OpRecord(op));
      var first := [WalAppend(Frame(OpRecord(op)))];
      LoggedKeepsNext(v, OpRecord(op));
      IdleHasNoMarker(v, d);
      assert Run(first, d) == d1 by { RunLogged(d, OpRecord(op)); }
      RunConcat(first, FlushPlan(v1, d1), d);
      LastFlushIsUsed(v1, d1);
    } else if v.mem.table == map[] {
      assert ReadersTable(v.readers) + map[] == ReadersTable(v.readers);
      LastMergeIsUsed(v, d);
    } else if v.next == U64_MAX {
      assert FlushPlan(v, d) + [] == FlushPlan(v, d);
      IdleHasNoMarker(v, d);
      LastFlushIsUsed(v, d);
    } else {
      var v1, d1 := FlushedVolatile(v), FlushedDisk(v, d);
      FlushedIsIdle(v, d);
      FlushedReadersTable(v, d);
      FlushPlanEnds(v, d);
      RunConcat(FlushPlan(v, d), MergePlan(v1, d1), d);
      assert |v1.readers| >= 2 && v1.next == U64_MAX by { FlushedIsNext(v); }
      LastMergeIsUsed(v1, d1);
    }
  }

  lemma RunLogged(d: Disk, r: Record)
    ensures Run([WalAppend(Frame(r))], d) == LoggedDisk(d, r)
  {
    hide Frame, Run;
    RunOne(WalAppend(Frame(r)), d);
  }

  lemma IdleHasNoMarker(v: Volatile, d: Disk)
    requires Idle(v, d)
    ensures d.marker.None?
  {
    hide DiskInv, Scan, WalTable, Loaded;
  }

  lemma FlushedIsNext(v: Volatile)
    requires v.next < U64_MAX
    ensures FlushedVolatile(v).next == v.next + 1 && |FlushedVolatile(v).readers| == |v.readers| + 1
  {
    hide Sorted, ReaderOf;
  }

  lemma LastFlushIsUsed(v: Volatile, d: Disk)
    requires v.next == U64_MAX && d.marker.None?
    ensures U64_MAX in Surviving(Run(FlushPlan(v, d), d))
  {
    hide Run, FlushPlan, FlushFile;
    FlushPlanEnds(v, d);
  }

  lemma LastMergeIsUsed(v: Volatile, d: Disk)
    requires Mergeable(v, d) && v.next == U64_MAX
    ensures U64_MAX in Surviving(Run(MergePlan(v, d), d))
  {
    hide Run, MergePlan, MergedRecords, SegmentBytes, WellFormedMarker, Generations, GenSet, MarkerBytes, TableFits;
    hide WithoutTombstones, ReadersTable, DiskInv, Scan, WalTable, Loaded;
    var m := CompactionOf(v);
    CompactionIsWellFormed(v, d);
    OutputIsNew(m);
    MergePlanEnds(v, d);
    SurvivingWithMarker(MergedEnd(v, d), m);
    assert U64_MAX !in GenSet(m.olds) by { InGenSet(m.olds); }
  }

  lemma InGenSet(gens: seq<u64>)
    ensures forall g :: g in gens <==> g in GenSet(gens)
  {
  }

  /**
   * An operation that runs to its end or to its error leaves a directory that opens exactly when there were enough
   * generations: the condition can be checked before the call.
   */
  lemma OperationLeavesOpenableIff(op: StoreOp, v: Volatile, d: Disk)
    requires Idle(v, d) && Accepts(op) && Room(op, v)
    ensures OpenOk(Run(OpPlan(op, v, d), d)) <==> Completes(op, v)
  {
    hide DiskInv, Logical, CrashSafe, CrashState, Run, OpPlan, OpVolatile, Idle, Room, Completes, OpenOk, Surviving;
    hide ApplyOp, Accepts;
    var end := Run(OpPlan(op, v, d), d);
    OpIsSafe(op, v, d);
    if Completes(op, v) {
      IdleOpens(OpVolatile(op, v), end);
    } else {
      RunIsCrashState(OpPlan(op, v, d), d);
      CrashIsFine(OpPlan(op, v, d), d, {Logical(d), ApplyOp(Logical(d), op)}, end);
      LastIsUsed(op, v, d);
      OpenSucceedsIff(end);
    }
  }

  /** A flush leaves a directory that opens exactly when there was a generation left after its own. */
  lemma FlushLeavesOpenableIff(v: Volatile, d: Disk)
    requires Idle(v, d) && TableFits(v.mem.table)
    ensures OpenOk(Run(FlushPlan(v, d), d)) <==> v.next < U64_MAX
  {
    hide DiskInv, Logical, CrashSafe, Run, FlushPlan, TableFits, FlushFile, OpenOk, Scan, WalTable;
    FlushIsSafe(v, d);
    FlushPlanEnds(v, d);
    RunIsCrashState(FlushPlan(v, d), d);
    CrashIsFine(FlushPlan(v, d), d, {Logical(d)}, Run(FlushPlan(v, d), d));
    OpenSucceedsIff(Run(FlushPlan(v, d), d));
  }
}
