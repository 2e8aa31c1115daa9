/** What an operation achieves, told from its arguments and the state alone (`src/store.rs`, `src/memtable.rs`). */
module Operations {
  import opened Bytes
  import opened Errors
  import opened Records
  import opened Tables
  import opened Memtables
  import opened FileSystems
  import opened Segments
  import opened SegmentReaders
  import opened Layers
  import opened Markers
  import opened Protocol
  import opened CrashSafety
  import opened Recovery
  import opened Runs
  import opened Compactions
  import opened Outcomes
  import Wal

  // ---------- the flush threshold ----------

  /** The size of the memtable once the operation is remembered. */
  function SizeAfter(op: StoreOp, v: Volatile): u64
    requires !op.CompactOp?
  {
    match op
    case SetOp(k, x) => Put(v.mem, k, Some(x)).size
    case DeleteOp(k) => Put(v.mem, k, None).size
  }

  /** Below the threshold a set or a delete only logs and remembers. */
  lemma BelowThresholdNothingIsFlushed(op: StoreOp, v: Volatile, d: Disk)
    requires !op.CompactOp? && SizeAfter(op, v) < v.threshold
    ensures OpPlan(op, v, d) == [WalAppend(Frame(OpRecord(op)))]
    ensures Completes(op, v)
    ensures OpVolatile(op, v).readers == v.readers && OpVolatile(op, v).next == v.next
    ensures OpVolatile(op, v).mem.size == SizeAfter(op, v)
    ensures Run(OpPlan(op, v, d), d).segments == d.segments
  {
    hide Frame, Put, Run;
    RunOne(WalAppend(Frame(OpRecord(op))), d);
    assert [WalAppend(Frame(OpRecord(op)))] + [] == [WalAppend(Frame(OpRecord(op)))];
  }

  /** At the threshold, and above it, everything is flushed: a new segment, an empty memtable, an empty log. */
  lemma AtThresholdAllIsFlushed(op: StoreOp, v: Volatile, d: Disk)
    requires !op.CompactOp? && SizeAfter(op, v) >= v.threshold
    ensures Completes(op, v) <==> v.next < 0xFFFF_FFFF_FFFF_FFFF
    ensures v.next in Run(OpPlan(op, v, d), d).segments
    ensures Completes(op, v) ==>
              && OpVolatile(op, v).mem == Contents(map[], 0)
              && Run(OpPlan(op, v, d), d).wal == []
              && OpVolatile(op, v).next == v.next + 1
              && |OpVolatile(op, v).readers| == |v.readers| + 1
  {
    hide Frame, Put, Run, FlushPlan, FlushFile;
    var r := OpRecord(op);
    var v1, d1 := Logged(v, r), LoggedDisk(d, r);
    RunOne(WalAppend(Frame(r)), d);
    RunConcat([WalAppend(Frame(r))], FlushPlan(v1, d1), d);
    FlushPlanEnds(v1, d1);
  }

  /** So an acknowledged write leaves the memtable empty or below the threshold, in any state. */
  lemma AcknowledgedWriteIsBelowThreshold(op: StoreOp, s: Snapshot, s': Snapshot)
    requires !op.CompactOp? && Written(op, true, s, s')
    ensures s'.v.mem == Contents(map[], 0) || s'.v.mem.size < s.v.threshold
  {
    hide Frame, PartlyBuilt, FlushFits, FlushPlan, Encodable, Put;
    var r := OpRecord(op);
    assert r.key in Logged(s.v, r).mem.table by { LoggedIsThere(s.v, r); }
  }

  /** And an acknowledged compaction leaves it empty. */
  lemma CompactionLeavesNothingUnflushed(res: Result<CompactionStats>, s: Snapshot, s': Snapshot)
    requires Compacted(res, s, s') && res.Ok?
    ensures s'.v.mem.table == map[]
  {
    hide PartlyBuilt, FlushFits, FlushPlan, Switched, OpenSegment, Did, Generations, Removable;
  }

  // ---------- success ----------

  /** A set or delete that is accepted succeeds exactly when there is room for the segment and a generation for it. */
  lemma WriteSucceedsIff(op: StoreOp, ok: bool, s: Snapshot, s': Snapshot)
    requires !op.CompactOp? && Idle(s.v, s.at.disk) && Accepts(op) && Written(op, ok, s, s')
    ensures ok <==> Room(op, s.v) && Completes(op, s.v)
  {
    hide Idle, Accepts, FlushPlan, Did, Sorted, Writable, TableFits, Completes, OpRecord, Frame, Put, PartlyBuilt;
    if Room(op, s.v) {
      WrittenIsPerformed(op, ok, s, s');
    } else {
      assert OpRecord(op).key in Logged(s.v, OpRecord(op)).mem.table by { LoggedIsThere(s.v, OpRecord(op)); }
    }
  }

  lemma LoggedIsThere(v: Volatile, r: Record)
    ensures r.key in Logged(v, r).mem.table
  {
  }

  /** A compaction succeeds exactly when there is room for the segments it writes and generations for them. */
  lemma CompactSucceedsIff(res: Result<CompactionStats>, s: Snapshot, s': Snapshot)
    requires Idle(s.v, s.at.disk) && Compacted(res, s, s')
    ensures res.Ok? <==> Room(CompactOp, s.v) && Completes(CompactOp, s.v)
  {
    hide Idle, FlushPlan, Did, Sorted, Writable, TableFits, Completes, PartlyBuilt, Merged, FlushedVolatile,
      FlushedDisk;
    hide WithoutTombstones, ReadersTable, Run;
    var v, d := s.v, s.at.disk;
    if Room(CompactOp, v) {
      CompactedIsPerformed(res, s, s');
    } else if v.mem.table == map[] {
      assert ReadersTable(v.readers) + map[] == ReadersTable(v.readers);
      MergeNeedsRoom(res, s, s');
    } else if FlushFits(v) && v.next < U64_MAX {
      var flushed, mid :| Flushed(flushed, s, mid)
        && if flushed then MergedIfUseful(res, mid, s') else res.Err? && s' == mid;
      DiskAfter(FlushPlan(v, d), s.at, mid.at);
      FlushPlanEnds(v, d);
      FlushedIsIdle(v, d);
      FlushedReadersTable(v, d);
      FlushedIsNext(v);
      MergeNeedsRoom(res, mid, s');
    }
  }

  lemma MergeNeedsRoom(res: Result<CompactionStats>, s: Snapshot, s': Snapshot)
    requires Idle(s.v, s.at.disk) && !MergeFits(s.v) && MergedIfUseful(res, s, s')
    ensures res.Err?
  {
    hide Sorted, Writable, TableFits, WithoutTombstones, ReadersTable, MergeInto, Finished, PartlyBuilt, Did,
      Generations;
    hide SegmentBytes, DiskInv, WalTable, Wal.Scan, IsReaderOf, Reads;
    IdleParts(s.v, s.at.disk);
    MergeIsOverlay(s.v.readers, s.at.disk.segments);
  }

  // ---------- generations ----------

  /** The next generation is 1 in an empty store, and otherwise one above the newest. */
  lemma NextIsOneAboveNewest(segments: map<u64, Bytes>)
    ensures segments == map[] ==> NextGeneration(segments) == 1
    ensures segments != map[] ==>
              && (exists g :: g in segments && NextGeneration(segments) - 1 == g)
              && forall g :: g in segments ==> g < NextGeneration(segments)
  {
    if segments != map[] {
      var newest := Newest(segments.Keys);
      assert IsNewest(segments.Keys, newest);
      assert newest in segments && NextGeneration(segments) - 1 == newest;
    }
  }

  lemma NextAfterNewest(segments: map<u64, Bytes>, g: u64, file: Bytes)
    requires Above(g, segments)
    ensures NextGeneration(segments[g := file]) == g + 1
  {
    var all := segments[g := file];
    assert g in all.Keys;
    assert IsNewest(all.Keys, Newest(all.Keys));
  }

  /** A serving process would find the same next generation if it opened its directory again. */
  ghost predicate Tight(m: Machine) {
    m.Up? ==> m.v.next == NextGeneration(m.disk.segments)
  }

  lemma FlushKeepsTight(v: Volatile, d: Disk)
    requires Above(v.next, d.segments) && v.next < U64_MAX
    ensures FlushedVolatile(v).next == NextGeneration(FlushedDisk(v, d).segments)
  {
    hide FlushFile, NextGeneration;
    NextAfterNewest(d.segments, v.next, FlushFile(v));
  }

  lemma MergeKeepsTight(v: Volatile, d: Disk)
    requires v.next < U64_MAX
    ensures MergedVolatile(v).next == NextGeneration(MergedDisk(v, d).segments)
  {
    hide MergedRecords, SegmentBytes, NextGeneration;
    NextAfterNewest(map[], v.next, SegmentBytes(MergedRecords(v)));
    assert map[][v.next := SegmentBytes(MergedRecords(v))] == map[v.next := SegmentBytes(MergedRecords(v))];
  }

  lemma WriteKeepsTight(op: StoreOp, v: Volatile, d: Disk)
    requires Idle(v, d) && !op.CompactOp? && Completes(op, v) && v.next == NextGeneration(d.segments)
    ensures OpVolatile(op, v).next == NextGeneration(Run(OpPlan(op, v, d), d).segments)
  {
    hide Frame, Put, Run, FlushPlan, FlushFile, NextGeneration, Idle, FlushedVolatile, FlushedDisk;
    var r := OpRecord(op);
    var v1, d1 := Logged(v, r), LoggedDisk(d, r);
    IdleIsAbove(v, d);
    RunOne(WalAppend(Frame(r)), d);
    if Flushes(v1) {
      RunConcat([WalAppend(Frame(r))], FlushPlan(v1, d1), d);
      FlushPlanEnds(v1, d1);
      FlushKeepsTight(v1, d1);
    } else {
      assert [WalAppend(Frame(r))] + [] == [WalAppend(Frame(r))];
    }
  }

  lemma MergeIfUsefulKeepsTight(v: Volatile, d: Disk)
    requires Idle(v, d) && MergeFits(v) && v.next == NextGeneration(d.segments)
    requires |v.readers| < 2 || v.next < U64_MAX
    ensures var v' := if |v.readers| < 2 then v else MergedVolatile(v);
            v'.next == NextGeneration(Run(MergeIfUseful(v, d), d).segments)
  {
    hide Run, MergePlan, NextGeneration, Idle, MergedVolatile, MergedDisk, TableFits, WithoutTombstones, ReadersTable;
    if |v.readers| < 2 {
      RunNothing(d);
    } else {
      MergePlanEnds(v, d);
      MergeKeepsTight(v, d);
    }
  }

  lemma CompactKeepsTight(v: Volatile, d: Disk)
    requires Idle(v, d) && Room(CompactOp, v) && Completes(CompactOp, v) && v.next == NextGeneration(d.segments)
    ensures OpVolatile(CompactOp, v).next == NextGeneration(Run(OpPlan(CompactOp, v, d), d).segments)
  {
    hide Run, FlushPlan, MergeIfUseful, NextGeneration, Idle, Room, MergedVolatile, FlushedDisk, FlushFits, MergeFits;
    CompactCase(v, d);
    if v.mem.table == map[] {
      MergeIfUsefulKeepsTight(v, d);
    } else {
      IdleIsAbove(v, d);
      FlushKeepsTight(v, d);
      RunConcat(FlushPlan(v, d), MergeIfUseful(FlushedVolatile(v), FlushedDisk(v, d)), d);
      FlushedIsNext(v);
      MergeIfUsefulKeepsTight(FlushedVolatile(v), FlushedDisk(v, d));
    }
  }

  lemma OpenIsTight(d: Disk, order: seq<u64>, v: Volatile, threshold: u64)
    requires DiskInv(d) && TempOrder(order, d) && Opened(v, d, threshold)
    ensures v.next == NextGeneration(Run(OpenPlan(d, order), d).segments)
  {
    hide DiskInv, TempOrder, OpenPlan, Run, Wal.Scan, NextGeneration, Surviving, Loaded, PutAll;
    OpenIsSafe(d, order);
  }

  /** Through any run, the generation that a serving process would use next is the one that its directory gives. */
  lemma {:induction false} NextStaysTight(ms: seq<Machine>, es: seq<Event>, i: nat)
    requires ValidRun(ms, es) && MachineInv(ms[0]) && Tight(ms[0]) && i <= |es|
    ensures Tight(ms[i])
    decreases i
  {
    hide Run, OpPlan, OpVolatile, Room, Completes, OpenPlan, Opened, OpenOk, Answer, CrashState, NextGeneration,
      TempOrder;
    hide MachineInv, Accepts, GenStep;
    if i > 0 {
      var m, e, m' := ms[i - 1], es[i - 1], ms[i];
      NextStaysTight(ms, es, i - 1);
      GenerationsOnlyGrow(ms, es, i - 1, i - 1);
      assert Step(m, e, ms[i - 1 + 1]);
      InvParts(m);
      match e
      case Acknowledged(op) =>
        if op.CompactOp? {
          CompactKeepsTight(m.v, m.disk);
        } else {
          WriteKeepsTight(op, m.v, m.disk);
        }
      case OpenDone(threshold, order) =>
        OpenIsTight(m.disk, order, m'.v, threshold);
      case _ =>
    }
  }

  lemma InvParts(m: Machine)
    requires MachineInv(m)
    ensures DiskInv(m.disk) && (m.Up? ==> Idle(m.v, m.disk))
  {
    hide DiskInv, Idle;
  }

  // ---------- the remaining methods as steps ----------

  /** What `get` returns between operations is an answer of the run; a refused write is a step that changes nothing. */
  lemma AnsweringIsAStep(v: Volatile, d: Disk, key: Bytes)
    requires Idle(v, d)
    ensures AllSane(v.readers) && Answer(v, key).Ok?
    ensures Step(Up(v, d), Answered(key, Answer(v, key).value), Up(v, d))
  {
    hide Idle, Logical, Answer;
    AnswerIsLogical(v, d, key);
  }

  lemma RefusingIsAStep(op: StoreOp, ok: bool, s: Snapshot, s': Snapshot)
    requires !op.CompactOp? && !Accepts(op) && Written(op, ok, s, s')
    ensures !ok && Step(Up(s.v, s.at.disk), Refused(op), Up(s'.v, s'.at.disk)) && s'.at.log == s.at.log
  {
    hide Accepts;
  }

  /** What `set` and `delete` accept: keys and values of at most 64 MiB. */
  lemma AcceptsIff(op: StoreOp)
    ensures Accepts(op) <==>
            match op
            case SetOp(k, x) => |k| <= 67_108_864 && |x| <= 67_108_864
            case DeleteOp(k) => |k| <= 67_108_864
            case CompactOp => true
  {
  }
}
