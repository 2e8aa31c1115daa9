/**
 * The crash protocol of `src/store.rs`: what a directory means, which directories a crash can leave, and the exact
 * sequence of file-system calls each operation makes.
 */
module Protocol {
  import opened Bytes
  import opened Errors
  import opened Records
  import opened Tables
  import opened Memtables
  import opened FileSystems
  import opened Wal
  import opened Segments
  import opened SegmentReaders
  import opened Layers
  import opened Markers

  // ---------- what a directory means ----------

  function GenSet(gens: seq<u64>): set<u64> {
    set g | g in gens
  }

  /** The segments that recovery keeps. */
  function Surviving(d: Disk): map<u64, Bytes> {
    if d.marker.None? then d.segments
    else
      match ParseMarker(d.marker.value)
      case Err(_) => d.segments
      case Ok(m) => if m.output in d.segments then d.segments - GenSet(m.olds) else d.segments
  }

  function WalTable(wal: Bytes): Table {
    match Scan(wal)
    case Ok((rs, _)) => TableOf(rs)
    case Err(_) => map[]
  }

  /** The map that the next completed open serves: the replayed log over the surviving segments. */
  function Logical(d: Disk): View {
    Live(Layered(Surviving(d)) + WalTable(d.wal))
  }

  /** With a marker on disk, the replaced segments are all there or the output is. */
  ghost predicate InTransaction(m: CompactionMarker, segments: map<u64, Bytes>) {
    if m.output in segments then segments.Keys <= GenSet(m.olds) + {m.output} else segments.Keys == GenSet(m.olds)
  }

  ghost predicate MarkerInv(d: Disk) {
    d.marker.Some? ==>
      ParseMarker(d.marker.value).Ok? && InTransaction(ParseMarker(d.marker.value).value, d.segments)
  }

  ghost predicate SegmentsInv(segments: map<u64, Bytes>) {
    forall g :: g in segments ==> GoodSegment(segments[g])
  }

  /** Holds of every directory, at every point of every operation and of recovery. */
  ghost predicate DiskInv(d: Disk) {
    SegmentsInv(d.segments) && Scan(d.wal).Ok? && MarkerInv(d)
  }

  // ---------- the process ----------

  datatype Volatile = Volatile(mem: Contents, readers: seq<Reader>, next: u64, threshold: u64)

  /** What `get` reads: the memtable over the readers. */
  function ServedView(v: Volatile): View {
    Live(ReadersTable(v.readers) + v.mem.table)
  }

  ghost predicate Above(next: u64, segments: map<u64, Bytes>) {
    forall g :: g in segments ==> g < next
  }

  /** Between operations: no leftovers, and the process's state is the replay and the loading of what is on disk. */
  ghost predicate Idle(v: Volatile, d: Disk) {
    && DiskInv(d)
    && d.marker == None && d.tempMarker == None && d.temps == map[]
    && Scan(d.wal).value.1 == |d.wal|
    && v.mem.table == WalTable(d.wal)
    && Loaded(v.readers, d.segments)
    && Above(v.next, d.segments)
  }

  // ---------- generations ----------

  /** Newly installed generations lie above all earlier ones, files are never changed, and the newest never sinks. */
  ghost predicate GenStep(before: map<u64, Bytes>, after: map<u64, Bytes>) {
    && (forall g :: g in after ==> (g in before && after[g] == before[g]) || Above(g, before))
    && (forall h :: h in before ==> ReachedBy(h, after))
  }

  ghost predicate ReachedBy(h: u64, segments: map<u64, Bytes>) {
    exists g :: g in segments && h <= g
  }

  lemma GenStepRefl(a: map<u64, Bytes>)
    ensures GenStep(a, a)
  {
  }

  lemma GenStepTrans(a: map<u64, Bytes>, b: map<u64, Bytes>, c: map<u64, Bytes>)
    requires GenStep(a, b) && GenStep(b, c)
    ensures GenStep(a, c)
  {
    forall g | g in c
      ensures (g in a && c[g] == a[g]) || Above(g, a)
    {
      if Above(g, b) {
        forall h | h in a
          ensures h < g
        {
          assert ReachedBy(h, b);
        }
      }
    }
    forall h | h in a
      ensures ReachedBy(h, c)
    {
      assert ReachedBy(h, b);
      var g :| g in b && h <= g;
      assert ReachedBy(g, c);
    }
  }

  // ---------- crash safety of a plan ----------

  ghost predicate Fine(origin: Disk, d: Disk, views: set<View>) {
    DiskInv(d) && Logical(d) in views && GenStep(origin.segments, d.segments)
  }

  /** Wherever the process dies in the plan, the directory is sound and means one of the views. */
  ghost predicate FineAfterCrash(plan: seq<Effect>, d: Disk, views: set<View>) {
    forall d' :: CrashState(plan, d, d') ==> Fine(d, d', views)
  }

  /** The same, seen from the start of the plan and from every directory that the plan passes through. */
  ghost predicate CrashSafe(plan: seq<Effect>, d: Disk, views: set<View>)
    decreases |plan|
  {
    FineAfterCrash(plan, d, views) && (plan != [] ==> CrashSafe(plan[1..], Apply(plan[0], d), views))
  }

  lemma CrashIsFine(plan: seq<Effect>, d: Disk, views: set<View>, d': Disk)
    requires CrashSafe(plan, d, views) && CrashState(plan, d, d')
    ensures Fine(d, d', views)
  {
    hide Fine, CrashState, Apply;
  }

  /** What is left of a plan is as safe as the plan. */
  lemma {:induction false} CrashSafeLater(plan: seq<Effect>, d: Disk, views: set<View>, n: nat)
    requires CrashSafe(plan, d, views) && n <= |plan|
    ensures CrashSafe(plan[n..], Run(plan[..n], d), views)
    decreases n
  {
    hide FineAfterCrash, Apply;
    if n == 0 {
      assert plan[0..] == plan && plan[..0] == [];
    } else {
      CrashSafeLater(plan[1..], Apply(plan[0], d), views, n - 1);
      assert plan[1..][n - 1..] == plan[n..] && plan[..n][1..] == plan[1..][..n - 1];
    }
  }

  lemma {:induction false} RunIsCrashState(plan: seq<Effect>, d: Disk)
    ensures CrashState(plan, d, Run(plan, d))
    decreases |plan|
  {
    hide Apply, Torn;
    if plan != [] {
      RunIsCrashState(plan[1..], Apply(plan[0], d));
    }
  }

  lemma FineConcat(p: seq<Effect>, q: seq<Effect>, d: Disk, views: set<View>)
    requires FineAfterCrash(p, d, views) && FineAfterCrash(q, Run(p, d), views)
    ensures FineAfterCrash(p + q, d, views)
  {
    hide DiskInv, Logical, GenStep, CrashState, Run;
    RunIsCrashState(p, d);
    forall d' | CrashState(p + q, d, d')
      ensures Fine(d, d', views)
    {
      CrashConcat(p, q, d, d');
      if !CrashState(p, d, d') {
        GenStepTrans(d.segments, Run(p, d).segments, d'.segments);
      }
    }
  }

  lemma {:induction false} CrashSafeConcat(p: seq<Effect>, q: seq<Effect>, d: Disk, views: set<View>)
    requires CrashSafe(p, d, views) && CrashSafe(q, Run(p, d), views)
    ensures CrashSafe(p + q, d, views)
    decreases |p|
  {
    hide FineAfterCrash, Apply;
    FineConcat(p, q, d, views);
    if p == [] {
      assert p + q == q;
    } else {
      assert (p + q)[0] == p[0] && (p + q)[1..] == p[1..] + q;
      CrashSafeConcat(p[1..], q, Apply(p[0], d), views);
    }
  }

  lemma {:induction false} CrashSafeWiden(plan: seq<Effect>, d: Disk, views: set<View>, more: set<View>)
    requires CrashSafe(plan, d, views) && views <= more
    ensures CrashSafe(plan, d, more)
    decreases |plan|
  {
    hide DiskInv, Logical, GenStep, CrashState, Apply;
    if plan != [] {
      CrashSafeWiden(plan[1..], Apply(plan[0], d), views, more);
    }
  }

  lemma CrashSafeNothing(d: Disk, views: set<View>)
    requires DiskInv(d) && Logical(d) in views
    ensures CrashSafe([], d, views)
  {
    hide DiskInv, Logical;
  }

  /** An effect that is not a write either happens or does not. */
  lemma CrashSafeOne(e: Effect, d: Disk, views: set<View>)
    requires !e.WalAppend? && !e.AppendTo?
    requires DiskInv(d) && Logical(d) in views && Fine(d, Apply(e, d), views)
    ensures CrashSafe([e], d, views)
  {
    hide DiskInv, Logical, Apply, GenStep;
    GenStepRefl(d.segments);
    forall d' | CrashState([e], d, d')
      ensures Fine(d, d', views)
    {
      assert CrashState([e][1..], Apply(e, d), d') ==> d' == Apply(e, d);
    }
    CrashSafeFirst(e, d, views);
  }

  /** A plan of one effect is safe when a crash in it is, and where it ends is sound. */
  lemma CrashSafeFirst(e: Effect, d: Disk, views: set<View>)
    requires FineAfterCrash([e], d, views) && DiskInv(Apply(e, d)) && Logical(Apply(e, d)) in views
    ensures CrashSafe([e], d, views)
  {
    hide DiskInv, Logical, Apply, FineAfterCrash;
    CrashSafeNothing(Apply(e, d), views);
    assert [e][1..] == [];
  }

  // ---------- effects on temporary files do not matter ----------

  predicate Temporary(f: File) {
    f.TempSegment? || f.TempMarker?
  }

  predicate Quiet(e: Effect) {
    (e.Create? || e.AppendTo? || e.Remove?) && Temporary(e.file)
  }

  predicate AllQuiet(plan: seq<Effect>) {
    forall e :: e in plan ==> Quiet(e)
  }

  predicate SameCore(a: Disk, b: Disk) {
    a.wal == b.wal && a.segments == b.segments && a.marker == b.marker
  }

  lemma SameCoreSameMeaning(a: Disk, b: Disk)
    requires SameCore(a, b)
    ensures Logical(a) == Logical(b) && (DiskInv(a) <==> DiskInv(b))
  {
    hide Live, Layered, WalTable, ParseMarker, SegmentsInv, Scan, InTransaction;
  }

  lemma {:induction false} QuietKeepsCore(plan: seq<Effect>, d: Disk, d': Disk)
    requires AllQuiet(plan) && CrashState(plan, d, d')
    ensures SameCore(d, d')
    decreases |plan|
  {
    if plan != [] {
      assert Quiet(plan[0]);
      if d' != d && !Torn(plan[0], d, d') {
        QuietKeepsCore(plan[1..], Apply(plan[0], d), d');
      }
    }
  }

  lemma QuietIsFine(plan: seq<Effect>, d: Disk, views: set<View>)
    requires AllQuiet(plan) && DiskInv(d) && Logical(d) in views
    ensures FineAfterCrash(plan, d, views)
  {
    hide DiskInv, Logical, CrashState, Quiet;
    forall d' | CrashState(plan, d, d')
      ensures Fine(d, d', views)
    {
      QuietKeepsCore(plan, d, d');
      SameCoreSameMeaning(d, d');
      GenStepRefl(d.segments);
    }
  }

  lemma {:induction false} CrashSafeQuiet(plan: seq<Effect>, d: Disk)
    requires AllQuiet(plan) && DiskInv(d)
    ensures CrashSafe(plan, d, {Logical(d)})
    ensures SameCore(d, Run(plan, d))
    decreases |plan|
  {
    hide DiskInv, Logical, CrashState, Quiet, Apply, FineAfterCrash;
    RunIsCrashState(plan, d);
    QuietKeepsCore(plan, d, Run(plan, d));
    QuietIsFine(plan, d, {Logical(d)});
    if plan != [] {
      var d1 := Apply(plan[0], d);
      RunIsCrashState([plan[0]], d);
      RunOne(plan[0], d);
      QuietKeepsCore([plan[0]], d, d1);
      SameCoreSameMeaning(d, d1);
      CrashSafeQuiet(plan[1..], d1);
    }
  }

  // ---------- plans ----------

  /** Writing a new segment under its temporary name. */
  function BuildPlan(gen: u64, file: Bytes, d: Disk): seq<Effect> {
    RemoveIfThere(TempSegment(gen), d) + [Create(TempSegment(gen)), AppendTo(TempSegment(gen), file)]
  }

  /** A build that failed: some bytes are there under the temporary name, and nothing else has changed. */
  ghost predicate PartlyBuilt(gen: u64, before: Trace, after: Trace) {
    && gen in after.disk.temps
    && var part := after.disk.temps[gen];
       && after.disk == before.disk.(temps := before.disk.temps[gen := part])
       && after.log == before.log + BuildPlan(gen, part, before.disk)
  }

  function Install(gen: u64): Effect {
    Rename(TempSegment(gen), Segment(gen))
  }

  function FlushFile(v: Volatile): Bytes {
    SegmentBytes(Sorted(v.mem.table))
  }

  /** `flush_memtable` with something to flush; the last generation installs but cannot be followed by another. */
  function FlushPlan(v: Volatile, d: Disk): seq<Effect> {
    BuildPlan(v.next, FlushFile(v), d) + [Install(v.next)] + (if v.next < U64_MAX then [WalSetLen(0)] else [])
  }

  function FlushedVolatile(v: Volatile): Volatile
    requires v.next < U64_MAX
  {
    v.(mem := EMPTY, readers := [ReaderOf(Sorted(v.mem.table), v.next)] + v.readers, next := v.next + 1)
  }

  function FlushedDisk(v: Volatile, d: Disk): Disk {
    d.(wal := if v.next < U64_MAX then [] else d.wal,
       segments := d.segments[v.next := FlushFile(v)],
       temps := d.temps - {v.next})
  }

  function Generations(readers: seq<Reader>): (gens: seq<u64>)
    ensures |gens| == |readers|
  {
    seq(|readers|, i requires 0 <= i < |readers| => readers[i].gen)
  }

  function MergedRecords(v: Volatile): seq<Record> {
    Sorted(WithoutTombstones(ReadersTable(v.readers)))
  }

  function CompactionOf(v: Volatile): CompactionMarker {
    CompactionMarker(v.next, Generations(v.readers))
  }

  function RemoveSegments(gens: seq<u64>): seq<Effect> {
    seq(|gens|, i requires 0 <= i < |gens| => Remove(Segment(gens[i])))
  }

  /** The first half of a compaction: build the output, mark, install. */
  function SwitchPlan(m: CompactionMarker, file: Bytes, d: Disk): seq<Effect> {
    BuildPlan(m.output, file, d) + MarkerPlan(m, d) + [Install(m.output)]
  }

  /** After the switch: the output installed, the marker in place, the old segments still there. */
  function SwitchedDisk(d: Disk, m: CompactionMarker, file: Bytes): Disk {
    Disk(d.wal, d.segments[m.output := file], d.temps - {m.output}, Some(MarkerBytes(m)), None)
  }

  /** The replacement of all segments by one: switch, remove the old ones, unmark. */
  function MergePlan(v: Volatile, d: Disk): seq<Effect> {
    SwitchPlan(CompactionOf(v), SegmentBytes(MergedRecords(v)), d)
    + (if v.next < U64_MAX then RemoveSegments(Generations(v.readers)) + [Remove(Marker)] else [])
  }

  function MergedVolatile(v: Volatile): Volatile
    requires v.next < U64_MAX
  {
    v.(readers := [ReaderOf(MergedRecords(v), v.next)], next := v.next + 1)
  }

  /** Where a merge ends: with generations left, merged and unmarked; otherwise switched and still marked. */
  function MergedEnd(v: Volatile, d: Disk): Disk {
    if v.next < U64_MAX then MergedDisk(v, d)
    else SwitchedDisk(d, CompactionOf(v), SegmentBytes(MergedRecords(v)))
  }

  function MergedDisk(v: Volatile, d: Disk): Disk {
    Disk(d.wal, map[v.next := SegmentBytes(MergedRecords(v))], d.temps - {v.next}, None, None)
  }

  function MergeIfUseful(v: Volatile, d: Disk): seq<Effect> {
    if |v.readers| < 2 then [] else MergePlan(v, d)
  }

  // ---------- the operations ----------

  datatype StoreOp = SetOp(key: Bytes, val: Bytes) | DeleteOp(key: Bytes) | CompactOp

  /** What an acknowledged operation does to the map. */
  function ApplyOp(view: View, op: StoreOp): View {
    match op
    case SetOp(k, x) => view[k := x]
    case DeleteOp(k) => view - {k}
    case CompactOp => view
  }

  function OpRecord(op: StoreOp): Record
    requires !op.CompactOp?
  {
    match op
    case SetOp(k, x) => RecordOf(k, Some(x))
    case DeleteOp(k) => RecordOf(k, None)
  }

  /** Keys and values within the bounds of `encode`. */
  predicate Accepts(op: StoreOp) {
    op.CompactOp? || Encodable(OpRecord(op))
  }

  function Logged(v: Volatile, r: Record): Volatile {
    v.(mem := Put(v.mem, r.key, ValueOf(r)))
  }

  function LoggedDisk(d: Disk, r: Record): Disk {
    d.(wal := d.wal + Frame(r))
  }

  predicate Flushes(v: Volatile) {
    v.mem.size >= v.threshold
  }

  /** The file-system calls of the operation, in order. */
  function OpPlan(op: StoreOp, v: Volatile, d: Disk): seq<Effect> {
    if op.CompactOp? then
      if v.mem.table == map[] then MergeIfUseful(v, d)
      else FlushPlan(v, d) + if v.next < U64_MAX then MergeIfUseful(FlushedVolatile(v), FlushedDisk(v, d)) else []
    else
      var r := OpRecord(op);
      [WalAppend(Frame(r))] + if Flushes(Logged(v, r)) then FlushPlan(Logged(v, r), LoggedDisk(d, r)) else []
  }

  /** No generation number runs out in the operation. */
  predicate Completes(op: StoreOp, v: Volatile) {
    if op.CompactOp? then
      if v.mem.table == map[] then |v.readers| < 2 || v.next < U64_MAX
      else v.next < U64_MAX && (|v.readers| < 1 || v.next + 1 < U64_MAX)
    else Flushes(Logged(v, OpRecord(op))) ==> v.next < U64_MAX
  }

  function OpVolatile(op: StoreOp, v: Volatile): Volatile
    requires Completes(op, v)
  {
    if op.CompactOp? then
      var v1 := if v.mem.table == map[] then v else FlushedVolatile(v);
      if |v1.readers| < 2 then v1 else MergedVolatile(v1)
    else
      var v1 := Logged(v, OpRecord(op));
      if Flushes(v1) then FlushedVolatile(v1) else v1
  }

  /** The segment that a merge would write, if there is anything to merge, stays shorter than 2^64 bytes. */
  ghost predicate MergeFits(v: Volatile) {
    |v.readers| >= 2 ==> TableFits(WithoutTombstones(ReadersTable(v.readers)))
  }

  /** The segments that the operation would write stay shorter than 2^64 bytes. */
  ghost predicate Room(op: StoreOp, v: Volatile) {
    if op.CompactOp? then
      && (v.mem.table != map[] ==> TableFits(v.mem.table))
      && (|v.readers| + (if v.mem.table == map[] then 0 else 1) >= 2 ==>
            TableFits(WithoutTombstones(ReadersTable(v.readers) + v.mem.table)))
    else Flushes(Logged(v, OpRecord(op))) ==> TableFits(Logged(v, OpRecord(op)).mem.table)
  }

  // ---------- recovery ----------

  /** Those of the generations that are still on disk. */
  function Remaining(gens: seq<u64>, segments: map<u64, Bytes>): (rest: seq<u64>)
    ensures forall g :: g in rest <==> g in gens && g in segments
  {
    if gens == [] then []
    else (if gens[0] in segments then [gens[0]] else []) + Remaining(gens[1..], segments)
  }

  /** `recover_pending_compaction`. */
  function RecoverPlan(d: Disk): seq<Effect> {
    RemoveIfThere(TempMarker, d)
    + (if d.marker.None? then []
       else
         match ParseMarker(d.marker.value)
         case Err(_) => []
         case Ok(m) =>
           RemoveSegments(if m.output in d.segments then Remaining(m.olds, d.segments) else [])
           + RemoveIfThere(TempSegment(m.output), d)
           + [Remove(Marker)])
  }

  function RecoveredDisk(d: Disk): Disk {
    Disk(d.wal, Surviving(d), RecoveredTemps(d), None, None)
  }

  function RecoveredTemps(d: Disk): map<u64, Bytes> {
    if d.marker.Some? && ParseMarker(d.marker.value).Ok? then d.temps - {ParseMarker(d.marker.value).value.output}
    else d.temps
  }

  /** When `recover_pending_compaction` returns without an error. */
  predicate RecoverOk(d: Disk) {
    d.marker.Some? ==>
      && ParseMarker(d.marker.value).Ok?
      && var m := ParseMarker(d.marker.value).value;
         if m.output in d.segments then OpenSegment(d.segments[m.output], m.output).Ok?
         else forall g :: g in m.olds ==> g in d.segments
  }

  /** When `load_segments` returns without an error: every file opens, and there is a generation left. */
  predicate LoadOk(segments: map<u64, Bytes>) {
    U64_MAX !in segments && forall g :: g in segments ==> OpenSegment(segments[g], g).Ok?
  }

  /** When an open succeeds. */
  predicate OpenOk(d: Disk) {
    RecoverOk(d) && LoadOk(Surviving(d)) && Scan(d.wal).Ok?
  }

  function RemoveTemps(order: seq<u64>): seq<Effect> {
    seq(|order|, i requires 0 <= i < |order| => Remove(TempSegment(order[i])))
  }

  /** Directories list in any order; this is one for the temporary segments left after recovery. */
  ghost predicate TempOrder(order: seq<u64>, d: Disk) {
    GenSet(order) == RecoveredTemps(d).Keys
  }

  /** The file-system calls of a successful open. */
  function OpenPlan(d: Disk, order: seq<u64>): seq<Effect> {
    RecoverPlan(d) + RemoveTemps(order) + if Scan(d.wal).Ok? then CutPlan(d.wal, Scan(d.wal).value.1) else []
  }

  /** The file-system calls of any open: it stops at the first error. */
  function OpenAttempt(d: Disk, order: seq<u64>): seq<Effect> {
    if !RecoverOk(d) then RemoveIfThere(TempMarker, d)
    else if !OpenOk(d) then RecoverPlan(d) + RemoveTemps(order)
    else OpenPlan(d, order)
  }

  /** Where any open ends. */
  function AttemptedDisk(d: Disk): Disk {
    if !RecoverOk(d) then d.(tempMarker := None)
    else if !OpenOk(d) then RecoveredDisk(d).(temps := map[])
    else OpenedDisk(d)
  }

  function OpenedDisk(d: Disk): Disk
    requires Scan(d.wal).Ok?
  {
    Disk(d.wal[..Scan(d.wal).value.1], Surviving(d), map[], None, None)
  }

  function NextGeneration(segments: map<u64, Bytes>): nat {
    if segments == map[] then 1 else Newest(segments.Keys) + 1
  }

  /** The state of a process whose open of d has completed. */
  ghost predicate Opened(v: Volatile, d: Disk, threshold: u64) {
    && Scan(d.wal).Ok?
    && v.mem == PutAll(EMPTY, Scan(d.wal).value.0)
    && Loaded(v.readers, Surviving(d))
    && v.next == NextGeneration(Surviving(d))
    && v.threshold == threshold
  }
}
