/** Recovery and opening: safe to crash in, repeatable, and ending in a process that serves the logical map. */
module Recovery {
  import opened Bytes
  import opened Errors
  import opened Records
  import opened Tables
  import opened Memtables
  import opened FileSystems
  import opened Wal
  import opened Segments
  import opened SegmentReaders
  import opened Layers
  import opened Markers
  import opened Protocol
  import opened CrashSafety

  // ---------- recover_pending_compaction ----------

  lemma QuietChain(plan: seq<Effect>, q: seq<Effect>, d: Disk)
    requires DiskInv(d) && AllQuiet(q)
    requires CrashSafe(plan, d, {Logical(d)})
    requires DiskInv(Run(plan, d)) && Logical(Run(plan, d)) == Logical(d)
    ensures CrashSafe(plan + q, d, {Logical(d)}) && Run(plan + q, d) == Run(q, Run(plan, d))
    ensures DiskInv(Run(plan + q, d)) && Logical(Run(plan + q, d)) == Logical(d)
  {
    hide DiskInv, Logical, CrashSafe, Run, Quiet;
    var d1 := Run(plan, d);
    CrashSafeQuiet(q, d1);
    SameCoreSameMeaning(d1, Run(q, d1));
    Chain(plan, q, d, {Logical(d)});
  }

  /** A pending compaction that is on disk can be completed or rolled back. */
  lemma RecoveryIsPossible(d: Disk)
    requires DiskInv(d)
    ensures RecoverOk(d)
  {
    hide OpenSegment, ParseMarker, Scan, GoodSegment;
    if d.marker.Some? {
      var m := ParseMarker(d.marker.value).value;
      if m.output in d.segments {
        var rs := GoodSegmentOpens(d.segments[m.output], m.output);
      }
    }
  }

  /** A crash anywhere in recovery leaves the same map, so recovery may be interrupted any number of times. */
  lemma RecoverIsSafe(d: Disk)
    requires DiskInv(d)
    ensures CrashSafe(RecoverPlan(d), d, {Logical(d)})
    ensures Run(RecoverPlan(d), d) == RecoveredDisk(d)
    ensures DiskInv(RecoveredDisk(d)) && Logical(RecoveredDisk(d)) == Logical(d)
  {
    hide DiskInv, Logical, CrashSafe, Run, ParseMarker, RemoveIfThere, RemoveSegments, Quiet, Remaining;
    var first := RemoveIfThere(TempMarker, d);
    RemoveIfThereIsQuiet(TempMarker, d);
    var d1 := d.(tempMarker := None);
    CrashSafeQuiet(first, d);
    SameCoreSameMeaning(d, d1);
    if d.marker.None? {
      assert RecoverPlan(d) == first + [] == first;
    } else {
      MarkerIsParsed(d);
      var m := ParseMarker(d.marker.value).value;
      var gens := if m.output in d.segments then Remaining(m.olds, d.segments) else [];
      ClearOldSegments(d1, m);
      var d2 := d1.(segments := Surviving(d));
      Chain(first, RemoveSegments(gens), d, {Logical(d)});
      var third := RemoveIfThere(TempSegment(m.output), d);
      assert third == RemoveIfThere(TempSegment(m.output), d2) by { SameTemp(TempSegment(m.output), d, d2); }
      RemoveIfThereIsQuiet(TempSegment(m.output), d2);
      QuietChain(first + RemoveSegments(gens), third, d);
      var d3 := d2.(temps := d2.temps - {m.output});
      NothingLeftToDrop(d, m, d3);
      UnmarkIsSafe(d3);
      RunOne(Remove(Marker), d3);
      Chain(first + RemoveSegments(gens) + third, [Remove(Marker)], d, {Logical(d)});
      assert RecoverPlan(d) == first + RemoveSegments(gens) + third + [Remove(Marker)];
    }
  }

  lemma MarkerIsParsed(d: Disk)
    requires DiskInv(d) && d.marker.Some?
    ensures ParseMarker(d.marker.value).Ok?
  {
    hide ParseMarker, Scan, SegmentsInv, InTransaction;
  }

  lemma SameTemp(f: File, d: Disk, d': Disk)
    requires f.TempSegment? && d.temps == d'.temps
    ensures RemoveIfThere(f, d) == RemoveIfThere(f, d')
  {
  }

  /** Completing removes the old segments that are left; rolling back removes none. */
  lemma ClearOldSegments(d: Disk, m: CompactionMarker)
    requires DiskInv(d) && d.marker.Some? && ParseMarker(d.marker.value) == Ok(m)
    ensures var gens := if m.output in d.segments then Remaining(m.olds, d.segments) else [];
            var d1 := d.(segments := Surviving(d));
            && CrashSafe(RemoveSegments(gens), d, {Logical(d)})
            && Run(RemoveSegments(gens), d) == d1
            && DiskInv(d1) && Logical(d1) == Logical(d)
  {
    hide DiskInv, Logical, CrashSafe, ParseMarker;
    if m.output in d.segments {
      var gens := Remaining(m.olds, d.segments);
      RemovalIsSafe(gens, d, m);
      assert d.segments - GenSet(gens) == d.segments - GenSet(m.olds);
    } else {
      CrashSafeNothing(d, {Logical(d)});
      assert RemoveSegments([]) == [];
    }
  }

  lemma NothingLeftToDrop(d: Disk, m: CompactionMarker, d3: Disk)
    requires d.marker.Some? && ParseMarker(d.marker.value) == Ok(m)
    requires d3.marker == d.marker && d3.segments == Surviving(d)
    ensures Surviving(d3) == d3.segments
  {
    hide ParseMarker;
  }

  // ---------- remove_stale_temp_files and the log cut ----------

  lemma {:induction false} RemoveTempsEnds(order: seq<u64>, d: Disk)
    ensures AllQuiet(RemoveTemps(order))
    ensures Run(RemoveTemps(order), d) == d.(temps := d.temps - GenSet(order))
    decreases |order|
  {
    if order == [] {
      assert d.temps - GenSet([]) == d.temps;
    } else {
      var g, rest := order[0], order[1..];
      assert RemoveTemps(order) == [Remove(TempSegment(g))] + RemoveTemps(rest);
      RemoveTempsEnds(rest, d.(temps := d.temps - {g}));
      assert d.temps - {g} - GenSet(rest) == d.temps - GenSet(order);
    }
  }

  lemma CutIsSafe(d: Disk)
    requires DiskInv(d)
    ensures var n := Scan(d.wal).value.1;
            var d1 := d.(wal := d.wal[..n]);
            && CrashSafe(CutPlan(d.wal, n), d, {Logical(d)})
            && Run(CutPlan(d.wal, n), d) == d1
            && DiskInv(d1) && Logical(d1) == Logical(d)
  {
    hide Scan, Layered, WalTable, SegmentsInv, Live, GenStep, ParseMarker, InTransaction;
    var n := Scan(d.wal).value.1;
    CutLog(d.wal);
    if n < |d.wal| {
      GenStepRefl(d.segments);
      CrashSafeOne(WalSetLen(n), d, {Logical(d)});
      RunOne(WalSetLen(n), d);
    } else {
      assert d.wal[..n] == d.wal;
      CrashSafeNothing(d, {Logical(d)});
    }
  }

  // ---------- the whole open ----------

  /** A crash anywhere in an open leaves the same map; a completed open leaves a clean directory. */
  lemma OpenIsSafe(d: Disk, order: seq<u64>)
    requires DiskInv(d) && TempOrder(order, d)
    ensures CrashSafe(OpenPlan(d, order), d, {Logical(d)})
    ensures Run(OpenPlan(d, order), d) == OpenedDisk(d)
    ensures DiskInv(OpenedDisk(d)) && Logical(OpenedDisk(d)) == Logical(d)
  {
    hide DiskInv, Logical, CrashSafe, Run, ParseMarker, RecoverPlan, RemoveTemps, Scan, Surviving, Quiet;
    assert Scan(d.wal).Ok? by { LogIsScannable(d); }
    RecoverIsSafe(d);
    var d1 := RecoveredDisk(d);
    RemoveTempsEnds(order, d1);
    QuietChain(RecoverPlan(d), RemoveTemps(order), d);
    var d2 := d1.(temps := d1.temps - GenSet(order));
    assert d2.temps == map[];
    CutIsSafe(d2);
    Chain(RecoverPlan(d) + RemoveTemps(order), CutPlan(d.wal, Scan(d.wal).value.1), d, {Logical(d)});
  }

  // ---------- recovery of any directory ----------

  /** Effects that leave installed segments alone. */
  predicate SparesSegments(e: Effect) {
    match e
    case WalAppend(_) => true
    case WalSetLen(_) => true
    case Create(f) => !f.Segment?
    case AppendTo(f, _) => !f.Segment?
    case Rename(_, _) => false
    case Remove(f) => !f.Segment?
  }

  /** Of a plan that removes segments of `gone` and spares the others, only those of `gone` can be missing. */
  lemma {:induction false} OnlyTheseGo(plan: seq<Effect>, d: Disk, left: Disk, gone: set<u64>)
    requires forall e :: e in plan ==> SparesSegments(e) || exists g :: g in gone && e == Remove(Segment(g))
    requires CrashState(plan, d, left)
    ensures forall g :: g in d.segments && g !in gone ==> g in left.segments && left.segments[g] == d.segments[g]
    decreases |plan|
  {
    hide SparesSegments, Apply, Torn;
    if plan != [] && left != d {
      assert plan[0] in plan;
      assert forall e :: e in plan[1..] ==> e in plan;
      OneGoes(plan[0], d, left);
      if !Torn(plan[0], d, left) {
        OnlyTheseGo(plan[1..], Apply(plan[0], d), left, gone);
      }
    }
  }

  lemma OneGoes(e: Effect, d: Disk, left: Disk)
    ensures SparesSegments(e) ==> Apply(e, d).segments == d.segments
    ensures SparesSegments(e) && Torn(e, d, left) ==> left.segments == d.segments
    ensures e.Remove? && e.file.Segment? ==> Apply(e, d).segments == d.segments - {e.file.gen}
    ensures e.Remove? && Torn(e, d, left) ==> left == d || left == Apply(e, d)
  {
  }

  /**
   * In any directory, and wherever an open dies or fails: an old segment is removed only when an accepted marker lists
   * it and the output that replaces it is there, opens, and stays.
   */
  lemma OldSegmentsGoOnlyBehindAGoodOutput(d: Disk, order: seq<u64>, left: Disk, g: u64)
    requires CrashState(OpenAttempt(d, order), d, left) && g in d.segments && g !in left.segments
    ensures d.marker.Some? && ParseMarker(d.marker.value).Ok?
    ensures var m := ParseMarker(d.marker.value).value;
            && g in m.olds && m.output in d.segments && OpenSegment(d.segments[m.output], m.output).Ok?
            && m.output in left.segments && left.segments[m.output] == d.segments[m.output]
  {
    hide ParseMarker, OpenSegment, CrashState, RecoverPlan, Scan, OpenOk, RemoveTemps, LoadOk, Surviving, CutPlan;
    var plan := OpenAttempt(d, order);
    var gone := if d.marker.Some? && ParseMarker(d.marker.value).Ok? && RecoverOk(d)
                   && ParseMarker(d.marker.value).value.output in d.segments
                then GenSet(ParseMarker(d.marker.value).value.olds) else {};
    forall e | e in plan
      ensures SparesSegments(e) || exists h :: h in gone && e == Remove(Segment(h))
    {
      AttemptSpares(d, order, e);
    }
    OnlyTheseGo(plan, d, left, gone);
    AcceptedMarkersAreWellFormed(d.marker.value);
  }

  lemma AttemptSpares(d: Disk, order: seq<u64>, e: Effect)
    requires e in OpenAttempt(d, order)
    ensures || SparesSegments(e)
            || (&& RecoverOk(d) && d.marker.Some? && ParseMarker(d.marker.value).Ok?
                && ParseMarker(d.marker.value).value.output in d.segments
                && exists h :: h in GenSet(ParseMarker(d.marker.value).value.olds) && e == Remove(Segment(h)))
  {
    hide ParseMarker, OpenSegment, Scan, OpenOk, RecoverOk, Remaining;
    if RecoverOk(d) && e in RecoverPlan(d) && d.marker.Some? && ParseMarker(d.marker.value).Ok? {
      var m := ParseMarker(d.marker.value).value;
      var gens := if m.output in d.segments then Remaining(m.olds, d.segments) else [];
      if e in RemoveSegments(gens) {
        var i :| 0 <= i < |gens| && e == RemoveSegments(gens)[i];
        assert gens[i] in gens;
      }
    }
  }

  /** Recovery refuses a marker it does not accept, an output that does not open, and a gap among the old segments. */
  lemma RecoveryRefuses(d: Disk)
    requires d.marker.Some?
    requires
      match ParseMarker(d.marker.value)
      case Err(_) => true
      case Ok(m) =>
        if m.output in d.segments then OpenSegment(d.segments[m.output], m.output).Err?
        else exists g :: g in m.olds && g !in d.segments
    ensures !OpenOk(d) && AttemptedDisk(d) == d.(tempMarker := None)
  {
    hide ParseMarker, OpenSegment;
  }

  /** An open that fails keeps the whole log, and one that succeeds a prefix of it. */
  lemma OpenKeepsLog(d: Disk)
    ensures AttemptedDisk(d).wal <= d.wal
    ensures !OpenOk(d) ==> AttemptedDisk(d).wal == d.wal
  {
    hide ParseMarker, OpenSegment, Scan, LoadOk, Surviving;
  }

  /** Otherwise it completes the replacement, or takes it back: the marker and the temporary output go either way. */
  lemma RecoveryCompletesOrRollsBack(d: Disk)
    requires d.marker.Some? && ParseMarker(d.marker.value).Ok?
    requires var m := ParseMarker(d.marker.value).value;
             if m.output in d.segments then OpenSegment(d.segments[m.output], m.output).Ok?
             else forall g :: g in m.olds ==> g in d.segments
    ensures var m, end := ParseMarker(d.marker.value).value, AttemptedDisk(d);
            && end.marker.None? && end.tempMarker.None? && end.temps == map[]
            && (m.output !in d.segments ==> end.segments == d.segments)
            && (m.output in d.segments ==>
                  forall g :: g in end.segments <==> g in d.segments && g !in m.olds)
            && forall g :: g in end.segments ==> end.segments[g] == d.segments[g]
  {
    hide ParseMarker, OpenSegment, Scan, LoadOk;
  }

  lemma LogIsScannable(d: Disk)
    requires DiskInv(d)
    ensures Scan(d.wal).Ok?
  {
    hide Scan, SegmentsInv, MarkerInv;
  }

  /** Opening a directory that a crash left fails in one case only: the last generation is in use. */
  lemma OpenSucceedsIff(d: Disk)
    requires DiskInv(d)
    ensures OpenOk(d) <==> U64_MAX !in Surviving(d)
  {
    hide OpenSegment, ParseMarker, Scan, GoodSegment, RecoverOk, Surviving;
    RecoveryIsPossible(d);
    SurvivingAreSegments(d);
    forall g | g in Surviving(d)
      ensures OpenSegment(Surviving(d)[g], g).Ok?
    {
      var rs := GoodSegmentOpens(d.segments[g], g);
    }
  }

  lemma SurvivingAreSegments(d: Disk)
    ensures forall g :: g in Surviving(d) ==> g in d.segments && Surviving(d)[g] == d.segments[g]
  {
    hide ParseMarker;
  }

  /** A process that has opened serves exactly the logical map and is between operations. */
  lemma OpenedIsIdle(v: Volatile, d: Disk, threshold: u64)
    requires DiskInv(d) && Opened(v, d, threshold)
    ensures Idle(v, OpenedDisk(d))
    ensures ServedView(v) == Logical(d)
  {
    hide OpenSegment, ParseMarker, Scan, Loaded, Surviving, TableOf, DiskInv, Layered, WalTable, Live, Insert;
    GoodOrder(d);
    CutLog(d.wal);
    PutAllInserts(EMPTY, Scan(d.wal).value.0);
    WalTableIs(d.wal);
    NextIsAbove(Surviving(d));
    LoadedIsLayered(v.readers, Surviving(d));
  }

  lemma WalTableIs(wal: Bytes)
    requires Scan(wal).Ok?
    ensures WalTable(wal) == Insert(map[], Scan(wal).value.0)
  {
    hide Scan, Insert;
  }

  lemma NextIsAbove(segments: map<u64, Bytes>)
    ensures NextGeneration(segments) <= U64_MAX ==> Above(NextGeneration(segments), segments)
    ensures NextGeneration(segments) <= U64_MAX <==> U64_MAX !in segments
  {
    if segments != map[] {
      assert IsNewest(segments.Keys, Newest(segments.Keys));
    }
  }

  lemma GoodOrder(d: Disk)
    requires DiskInv(d)
    ensures DiskInv(OpenedDisk(d)) && Logical(OpenedDisk(d)) == Logical(d)
    ensures Scan(d.wal).Ok?
  {
    hide DiskInv, Logical, CrashSafe, Run, Scan, RecoveredTemps, ParseMarker;
    LogIsScannable(d);
    var order := SomeOrder(RecoveredTemps(d).Keys);
    OpenIsSafe(d, order);
  }

  lemma {:induction false} SomeOrder(gens: set<u64>) returns (order: seq<u64>)
    ensures GenSet(order) == gens
    decreases |gens|
  {
    if gens == {} {
      order := [];
    } else {
      var g :| g in gens;
      var rest := SomeOrder(gens - {g});
      order := [g] + rest;
      assert GenSet(order) == {g} + GenSet(rest);
    }
  }
}
