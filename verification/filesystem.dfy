/**
 * The store directory and the file-system calls the store makes on it.
 *
 * A call either completes or the process dies in it; a call that writes may then have written any prefix.
 */
module FileSystems {
  import opened Bytes
  import opened Errors

  /** The files of the `segments` directory. */
  datatype File = Segment(gen: u64) | TempSegment(gen: u64) | Marker | TempMarker

  /** `wal` is the contents of `wal.log`; a missing log replays like an empty one. */
  datatype Disk = Disk(
    wal: Bytes,
    segments: map<u64, Bytes>,
    temps: map<u64, Bytes>,
    marker: Option<Bytes>,
    tempMarker: Option<Bytes>)

  const EMPTY_DISK := Disk([], map[], map[], None, None)

  function Lookup(d: Disk, f: File): Option<Bytes> {
    match f
    case Segment(g) => if g in d.segments then Some(d.segments[g]) else None
    case TempSegment(g) => if g in d.temps then Some(d.temps[g]) else None
    case Marker => d.marker
    case TempMarker => d.tempMarker
  }

  predicate Exists(d: Disk, f: File) {
    Lookup(d, f).Some?
  }

  function WithFile(d: Disk, f: File, contents: Bytes): Disk {
    match f
    case Segment(g) => d.(segments := d.segments[g := contents])
    case TempSegment(g) => d.(temps := d.temps[g := contents])
    case Marker => d.(marker := Some(contents))
    case TempMarker => d.(tempMarker := Some(contents))
  }

  function WithoutFile(d: Disk, f: File): Disk {
    match f
    case Segment(g) => d.(segments := d.segments - {g})
    case TempSegment(g) => d.(temps := d.temps - {g})
    case Marker => d.(marker := None)
    case TempMarker => d.(tempMarker := None)
  }

  // ---------- effects ----------

  datatype Effect =
    | WalAppend(bytes: Bytes)
    | WalSetLen(len: nat)
    | Create(file: File)
    | AppendTo(file: File, bytes: Bytes)
    | Rename(from: File, to: File)
    | Remove(file: File)

  function Apply(e: Effect, d: Disk): Disk {
    match e
    case WalAppend(b) => d.(wal := d.wal + b)
    case WalSetLen(n) => d.(wal := if n <= |d.wal| then d.wal[..n] else d.wal + seq(n - |d.wal|, _ => 0))
    case Create(f) => WithFile(d, f, [])
    case AppendTo(f, b) => if Exists(d, f) then WithFile(d, f, Lookup(d, f).value + b) else d
    case Rename(f, t) => if Exists(d, f) then WithFile(WithoutFile(d, f), t, Lookup(d, f).value) else d
    case Remove(f) => WithoutFile(d, f)
  }

  function Run(plan: seq<Effect>, d: Disk): Disk
    decreases |plan|
  {
    if plan == [] then d else Run(plan[1..], Apply(plan[0], d))
  }

  /** `if path.exists() { remove_file(path) }`. */
  function RemoveIfThere(f: File, d: Disk): seq<Effect> {
    if Exists(d, f) then [Remove(f)] else []
  }

  /** The disks that a process dying inside e can leave: nothing done, all done, or part of the bytes written. */
  ghost predicate Torn(e: Effect, d: Disk, d': Disk) {
    || d' == d
    || d' == Apply(e, d)
    || (e.WalAppend? && exists k :: 0 <= k <= |e.bytes| && d' == Apply(WalAppend(e.bytes[..k]), d))
    || (e.AppendTo? && exists k :: 0 <= k <= |e.bytes| && d' == Apply(AppendTo(e.file, e.bytes[..k]), d))
  }

  /** The disks that a process dying at any point of the plan can leave. */
  ghost predicate CrashState(plan: seq<Effect>, d: Disk, d': Disk)
    decreases |plan|
  {
    || d' == d
    || (plan != [] && (Torn(plan[0], d, d') || CrashState(plan[1..], Apply(plan[0], d), d')))
  }

  lemma {:induction false} RunConcat(p: seq<Effect>, q: seq<Effect>, d: Disk)
    ensures Run(p + q, d) == Run(q, Run(p, d))
    decreases |p|
  {
    if p == [] {
      assert p + q == q;
    } else {
      assert (p + q)[1..] == p[1..] + q;
      RunConcat(p[1..], q, Apply(p[0], d));
    }
  }

  lemma RunNothing(d: Disk)
    ensures Run([], d) == d
  {
  }

  lemma RunOne(e: Effect, d: Disk)
    ensures Run([e], d) == Apply(e, d)
  {
    assert Run([e], d) == Run([e][1..], Apply(e, d));
  }

  /** A crash inside p followed by q happens in p, or after p and inside q. */
  lemma {:induction false} CrashConcat(p: seq<Effect>, q: seq<Effect>, d: Disk, d': Disk)
    requires CrashState(p + q, d, d')
    ensures CrashState(p, d, d') || CrashState(q, Run(p, d), d')
    decreases |p|
  {
    if p == [] {
      assert p + q == q;
    } else if d' != d && !Torn(p[0], d, d') {
      assert (p + q)[1..] == p[1..] + q;
      CrashConcat(p[1..], q, Apply(p[0], d), d');
    }
  }

  /** A crash inside a plan is one inside any longer plan. */
  lemma {:induction false} CrashPrefix(p: seq<Effect>, q: seq<Effect>, d: Disk, d': Disk)
    requires CrashState(p, d, d')
    ensures CrashState(p + q, d, d')
    decreases |p|
  {
    hide Apply, Torn;
    if d' != d {
      assert (p + q)[0] == p[0] && (p + q)[1..] == p[1..] + q;
      if !Torn(p[0], d, d') {
        CrashPrefix(p[1..], q, Apply(p[0], d), d');
      }
    }
  }

  /** Dying in the middle of a write: some prefix of its bytes is there. */
  ghost predicate PartlyWritten(e: Effect, d: Disk, d': Disk) {
    || (e.WalAppend? && exists k :: 0 <= k <= |e.bytes| && d' == d.(wal := d.wal + e.bytes[..k]))
    || (e.AppendTo? && exists k :: 0 <= k <= |e.bytes| && d' == Apply(AppendTo(e.file, e.bytes[..k]), d))
  }

  /** Dying after n calls, or inside the call after them. */
  ghost predicate DiesAt(plan: seq<Effect>, n: nat, d: Disk, d': Disk)
    requires n <= |plan|
  {
    var mid := Run(plan[..n], d);
    d' == mid || (n < |plan| && PartlyWritten(plan[n], mid, d'))
  }

  /** The directories a crash can leave are those after any number of calls, with the next write begun or not. */
  lemma {:induction false} CrashStateIff(plan: seq<Effect>, d: Disk, d': Disk)
    ensures CrashState(plan, d, d') <==> exists n :: 0 <= n <= |plan| && DiesAt(plan, n, d, d')
    decreases |plan|
  {
    hide Apply, PartlyWritten, Torn;
    assert plan[..0] == [];
    if plan != [] {
      var d1 := Apply(plan[0], d);
      TornIff(plan[0], d, d');
      CrashStateIff(plan[1..], d1, d');
      forall n | 0 < n <= |plan|
        ensures DiesAt(plan, n, d, d') <==> DiesAt(plan[1..], n - 1, d1, d')
      {
        assert plan[..n][1..] == plan[1..][..n - 1];
      }
      if CrashState(plan[1..], d1, d') {
        var n :| 0 <= n <= |plan| - 1 && DiesAt(plan[1..], n, d1, d');
        assert DiesAt(plan, n + 1, d, d');
      }
      if d' == d || PartlyWritten(plan[0], d, d') {
        assert DiesAt(plan, 0, d, d');
      }
      if d' == d1 {
        assert DiesAt(plan[1..], 0, d1, d') by { assert plan[1..][..0] == []; }
        assert DiesAt(plan, 1, d, d');
      }
      if n :| 0 <= n <= |plan| && DiesAt(plan, n, d, d') {
        if n > 0 {
          assert DiesAt(plan[1..], n - 1, d1, d');
        }
      }
    } else if d' == d {
      assert DiesAt(plan, 0, d, d');
    }
  }

  lemma TornIff(e: Effect, d: Disk, d': Disk)
    ensures Torn(e, d, d') <==> d' == d || d' == Apply(e, d) || PartlyWritten(e, d, d')
  {
  }

  // ---------- what was done ----------

  /** A directory and the calls made on it so far. */
  datatype Trace = Trace(disk: Disk, log: seq<Effect>)

  /** The calls made in between are those of the plan. */
  ghost predicate Did(plan: seq<Effect>, before: Trace, after: Trace) {
    after.log == before.log + plan && after.disk == Run(plan, before.disk)
  }

  lemma DidThen(p: seq<Effect>, q: seq<Effect>, a: Trace, b: Trace, c: Trace)
    requires Did(p, a, b) && Did(q, b, c)
    ensures Did(p + q, a, c)
  {
    hide Run;
    RunConcat(p, q, a.disk);
    assert a.log + p + q == a.log + (p + q);
  }

  lemma DidNothing(t: Trace)
    ensures Did([], t, t)
  {
    assert t.log + [] == t.log;
  }

  lemma DidOne(e: Effect, t: Trace)
    ensures Did([e], t, Trace(Apply(e, t.disk), t.log + [e]))
  {
    hide Run, Apply;
    RunOne(e, t.disk);
  }

  lemma DidTwo(e: Effect, f: Effect, t: Trace)
    ensures Did([e, f], t, Trace(Apply(f, Apply(e, t.disk)), t.log + [e] + [f]))
  {
    hide Run, Apply;
    var mid := Trace(Apply(e, t.disk), t.log + [e]);
    DidOne(e, t);
    DidOne(f, mid);
    DidThen([e], [f], t, mid, Trace(Apply(f, mid.disk), mid.log + [f]));
    assert [e] + [f] == [e, f];
  }

  /** A directory whose calls are recorded in order. */
  class FileSystem {
    var disk: Disk
    ghost var log: seq<Effect>

    ghost function Now(): Trace
      reads this
    {
      Trace(disk, log)
    }

    constructor (d: Disk)
      ensures disk == d && log == []
    {
      disk := d;
      log := [];
    }

    method Perform(e: Effect)
      modifies this
      ensures disk == Apply(e, old(disk)) && log == old(log) + [e]
    {
      disk := Apply(e, disk);
      log := log + [e];
    }
  }
}
