/** The write-ahead log (`src/wal.rs`): append, replay with tail cutting, truncate. */
module Wal {
  import opened Bytes
  import opened Errors
  import opened Records
  import opened Decoding
  import opened FileSystems

  datatype ReplayStats = ReplayStats(recordsReplayed: nat, bytesReplayed: nat, truncatedTailBytes: nat)

  // ---------- what a log holds ----------

  /** The records decoded from the front of a log and how many bytes they take. */
  function Scan(log: Bytes): (res: Result<(seq<Record>, nat)>)
    ensures res.Ok? ==> res.value.1 <= |log|
    decreases |log|
  {
    hide Decode, Frame, Canonical;
    if log == [] then Ok(([], 0))
    else
      match Decode(log)
      case Ok((r, n)) =>
        FrameOfDecode(log);
        var (rs, m) :- Scan(log[n..]);
        Ok(([r] + rs, n + m))
      case Err(e) =>
        if e.TruncatedRecord? then Ok(([], 0)) else Err(e)
  }

  // ---------- the operations ----------

  method Append(fs: FileSystem, r: Record) returns (res: Result<()>)
    modifies fs
    ensures res.Ok? <==> Encodable(r)
    ensures Encodable(r) ==> fs.disk == Apply(WalAppend(Frame(r)), old(fs.disk))
                             && fs.log == old(fs.log) + [WalAppend(Frame(r))]
    ensures !Encodable(r) ==> unchanged(fs) && res.error.RecordTooLarge?
  {
    var encoded :- Encode(r);
    fs.Perform(WalAppend(encoded));
    return Ok(());
  }

  /** The cut that replay makes when `good` bytes of the log are sound. */
  function CutPlan(log: Bytes, good: nat): seq<Effect> {
    if good < |log| then [WalSetLen(good)] else []
  }

  method Replay(fs: FileSystem) returns (res: Result<(seq<Record>, ReplayStats)>)
    modifies fs
    ensures Scan(old(fs.disk.wal)).Err? ==> res == Err(Scan(old(fs.disk.wal)).error) && unchanged(fs)
    ensures Scan(old(fs.disk.wal)).Ok? ==>
              var log := old(fs.disk.wal);
              var (rs, good) := Scan(log).value;
              && res == Ok((rs, ReplayStats(|rs|, good, |log| - good)))
              && fs.log == old(fs.log) + CutPlan(log, good)
              && fs.disk == old(fs.disk).(wal := log[..good])
    ensures res.Ok? ==>
              var (rs, stats) := res.value;
              && AllWellFormed(rs) && fs.disk.wal == Frames(rs) && fs.disk.wal <= old(fs.disk.wal)
              && stats.recordsReplayed == |rs| && stats.bytesReplayed == |fs.disk.wal|
              && stats.bytesReplayed + stats.truncatedTailBytes == |old(fs.disk.wal)|
              && (stats.truncatedTailBytes == 0 || TornRecord(old(fs.disk.wal)[stats.bytesReplayed..]))
    ensures res.Err? ==>
              exists rs :: AllWellFormed(rs) && BadAfter(fs.disk.wal, Frames(rs))
  {
    hide Decode, Frames, AllWellFormed, TornRecord, BadAfter, Scan, Prepend;
    ScanMeans(fs.disk.wal);
    var bytes := fs.disk.wal;
    var offset := 0;
    var records: seq<Record> := [];
    var bytesReplayed := 0;
    ScanStarts(bytes);
    while offset < |bytes|
      invariant 0 <= offset <= |bytes| && bytesReplayed == offset
      invariant Scan(bytes) == Prepend(records, offset, Scan(bytes[offset..]))
      invariant unchanged(fs)
      decreases |bytes| - offset
    {
      ScanTurn(bytes, offset, records);
      var d := Decode(bytes[offset..]);
      match d {
        case Ok((record, consumed)) =>
          if consumed == 0 {
            assert false; // every record takes at least one byte
          }
          records := records + [record];
          offset := offset + consumed;
          bytesReplayed := offset;
        case Err(error) =>
          if error.TruncatedRecord? {
            var tail := |bytes| - offset;
            fs.Perform(WalSetLen(offset));
            return Ok((records, ReplayStats(|records|, bytesReplayed, tail)));
          }
          return Err(error);
      }
    }
    ScanEnds(bytes, records);
    return Ok((records, ReplayStats(|records|, bytesReplayed, 0)));
  }

  lemma ScanStarts(bytes: Bytes)
    ensures Scan(bytes) == Prepend([], 0, Scan(bytes[0..]))
  {
    hide Scan, Prepend;
    assert bytes[0..] == bytes;
    PrependNothing(Scan(bytes));
  }

  /** One turn of the replay loop. */
  lemma ScanTurn(bytes: Bytes, offset: nat, records: seq<Record>)
    requires offset < |bytes|
    ensures var all := Prepend(records, offset, Scan(bytes[offset..]));
            match Decode(bytes[offset..])
            case Ok((r, n)) =>
              0 < n <= |bytes| - offset && all == Prepend(records + [r], offset + n, Scan(bytes[offset + n..]))
            case Err(e) => all == if e.TruncatedRecord? then Ok((records, offset)) else Err(e)
  {
    hide Decode, Frame, Canonical;
    if Decode(bytes[offset..]).Ok? {
      var (r, n) := Decode(bytes[offset..]).value;
      FrameOfDecode(bytes[offset..]);
      assert bytes[offset..][n..] == bytes[offset + n..];
      PrependTwice(records, offset, [r], n, Scan(bytes[offset + n..]));
    } else {
      assert records + [] == records;
    }
  }

  lemma ScanEnds(bytes: Bytes, records: seq<Record>)
    ensures Prepend(records, |bytes|, Scan(bytes[|bytes|..])) == Ok((records, |bytes|))
    ensures bytes[..|bytes|] == bytes
  {
    assert bytes[|bytes|..] == [] && records + [] == records;
  }

  lemma ScanMeans(log: Bytes)
    ensures Scan(log).Ok? ==>
              var (rs, n) := Scan(log).value;
              AllWellFormed(rs) && log[..n] == Frames(rs) && (n == |log| || TornRecord(log[n..]))
    ensures Scan(log).Err? ==> exists rs :: AllWellFormed(rs) && BadAfter(log, Frames(rs))
  {
    hide Scan, Frames, AllWellFormed, TornRecord, BadAfter;
    if Scan(log).Ok? {
      ScanIff(log, Scan(log).value.0, Scan(log).value.1);
    } else {
      ScanFailsIff(log);
    }
  }

  function Prepend(rs: seq<Record>, n: nat, rest: Result<(seq<Record>, nat)>): Result<(seq<Record>, nat)> {
    match rest
    case Ok((more, m)) => Ok((rs + more, n + m))
    case Err(e) => Err(e)
  }

  lemma PrependNothing(rest: Result<(seq<Record>, nat)>)
    ensures Prepend([], 0, rest) == rest
  {
    if rest.Ok? {
      assert [] + rest.value.0 == rest.value.0;
    }
  }

  lemma PrependTwice(a: seq<Record>, m: nat, b: seq<Record>, n: nat, rest: Result<(seq<Record>, nat)>)
    ensures Prepend(a, m, Prepend(b, n, rest)) == Prepend(a + b, m + n, rest)
  {
    if rest.Ok? {
      assert a + (b + rest.value.0) == a + b + rest.value.0;
    }
  }

  method Truncate(fs: FileSystem)
    modifies fs
    ensures fs.disk == old(fs.disk).(wal := []) && fs.log == old(fs.log) + [WalSetLen(0)]
  {
    fs.Perform(WalSetLen(0));
  }

  // ---------- scanning finds exactly the sound prefix ----------

  /** Scanning passes over complete encodings and goes on with whatever follows. */
  lemma {:induction false} ScanOfFrames(rs: seq<Record>, rest: Bytes)
    requires AllWellFormed(rs)
    ensures Scan(Frames(rs) + rest) == Prepend(rs, |Frames(rs)|, Scan(rest))
    decreases |rs|
  {
    hide Frame, Frames, Scan, Prepend, AllWellFormed;
    if rs == [] {
      NoFrames(rest);
      PrependNothing(Scan(rest));
    } else {
      var r, f, after := rs[0], Frame(rs[0]), Frames(rs[1..]) + rest;
      FirstFrame(rs, rest);
      calc {
        Scan(Frames(rs) + rest);
        Scan(f + after);
        { ScanStep(r, after); }
        Prepend([r], |f|, Scan(after));
        { ScanOfFrames(rs[1..], rest); }
        Prepend([r], |f|, Prepend(rs[1..], |Frames(rs[1..])|, Scan(rest)));
        { PrependTwice([r], |f|, rs[1..], |Frames(rs[1..])|, Scan(rest)); }
        Prepend([r] + rs[1..], |f| + |Frames(rs[1..])|, Scan(rest));
        { assert rs == [r] + rs[1..]; }
        Prepend(rs, |Frames(rs)|, Scan(rest));
      }
    }
  }

  lemma NoFrames(rest: Bytes)
    ensures |Frames([])| == 0 && Frames([]) + rest == rest && AllWellFormed([])
  {
  }

  lemma FirstFrame(rs: seq<Record>, rest: Bytes)
    requires rs != [] && AllWellFormed(rs)
    ensures Frames(rs) + rest == Frame(rs[0]) + (Frames(rs[1..]) + rest)
    ensures |Frames(rs)| == |Frame(rs[0])| + |Frames(rs[1..])|
    ensures WellFormed(rs[0]) && AllWellFormed(rs[1..])
  {
    hide Frame, WellFormed;
    assert rs[0] in rs;
  }

  lemma ScanStep(r: Record, after: Bytes)
    requires WellFormed(r)
    ensures Scan(Frame(r) + after) == Prepend([r], |Frame(r)|, Scan(after))
  {
    hide Decode, Frame;
    DecodeOfFrame(r, after);
    assert (Frame(r) + after)[|Frame(r)|..] == after;
  }

  /**
   * For arbitrary log bytes: the bytes kept are exactly the encodings of the records returned,
   * and what is cut off is empty or starts with a torn record.
   */
  lemma {:induction false} ScanIsSound(log: Bytes)
    requires Scan(log).Ok?
    ensures var (rs, n) := Scan(log).value;
            && AllWellFormed(rs)
            && log[..n] == Frames(rs)
            && (n == |log| || (Decode(log[n..]).Err? && Decode(log[n..]).error.TruncatedRecord?))
    decreases |log|
  {
    hide Decode, Frame, Canonical, Frames, AllWellFormed;
    NoFrames([]);
    if log != [] && Decode(log).Ok? {
      var (r, m) := Decode(log).value;
      FrameOfDecode(log);
      ScanIsSound(log[m..]);
      var (rs, n) := Scan(log[m..]).value;
      FramesPrepend(r, rs);
      assert log[..m + n] == log[..m] + log[m..][..n];
      assert log[m + n..] == log[m..][n..];
    } else if log != [] {
      assert log[0..] == log;
    }
  }

  lemma FramesPrepend(r: Record, rs: seq<Record>)
    requires Encodable(r) && Canonical(r) == r && AllWellFormed(rs)
    ensures Frames([r] + rs) == Frame(r) + Frames(rs) && AllWellFormed([r] + rs)
  {
    hide Frame;
    assert ([r] + rs)[1..] == rs;
  }

  /** No longer prefix of the log is a list of encodings, and any shorter one is a prefix of the same list. */
  lemma {:induction false} ScanIsLongest(log: Bytes, rs: seq<Record>)
    requires AllWellFormed(rs) && Frames(rs) <= log && Scan(log).Ok?
    ensures rs <= Scan(log).value.0 && |Frames(rs)| <= Scan(log).value.1
  {
    hide Decode, Frame, Canonical;
    var rest := log[|Frames(rs)|..];
    assert log == Frames(rs) + rest;
    ScanOfFrames(rs, rest);
  }

  /**
   * What replay returns, told from the bytes alone: the log is complete encodings and then nothing, or bytes that a
   * longer record may start with.
   */
  lemma ScanIff(log: Bytes, rs: seq<Record>, n: nat)
    ensures Scan(log) == Ok((rs, n)) <==>
            AllWellFormed(rs) && n <= |log| && log[..n] == Frames(rs) && (n == |log| || TornRecord(log[n..]))
  {
    hide Decode, Frames, AllWellFormed, TornRecord, Scan;
    if Scan(log) == Ok((rs, n)) {
      ScanIsSound(log);
      TruncatedIffTorn(log[n..]);
    }
    if AllWellFormed(rs) && n <= |log| && log[..n] == Frames(rs) && (n == |log| || TornRecord(log[n..])) {
      var rest := log[n..];
      assert log == Frames(rs) + rest;
      TruncatedIffTorn(rest);
      assert Scan(rest) == Ok(([], 0)) by { ScanOfTorn(rest); }
      ScanOfFrames(rs, rest);
      assert rs + [] == rs;
    }
  }

  lemma ScanOfTorn(rest: Bytes)
    requires rest == [] || (Decode(rest).Err? && Decode(rest).error.TruncatedRecord?)
    ensures Scan(rest) == Ok(([], 0))
  {
    hide Decode;
  }

  /** Scanning fails exactly when complete encodings are followed by bytes that no record may start with. */
  lemma {:induction false} ScanFailsIff(log: Bytes)
    ensures Scan(log).Err? <==> exists rs :: AllWellFormed(rs) && BadAfter(log, Frames(rs))
  {
    hide Decode, Frame, Frames, Scan, AllWellFormed, Bad;
    if Scan(log).Err? {
      var rs := FirstBad(log);
    } else {
      forall rs | AllWellFormed(rs) && BadAfter(log, Frames(rs))
        ensures false
      {
        var rest := log[|Frames(rs)|..];
        assert log == Frames(rs) + rest;
        BadIsRefused(rs, rest);
      }
    }
  }

  ghost predicate BadAfter(log: Bytes, good: Bytes) {
    good <= log && good != log && Bad(log[|good|..])
  }

  /** The error is the one that decoding gives at that place. */
  lemma BadIsRefused(rs: seq<Record>, rest: Bytes)
    requires AllWellFormed(rs) && rest != [] && Bad(rest)
    ensures Decode(rest).Err? && Scan(Frames(rs) + rest) == Err(Decode(rest).error)
  {
    hide Decode, Frames, AllWellFormed, Bad;
    RefusedIffBad(rest);
    ScanOfFrames(rs, rest);
  }

  lemma {:induction false} FirstBad(log: Bytes) returns (rs: seq<Record>)
    requires Scan(log).Err?
    ensures AllWellFormed(rs) && BadAfter(log, Frames(rs))
    decreases |log|
  {
    hide Decode, Frame, Frames, AllWellFormed, Bad;
    if Decode(log).Err? {
      rs := [];
      NoFrames([]);
      RefusedIffBad(log);
      assert log[0..] == log;
    } else {
      var (r, m) := Decode(log).value;
      FrameOfDecode(log);
      var more := FirstBad(log[m..]);
      rs := [r] + more;
      FramesPrepend(r, more);
      assert log == Frame(r) + log[m..];
      assert log[m..][|Frames(more)|..] == log[|Frames(rs)|..];
    }
  }

  /** A length field beyond the bound is never taken for a torn tail: replay fails, so the log is not cut. */
  lemma ImplausibleLengthIsRefused(rs: seq<Record>, bad: Bytes)
    requires AllWellFormed(rs) && |bad| >= 5 && bad[0] <= 1
    requires FromLe(bad[1..5]) > 67_108_864
             || (|bad| >= 9 + FromLe(bad[1..5])
                 && FromLe(bad[5 + FromLe(bad[1..5])..9 + FromLe(bad[1..5])]) > 67_108_864)
    ensures Scan(Frames(rs) + bad).Err? && Scan(Frames(rs) + bad).error.CorruptRecord?
  {
    hide Decode, Frames, AllWellFormed, Bad, Scan, FromLe;
    ImplausibleLengthIsBad(bad);
    BadIsRefused(rs, bad);
  }

  /** A log with a burst of damage in one of its records is refused, whatever stands before and after it. */
  lemma DamagedLogIsRefused(rs: seq<Record>, r: Record, damaged: Bytes, at: nat, width: nat, rest: Bytes)
    requires AllWellFormed(rs) && Encodable(r) && width <= 4
    requires ChangedWithin(Frame(r), damaged, at, width) && OutsideLengths(r, at, width)
    ensures Scan(Frames(rs) + (damaged + rest)).Err?
    ensures Scan(Frames(rs) + (damaged + rest)).error.ChecksumMismatch?
  {
    hide Decode, Frame, WellFormed, ChangedWithin, OutsideLengths, Encodable;
    BurstIsDetected(r, damaged, at, width, rest);
    assert damaged + rest != [] by { BurstIsNotEmpty(r, damaged, at, width); }
    ScanOfFrames(rs, damaged + rest);
  }

  lemma BurstIsNotEmpty(r: Record, damaged: Bytes, at: nat, width: nat)
    requires ChangedWithin(Frame(r), damaged, at, width)
    ensures damaged != []
  {
    hide Body, Trailer;
  }

  // ---------- torn appends, and appends after a cut ----------

  /** Complete records followed by any strict prefix of one more: exactly the complete ones are replayed. */
  lemma TornAppendIsCut(rs: seq<Record>, r: Record, k: nat)
    requires AllWellFormed(rs) && Encodable(r) && k < |Frame(r)|
    ensures Scan(Frames(rs) + Frame(r)[..k]) == Ok((rs, |Frames(rs)|))
  {
    hide Decode, Frame, Canonical;
    TornFrameIsTruncated(r, k);
    ScanOfFrames(rs, Frame(r)[..k]);
    assert rs + [] == rs;
  }

  /** After the cut a second replay returns the same records and cuts nothing; later appends follow them. */
  lemma ReplayAfterCut(log: Bytes, later: seq<Record>)
    requires Scan(log).Ok? && AllWellFormed(later)
    ensures var (rs, n) := Scan(log).value;
            Scan(log[..n] + Frames(later)) == Ok((rs + later, n + |Frames(later)|))
  {
    hide Decode, Frame, Canonical;
    var (rs, n) := Scan(log).value;
    ScanIsSound(log);
    FramesConcat(rs, later);
    ScanOfFrames(rs + later, []);
    assert Frames(rs + later) + [] == log[..n] + Frames(later);
    assert rs + later + [] == rs + later;
  }
}
