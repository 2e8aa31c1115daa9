/** Damage in an installed segment: it is reported, never served, never verified, never merged (`src/segment.rs`). */
module Damage {
  import opened Bytes
  import opened Errors
  import opened Records
  import opened Tables
  import opened Segments
  import opened SegmentReaders
  import opened FileFormat
  import opened FileSystems
  import opened Layers
  import opened Markers
  import opened Protocol
  import opened CrashSafety
  import opened Runs
  import opened Compactions
  import opened Outcomes
  import Wal

  /** Records before, the damaged one, and records after. */
  datatype Damaged = Damaged(before: seq<Record>, r: Record, bytes: Bytes, after: seq<Record>)

  function AllRecords(x: Damaged): seq<Record> {
    x.before + [x.r] + x.after
  }

  /** At most four consecutive bytes of the record are changed, outside the operation byte and the lengths. */
  ghost predicate IsBurst(x: Damaged, at: nat, width: nat) {
    && Writable(AllRecords(x)) && AllWellFormed(AllRecords(x)) && width <= 4
    && ChangedWithin(Frame(x.r), x.bytes, at, width) && OutsideLengths(x.r, at, width)
  }

  /** The written segment with the damaged bytes in the record's place. */
  function DamagedFile(x: Damaged): Bytes {
    HEADER + (Frames(x.before) + x.bytes + Frames(x.after)) + IndexBytes(IndexOf(AllRecords(x)))
    + Footer(IndexOffset(AllRecords(x)))
  }

  function DamagedReader(x: Damaged, gen: u64): Reader {
    ReaderOf(AllRecords(x), gen).(file := DamagedFile(x))
  }

  /** Every record with a value can be damaged so: here its first value byte is changed. */
  lemma EveryValueCanBeDamaged(r: Record) returns (x: Damaged)
    requires WellFormed(r) && r.val != []
    ensures x.r == r && IsBurst(x, 9 + |r.key|, 1)
  {
    hide Body, Trailer;
    var f, at := Frame(r), 9 + |r.key|;
    x := Damaged([], r, f[at := if f[at] == 0 then 1 else 0], []);
    assert AllRecords(x) == [r];
    assert x.bytes[..at] == f[..at] && x.bytes[at + 1..] == f[at + 1..] && x.bytes[at] != f[at];
    FramesCons(r, []);
    assert [r] + [] == [r];
  }

  lemma FramesOfAll(x: Damaged)
    ensures Frames(AllRecords(x)) == Frames(x.before) + Frame(x.r) + Frames(x.after)
  {
    hide Frame, Frames;
    FramesConcat(x.before + [x.r], x.after);
    FramesAppend(x.before, x.r);
  }

  /** Where the parts of the damaged file lie. */
  lemma DamagedParts(x: Damaged, gen: u64)
    requires |x.bytes| == |Frame(x.r)|
    ensures var rd, m, n := DamagedReader(x, gen), 5 + |Frames(x.before)|, |x.bytes|;
            && Sane(rd) && rd.indexOffset == m + n + |Frames(x.after)|
            && rd.file[5..m] == Frames(x.before)
            && rd.file[m..m + n] == x.bytes
            && rd.file[m + n..rd.indexOffset] == Frames(x.after)
            && rd.file[5..rd.indexOffset] == Frames(x.before) + x.bytes + Frames(x.after)
  {
    hide Frame, Frames, IndexBytes, IndexOf, Footer, AllRecords;
    FramesOfAll(x);
    var a, b, c := Frames(x.before), x.bytes, Frames(x.after);
    var file := DamagedFile(x);
    var tail := IndexBytes(IndexOf(AllRecords(x))) + Footer(IndexOffset(AllRecords(x)));
    assert file == HEADER + a + b + c + tail;
    NextField(file, HEADER, a);
    NextField(file, HEADER + a, b);
    NextField(file, HEADER + a + b, c);
    NextField(file, HEADER, a + b + c);
  }

  /** The damage is not in the parts that are checked when the segment is opened. */
  lemma DamagedSegmentOpens(x: Damaged, gen: u64, at: nat, width: nat)
    requires IsBurst(x, at, width)
    ensures OpenSegment(DamagedFile(x), gen) == Ok(DamagedReader(x, gen))
  {
    hide Frame, Frames, IndexBytes, AllRecords, OpenSegment, Ascending, Sparse, AllWellFormed, OutsideLengths;
    var all, rd := AllRecords(x), DamagedReader(x, gen);
    SameLength(Frame(x.r), x.bytes, at, width);
    FramesOfAll(x);
    DamagedParts(x, gen);
    SparseIsAscending(all, 0, HEADER_SIZE, IndexOffset(all), None);
    FirstIsIndexed(all);
    OpensIff(DamagedFile(x), gen, rd);
  }

  // ---------- reading reaches the damage ----------

  lemma DamagedRecordIsRefused(x: Damaged, gen: u64, at: nat, width: nat)
    requires IsBurst(x, at, width)
    ensures var rd, o := DamagedReader(x, gen), 5 + |Frames(x.before)|;
            && Sane(rd) && o < rd.indexOffset
            && ReadRecordAt(rd, o).Err? && ReadRecordAt(rd, o).error.ChecksumMismatch?
  {
    hide Frame, Frames, ReadRecordAt, DamagedReader, Writable, AllWellFormed, ChangedWithin, OutsideLengths, Decode;
    SameLength(Frame(x.r), x.bytes, at, width);
    DamagedParts(x, gen);
    assert WellFormed(x.r) by { DamagedIsWellFormed(x); }
    FrameIsNotEmpty(x.r);
    BurstIsDetected(x.r, x.bytes, at, width, []);
    assert x.bytes + [] == x.bytes;
    BurstKeepsFields(x.r, x.bytes, at, width);
    RefusedAt(DamagedReader(x, gen), 5 + |Frames(x.before)|, x.r, x.bytes);
  }

  lemma DamagedIsWellFormed(x: Damaged)
    requires AllWellFormed(AllRecords(x))
    ensures WellFormed(x.r) && AllWellFormed(x.before) && AllWellFormed(x.after)
  {
    hide WellFormed;
    assert x.r in AllRecords(x);
    assert forall r :: r in x.before || r in x.after ==> r in AllRecords(x);
  }

  /** The length fields are as they were. */
  lemma BurstKeepsFields(r: Record, damaged: Bytes, at: nat, width: nat)
    requires WellFormed(r) && ChangedWithin(Frame(r), damaged, at, width) && OutsideLengths(r, at, width)
    ensures var k, v := |r.key|, |r.val|;
            |damaged| == 13 + k + v && FromLe(damaged[1..5]) == k && FromLe(damaged[5 + k..9 + k]) == v
  {
    hide ChangedWithin, FromLe, Body, Trailer;
    var f, b, k := Frame(r), Body(r), |r.key|;
    Layout(r);
    BodyLength(r);
    SameLength(f, damaged, at, width);
    Untouched(f, damaged, at, width, 1, 5);
    Untouched(f, damaged, at, width, 5 + k, 9 + k);
    assert f[1..5] == b[1..5] && f[5 + k..9 + k] == b[5 + k..9 + k];
  }

  lemma RefusedAt(rd: Reader, offset: nat, r: Record, damaged: Bytes)
    requires Sane(rd) && 5 <= offset && offset + |damaged| <= rd.indexOffset
    requires rd.file[offset..offset + |damaged|] == damaged
    requires var k, v := |r.key|, |r.val|;
             |damaged| == 13 + k + v && FromLe(damaged[1..5]) == k && FromLe(damaged[5 + k..9 + k]) == v
    requires Decode(damaged).Err? && Decode(damaged).error.ChecksumMismatch?
    ensures ReadRecordAt(rd, offset) == Err(Decode(damaged).error)
  {
    hide Decode, FromLe;
    var n, k := |damaged|, |r.key|;
    SubSlice(rd.file, offset, offset + n, 1, 5);
    SubSlice(rd.file, offset, offset + n, 5 + k, 9 + k);
  }

  // ---------- reading everything ----------

  /** Reading passes over whole records, and what it finds behind them decides whether it fails. */
  lemma {:induction false} ReadAllPasses(rd: Reader, offset: nat, rs: seq<Record>)
    requires Sane(rd) && HEADER_SIZE <= offset && AllWellFormed(rs)
    requires offset + |Frames(rs)| <= rd.indexOffset && rd.file[offset..offset + |Frames(rs)|] == Frames(rs)
    ensures var rest := ReadAllFrom(rd, offset + |Frames(rs)|);
            rest.Err? ==> ReadAllFrom(rd, offset) == Err(rest.error)
    decreases |rs|
  {
    hide ReadRecordAt, Frame, WellFormed;
    if rs != [] {
      var r, n := rs[0], |Frame(rs[0])|;
      assert r in rs;
      PassedRecord(rd, offset, rs);
      ReadAllPasses(rd, offset + n, rs[1..]);
    }
  }

  lemma PassedRecord(rd: Reader, offset: nat, rs: seq<Record>)
    requires Sane(rd) && HEADER_SIZE <= offset && rs != [] && AllWellFormed(rs)
    requires offset + |Frames(rs)| <= rd.indexOffset && rd.file[offset..offset + |Frames(rs)|] == Frames(rs)
    ensures var n := |Frame(rs[0])|;
            && ReadRecordAt(rd, offset) == Ok((rs[0], n))
            && |Frames(rs)| == n + |Frames(rs[1..])| && AllWellFormed(rs[1..])
            && rd.file[offset + n..offset + |Frames(rs)|] == Frames(rs[1..])
  {
    hide ReadRecordAt, Frame, Frames, WellFormed;
    var n, m := |Frame(rs[0])|, |Frames(rs)|;
    assert rs[0] in rs;
    FramesSplit(rs);
    SubSlice(rd.file, offset, offset + m, 0, n);
    SubSlice(rd.file, offset, offset + m, n, m);
    ReadsFrame(rd, offset, rs[0]);
  }

  /** Reading all records of a damaged segment reports the mismatch. */
  lemma DamagedSegmentIsNotRead(x: Damaged, gen: u64, at: nat, width: nat)
    requires IsBurst(x, at, width)
    ensures var rd := DamagedReader(x, gen);
            Sane(rd) && ReadAllFrom(rd, 5).Err? && ReadAllFrom(rd, 5).error.ChecksumMismatch?
  {
    hide Frame, Frames, ReadRecordAt, DamagedReader, Writable, AllWellFormed, ChangedWithin, OutsideLengths;
    SameLength(Frame(x.r), x.bytes, at, width);
    DamagedParts(x, gen);
    DamagedRecordIsRefused(x, gen, at, width);
    DamagedIsWellFormed(x);
    ReadAllPasses(DamagedReader(x, gen), 5, x.before);
  }

  // ---------- looking a key up ----------

  /** A scan over whole records finds the key among them, or stops at a greater one, or goes on behind them. */
  lemma {:induction false} ScanPasses(rd: Reader, offset: nat, rs: seq<Record>, key: Bytes)
    requires Sane(rd) && HEADER_SIZE <= offset && AllWellFormed(rs) && StrictlySorted(rs)
    requires offset + |Frames(rs)| <= rd.indexOffset && rd.file[offset..offset + |Frames(rs)|] == Frames(rs)
    ensures if rs == [] || Less(rs[|rs| - 1].key, key) then
              ScanFrom(rd, offset, key) == ScanFrom(rd, offset + |Frames(rs)|, key)
            else ScanFrom(rd, offset, key) == Ok(Find(rs, key))
    decreases |rs|
  {
    hide ReadRecordAt, Frame, WellFormed, Less, AllWellFormed, Frames;
    if rs == [] {
      assert Frames(rs) == [] by { FramesOfNone(rs); assert rs[..0] == rs; }
    } else {
      var last := rs[|rs| - 1].key;
      PassedRecord(rd, offset, rs);
      if rs[0].key == key {
        LessIsAsymmetric(key, last);
        if |rs| > 1 {
          assert Less(rs[0].key, last);
        }
      } else if Less(key, rs[0].key) {
        KeyBelowAll(rs, key);
        FindBeyond(rs, key);
        LessIsAsymmetric(key, last);
      } else {
        LessIsTotal(key, rs[0].key);
        ScanPasses(rd, offset + |Frame(rs[0])|, rs[1..], key);
      }
    }
  }

  lemma SortedParts(x: Damaged)
    requires StrictlySorted(AllRecords(x))
    ensures StrictlySorted(x.before) && StrictlySorted(x.after)
    ensures forall r :: r in x.before ==> Less(r.key, x.r.key)
    ensures forall i :: 0 <= i < |x.after| ==> Less(x.r.key, x.after[i].key)
  {
    hide Less;
    var all, n := AllRecords(x), |x.before|;
    assert all[n] == x.r && forall i :: 0 <= i < n ==> all[i] == x.before[i];
    forall i | 0 <= i < |x.after|
      ensures all[n + 1 + i] == x.after[i] && Less(x.r.key, x.after[i].key)
    {
      assert all[n + 1 + i] == x.after[i];
    }
    forall i, j | 0 <= i < j < |x.after|
      ensures Less(x.after[i].key, x.after[j].key)
    {
      assert all[n + 1 + i] == x.after[i] && all[n + 1 + j] == x.after[j];
    }
  }

  /** In a sorted list, a search that ends in the front part does not depend on what follows. */
  lemma {:induction false} FindInFront(front: seq<Record>, rest: seq<Record>, key: Bytes)
    requires StrictlySorted(front + rest) && front != [] && !Less(front[|front| - 1].key, key)
    ensures Find(front + rest, key) == Find(front, key)
    decreases |front|
  {
    hide Less;
    var all, last := front + rest, front[|front| - 1].key;
    assert all[0] == front[0] && all[1..] == front[1..] + rest;
    if front[0].key != key {
      assert StrictlySorted(all[1..]);
      if |front| > 1 {
        FindInFront(front[1..], rest, key);
      } else {
        LessIsTotal(last, key);
        assert all[|front| - 1].key == last;
        KeyBelowAll(all, key);
        assert forall i :: 0 <= i < |rest| ==> rest[i] == all[i + 1];
        FindBeyond(rest, key);
        FindBeyond([], key);
      }
    }
  }

  /** Where a lookup starts, and what a search of all records amounts to from there on. */
  lemma WhereLookupStarts(all: seq<Record>, key: Bytes) returns (i: nat)
    requires StrictlySorted(all)
    ensures i <= |all|
    ensures StartOffset(IndexOf(all), key, 5) == 5 + |Frames(all[..i])|
    ensures Find(all[i..], key) == Find(all, key)
    ensures i > 0 ==> i < |all| && !Less(key, all[i].key)
  {
    hide Frames, Sparse, Less, StartOffset;
    var n := StartIsLastIndexed(all, 0, HEADER_SIZE, key, HEADER_SIZE);
    FramesOfNone(all);
    assert all[0..] == all;
    if n.Some? {
      i := n.value;
      SkippedKeysAreBelow(all, i, key);
    } else {
      i := 0;
    }
  }

  /** A lookup in a damaged segment answers what is undamaged, or reports the mismatch; never the damaged record. */
  lemma DamagedSegmentIsNotServed(x: Damaged, gen: u64, at: nat, width: nat, key: Bytes)
    requires IsBurst(x, at, width)
    ensures Sane(DamagedReader(x, gen))
    ensures var rd := DamagedReader(x, gen);
            var answer := ScanFrom(rd, StartOffset(rd.index, key, 5), key);
            && (answer == Ok(Find(AllRecords(x), key)) || (answer.Err? && answer.error.ChecksumMismatch?))
            && (key == x.r.key ==> answer.Err?)
  {
    hide Frames, Frame, Less, ScanFrom, StartOffset, IsBurst, AllWellFormed, Find, StrictlySorted, DamagedFile, IndexOf;
    var all := AllRecords(x);
    assert |x.bytes| == |Frame(x.r)| && StrictlySorted(all) && AllWellFormed(all) by { BurstParts(x, at, width); }
    DamagedParts(x, gen);
    var i := WhereLookupStarts(all, key);
    if i <= |x.before| {
      ServedFromFront(x, gen, at, width, key, i);
    } else {
      ServedFromBehind(x, gen, at, width, key, i);
    }
  }

  lemma BurstParts(x: Damaged, at: nat, width: nat)
    requires IsBurst(x, at, width)
    ensures |x.bytes| == |Frame(x.r)| && StrictlySorted(AllRecords(x)) && AllWellFormed(AllRecords(x))
  {
    hide Frame, Encodable, WellFormed, OutsideLengths, Frames;
  }

  /** The scan starts at or before the damaged record. */
  lemma ServedFromFront(x: Damaged, gen: u64, at: nat, width: nat, key: Bytes, i: nat)
    requires IsBurst(x, at, width) && i <= |x.before|
    requires Find(AllRecords(x)[i..], key) == Find(AllRecords(x), key)
    ensures Sane(DamagedReader(x, gen))
    ensures var answer := ScanFrom(DamagedReader(x, gen), 5 + |Frames(AllRecords(x)[..i])|, key);
            && (answer == Ok(Find(AllRecords(x), key)) || (answer.Err? && answer.error.ChecksumMismatch?))
            && (key == x.r.key ==> answer.Err?)
  {
    hide Frames, Frame, Less, ScanFrom, IsBurst, AllWellFormed, Find, StrictlySorted, DamagedReader, ReadRecordAt;
    var all, rd, part := AllRecords(x), DamagedReader(x, gen), x.before[i..];
    BurstParts(x, at, width);
    SortedParts(x);
    DamagedIsWellFormed(x);
    DamagedParts(x, gen);
    DamagedRecordIsRefused(x, gen, at, width);
    var o, m := 5 + |Frames(x.before[..i])|, 5 + |Frames(x.before)|;
    assert all[..i] == x.before[..i] && x.before == x.before[..i] + part;
    FramesConcat(x.before[..i], part);
    SubSlice(rd.file, 5, m, o - 5, m - 5);
    assert Frames(x.before)[o - 5..] == Frames(part);
    PartIsSorted(x.before, i);
    ScanPasses(rd, o, part, key);
    ScanFails(rd, m, key);
    if part != [] && !Less(part[|part| - 1].key, key) {
      assert all[i..] == part + ([x.r] + x.after);
      PartIsSorted(all, i);
      FindInFront(part, [x.r] + x.after, key);
      assert part[|part| - 1] in x.before;
    }
  }

  lemma PartIsSorted(rs: seq<Record>, i: nat)
    requires StrictlySorted(rs) && i <= |rs|
    ensures StrictlySorted(rs[i..])
    ensures AllWellFormed(rs) ==> AllWellFormed(rs[i..])
  {
    hide Less, WellFormed;
    assert forall r :: r in rs[i..] ==> r in rs;
  }

  lemma ScanFails(rd: Reader, offset: nat, key: Bytes)
    requires Sane(rd) && offset < rd.indexOffset && ReadRecordAt(rd, offset).Err?
    ensures ScanFrom(rd, offset, key) == Err(ReadRecordAt(rd, offset).error)
  {
    hide ReadRecordAt;
  }

  /** The scan starts behind the damaged record. */
  lemma ServedFromBehind(x: Damaged, gen: u64, at: nat, width: nat, key: Bytes, i: nat)
    requires IsBurst(x, at, width) && |x.before| < i < |AllRecords(x)| && !Less(key, AllRecords(x)[i].key)
    requires Find(AllRecords(x)[i..], key) == Find(AllRecords(x), key)
    ensures Sane(DamagedReader(x, gen))
    ensures ScanFrom(DamagedReader(x, gen), 5 + |Frames(AllRecords(x)[..i])|, key) == Ok(Find(AllRecords(x), key))
    ensures key != x.r.key
  {
    hide Frames, Frame, Less, ScanFrom, IsBurst, AllWellFormed, Find, StrictlySorted, DamagedReader, ReadRecordAt;
    var j := i - |x.before| - 1;
    BurstParts(x, at, width);
    SortedParts(x);
    DamagedIsWellFormed(x);
    FramesBehind(x, i);
    HeldBehind(x, gen, j);
    PartIsSorted(x.after, j);
    ScanFindsKey(DamagedReader(x, gen), 5 + |Frames(AllRecords(x)[..i])|, x.after[j..], key);
  }

  lemma FramesBehind(x: Damaged, i: nat)
    requires |x.before| < i <= |AllRecords(x)|
    ensures var all, j := AllRecords(x), i - |x.before| - 1;
            && all[i..] == x.after[j..] && (i < |all| ==> all[i] == x.after[j])
            && |Frames(all[..i])| == |Frames(x.before)| + |Frame(x.r)| + |Frames(x.after[..j])|
  {
    hide Frames, Frame;
    var all, j := AllRecords(x), i - |x.before| - 1;
    assert all[..i] == x.before + [x.r] + x.after[..j];
    FramesConcat(x.before + [x.r], x.after[..j]);
    FramesAppend(x.before, x.r);
  }

  lemma HeldBehind(x: Damaged, gen: u64, j: nat)
    requires |x.bytes| == |Frame(x.r)| && j <= |x.after|
    ensures var rd, o := DamagedReader(x, gen), 5 + |Frames(x.before)| + |x.bytes| + |Frames(x.after[..j])|;
            && Sane(rd) && 5 <= o <= rd.indexOffset && rd.file[o..rd.indexOffset] == Frames(x.after[j..])
  {
    hide Frames, Frame, DamagedReader;
    var rd, m := DamagedReader(x, gen), 5 + |Frames(x.before)| + |x.bytes|;
    DamagedParts(x, gen);
    assert x.after == x.after[..j] + x.after[j..];
    FramesConcat(x.after[..j], x.after[j..]);
    var k := |Frames(x.after[..j])|;
    SubSlice(rd.file, m, rd.indexOffset, k, rd.indexOffset - m);
    assert Frames(x.after)[k..] == Frames(x.after[j..]);
  }

  // ---------- verification and compaction ----------

  /** Verification of a store that holds a damaged segment fails, whatever else the store holds. */
  lemma DamageFailsVerification(v: Volatile, wal: Bytes, i: nat, x: Damaged, gen: u64, at: nat, width: nat)
    requires AllSane(v.readers) && i < |v.readers|
    requires IsBurst(x, at, width) && v.readers[i] == DamagedReader(x, gen)
    ensures Verified(v, wal).Err?
  {
    hide IsBurst, DamagedReader, ReadAllFrom, Wal.Scan, Sane, Verified;
    DamagedSegmentIsNotRead(x, gen, at, width);
    VerifiedIff(v, wal);
  }

  /** Between operations, with one segment damaged since, the error is the mismatch. */
  lemma DamageIsNamed(v: Volatile, d: Disk, i: nat, x: Damaged, at: nat, width: nat)
    requires Idle(v, d) && AllSane(v.readers) && i < |v.readers| && RecordsIn(v.readers) <= U64_MAX
    requires IsBurst(x, at, width) && v.readers[i] == ReaderOf(AllRecords(x), v.readers[i].gen)
    ensures var v' := v.(readers := v.readers[i := DamagedReader(x, v.readers[i].gen)]);
            AllSane(v'.readers) && Verified(v', d.wal).Err? && Verified(v', d.wal).error.ChecksumMismatch?
  {
    hide IsBurst, DamagedReader, ReadAllFrom, Wal.Scan, Sane, CheckReaders, WalTable, SegmentsInv, OpenSegment, Reads;
    hide GoodSegment, RecordsIn;
    var gen := v.readers[i].gen;
    var bad := DamagedReader(x, gen);
    var readers := v.readers[i := bad];
    IdleParts(v, d);
    DamagedSegmentIsNotRead(x, gen, at, width);
    assert bad.gen == gen by { DamagedKeepsGeneration(x, gen); }
    forall k | 0 <= k < i
      ensures ReadAllFrom(readers[k], HEADER_SIZE).Ok?
    {
      assert IsReaderOf(v.readers[k], d.segments);
      var n := ReaderCounts(v.readers[k], d.segments);
    }
    assert readers[..i] == v.readers[..i];
    RecordsInPrefix(v.readers, i);
    CheckReachesError(readers, None, 0, i);
  }

  lemma DamagedKeepsGeneration(x: Damaged, gen: u64)
    ensures DamagedReader(x, gen).gen == gen
  {
    hide DamagedFile, SegmentBytes, IndexOf, IndexOffset;
  }

  /** Nothing is merged from a damaged segment: the compaction stops, and no segment, log or marker has changed. */
  lemma DamageIsNotMerged(m: CompactionMarker, t: Trace, t': Trace, res: Result<BuildStats>, g: u64,
                          x: Damaged, at: nat, width: nat)
    requires Switched(res, m, t, t') && g in m.olds && g in t.disk.segments
    requires IsBurst(x, at, width) && t.disk.segments[g] == DamagedFile(x)
    ensures res.Err?
    ensures t'.disk.segments == t.disk.segments && t'.disk.wal == t.disk.wal && t'.disk.marker == t.disk.marker
  {
    hide IsBurst, DamagedFile, DamagedReader, ReadAllFrom, MergeInto, OpenSegment, ReadSegment;
    DamagedSegmentOpens(x, g, at, width);
    DamagedSegmentIsNotRead(x, g, at, width);
    assert ReadSegment(t.disk.segments, g).Err? by { DamagedIsUnreadable(t.disk.segments, g, DamagedReader(x, g)); }
    ReverseHolds(m.olds, g);
    UnreadableIsNotMerged(map[], t.disk.segments, Reverse(m.olds), g);
    RemoveIfThereIsQuiet(TempSegment(m.output), t.disk);
  }

  lemma DamagedIsUnreadable(segments: map<u64, Bytes>, g: u64, rd: Reader)
    requires g in segments && OpenSegment(segments[g], g) == Ok(rd) && ReadAllFrom(rd, HEADER_SIZE).Err?
    ensures ReadSegment(segments, g).Err?
  {
    hide OpenSegment, ReadAllFrom;
  }

  lemma {:induction false} ReverseHolds(gens: seq<u64>, g: u64)
    requires g in gens
    ensures g in Reverse(gens)
    decreases |gens|
  {
    if gens[0] != g {
      ReverseHolds(gens[1..], g);
    }
  }

  lemma {:induction false} UnreadableIsNotMerged(t: Table, segments: map<u64, Bytes>, gens: seq<u64>, g: u64)
    requires g in gens && ReadSegment(segments, g).Err?
    ensures MergeInto(t, segments, gens).Err?
    decreases |gens|
  {
    hide ReadSegment, Insert;
    if ReadSegment(segments, gens[0]).Ok? {
      UnreadableIsNotMerged(Insert(t, ReadSegment(segments, gens[0]).value), segments, gens[1..], g);
    }
  }

  // ---------- reading the store ----------

  /** If each segment says what it said, or reports a mismatch, then so does the search. */
  lemma {:induction false} SearchAgreesOrFails(a: seq<Reader>, b: seq<Reader>, key: Bytes)
    requires AllSane(a) && AllSane(b) && |a| == |b|
    requires forall j :: 0 <= j < |a| ==>
               ScanOf(b[j], key) == ScanOf(a[j], key)
               || (ScanOf(b[j], key).Err? && ScanOf(b[j], key).error.ChecksumMismatch?)
    ensures Search(b, key) == Search(a, key) || (Search(b, key).Err? && Search(b, key).error.ChecksumMismatch?)
    decreases |a|
  {
    hide ScanFrom, StartOffset, Sane;
    if a != [] {
      assert ScanOf(b[0], key) == ScanOf(a[0], key)
             || (ScanOf(b[0], key).Err? && ScanOf(b[0], key).error.ChecksumMismatch?);
      assert forall j :: 0 <= j < |a| - 1 ==> a[1..][j] == a[j + 1] && b[1..][j] == b[j + 1];
      SearchAgreesOrFails(a[1..], b[1..], key);
    }
  }

  /** `get`, with a segment damaged since: the value in the map, or the mismatch; never anything else. */
  lemma DamageIsNotServed(v: Volatile, d: Disk, i: nat, x: Damaged, at: nat, width: nat, key: Bytes)
    requires Idle(v, d) && AllSane(v.readers) && i < |v.readers|
    requires IsBurst(x, at, width) && v.readers[i] == ReaderOf(AllRecords(x), v.readers[i].gen)
    ensures var v' := v.(readers := v.readers[i := DamagedReader(x, v.readers[i].gen)]);
            && AllSane(v'.readers)
            && (Answer(v', key) == Ok(ViewAt(Logical(d), key))
                || (Answer(v', key).Err? && Answer(v', key).error.ChecksumMismatch?))
  {
    hide IsBurst, DamagedReader, ScanFrom, StartOffset, Sane, Idle, Logical, Search, ReaderOf, AllRecords, Find;
    var gen := v.readers[i].gen;
    var readers := v.readers[i := DamagedReader(x, gen)];
    DamagedSegmentIsNotServed(x, gen, at, width, key);
    DamagedKeepsIndex(x, gen);
    BurstParts(x, at, width);
    LookupIsFind(AllRecords(x), gen, key);
    SearchAgreesOrFails(v.readers, readers, key);
    AnswerIsLogical(v, d, key);
  }

  lemma DamagedKeepsIndex(x: Damaged, gen: u64)
    ensures DamagedReader(x, gen).index == ReaderOf(AllRecords(x), gen).index
  {
    hide DamagedFile, SegmentBytes, IndexOf, IndexOffset;
  }
}
