/** Opening a segment, looking a key up through the sparse index, and reading all records (`src/segment.rs`). */
module SegmentReaders {
  import opened Bytes
  import opened Errors
  import opened Records
  import opened Tables
  import opened Segments

  /** An open segment; `file` is what the file handle decoded. */
  datatype Reader = Reader(file: Bytes, gen: u64, index: seq<IndexEntry>, indexOffset: nat)

  predicate Sane(rd: Reader) {
    HEADER_SIZE <= rd.indexOffset <= |rd.file|
  }

  // ---------- opening ----------

  /** The checks of `open` before the index is read; the result is the index offset. */
  function CheckEnvelope(file: Bytes): (res: Result<nat>)
    ensures res.Ok? ==> HEADER_SIZE <= res.value <= |file| - FOOTER_SIZE
  {
    if |file| < HEADER_SIZE + FOOTER_SIZE then Err(InvalidSegmentFile("file too small"))
    else if file[..4] != MAGIC then Err(InvalidSegmentFile("invalid header magic"))
    else if file[4] != VERSION then Err(InvalidSegmentFile("unsupported segment version"))
    else
      var footerStart := |file| - FOOTER_SIZE;
      var indexOffset := FromLe(file[footerStart..footerStart + U64_SIZE]);
      if file[footerStart + U64_SIZE..] != MAGIC then Err(InvalidSegmentFile("invalid footer magic"))
      else if indexOffset < HEADER_SIZE || indexOffset > footerStart then
        Err(InvalidSegmentFile("invalid index offset"))
      else Ok(indexOffset)
  }

  /** The bytes an index entry takes. */
  function IndexEntrySize(e: IndexEntry): nat {
    U32_SIZE + |e.key| + U64_SIZE
  }

  /** The index entry at `current`, checked against the one before it. */
  function ReadIndexEntry(file: Bytes, current: nat, indexOffset: nat, previous: Option<IndexEntry>)
    : (res: Result<IndexEntry>)
    requires current + FOOTER_SIZE <= |file|
    ensures res.Ok? ==> current + IndexEntrySize(res.value) + FOOTER_SIZE <= |file|
  {
    var footerStart := |file| - FOOTER_SIZE;
    if current + U32_SIZE > footerStart then Err(InvalidSegmentFile("truncated sparse index key length"))
    else
      var keyStart := current + U32_SIZE;
      var keyEnd := keyStart + FromLe(file[current..keyStart]);
      var end := keyEnd + U64_SIZE;
      if end > footerStart then Err(InvalidSegmentFile("truncated sparse index entry"))
      else
        var e := IndexEntry(file[keyStart..keyEnd], FromLe(file[keyEnd..end]));
        if e.offset < HEADER_SIZE || e.offset >= indexOffset then
          Err(InvalidSegmentFile("invalid sparse index record offset"))
        else if previous.Some? && !Less(previous.value.key, e.key) then
          Err(InvalidSegmentFile("sparse index keys are not strictly increasing"))
        else if previous.Some? && e.offset <= previous.value.offset then
          Err(InvalidSegmentFile("sparse index offsets are not strictly increasing"))
        else Ok(e)
  }

  function ReadIndex(file: Bytes, current: nat, indexOffset: nat, previous: Option<IndexEntry>)
    : Result<seq<IndexEntry>>
    requires current + FOOTER_SIZE <= |file|
    decreases |file| - current
  {
    hide ReadIndexEntry;
    if current + FOOTER_SIZE == |file| then Ok([])
    else
      var e :- ReadIndexEntry(file, current, indexOffset, previous);
      var rest :- ReadIndex(file, current + IndexEntrySize(e), indexOffset, Some(e));
      Ok([e] + rest)
  }

  method ReadSparseIndex(file: Bytes, indexOffset: nat) returns (res: Result<seq<IndexEntry>>)
    requires indexOffset + FOOTER_SIZE <= |file|
    ensures res == ReadIndex(file, indexOffset, indexOffset, None)
  {
    hide ReadIndexEntry, ReadIndex, After;
    var footerStart := |file| - FOOTER_SIZE;
    var entries: seq<IndexEntry> := [];
    var current := indexOffset;
    var previous: Option<IndexEntry> := None;
    ghost var goal := ReadIndex(file, indexOffset, indexOffset, None);
    AfterNothing(goal);
    while current < footerStart
      invariant current <= footerStart
      invariant goal == After(entries, ReadIndex(file, current, indexOffset, previous))
      decreases footerStart - current
    {
      ReadIndexStep(file, current, indexOffset, previous, entries);
      var e :- ReadIndexEntry(file, current, indexOffset, previous);
      entries := entries + [e];
      previous := Some(e);
      current := current + IndexEntrySize(e);
    }
    ReadIndexEnd(file, indexOffset, previous, entries);
    return Ok(entries);
  }

  lemma ReadIndexStep(file: Bytes, current: nat, indexOffset: nat, previous: Option<IndexEntry>, done: seq<IndexEntry>)
    requires current + FOOTER_SIZE < |file|
    ensures var at := ReadIndexEntry(file, current, indexOffset, previous);
            After(done, ReadIndex(file, current, indexOffset, previous)) ==
            if at.Err? then Err(at.error)
            else
              var next := current + IndexEntrySize(at.value);
              After(done + [at.value], ReadIndex(file, next, indexOffset, Some(at.value)))
  {
    hide ReadIndexEntry;
    var at := ReadIndexEntry(file, current, indexOffset, previous);
    if at.Ok? {
      AfterOneMore(done, at.value, ReadIndex(file, current + IndexEntrySize(at.value), indexOffset, Some(at.value)));
    }
  }

  lemma ReadIndexEnd(file: Bytes, indexOffset: nat, previous: Option<IndexEntry>, done: seq<IndexEntry>)
    requires FOOTER_SIZE <= |file|
    ensures After(done, ReadIndex(file, |file| - FOOTER_SIZE, indexOffset, previous)) == Ok(done)
  {
    assert done + [] == done;
  }

  /** The first index entry must point at the first record, and there is one exactly when there are records. */
  predicate IndexFits(index: seq<IndexEntry>, indexOffset: nat) {
    if indexOffset == HEADER_SIZE then index == [] else index != [] && index[0].offset == HEADER_SIZE
  }

  function OpenSegment(file: Bytes, gen: u64): (res: Result<Reader>)
    ensures res.Ok? ==> Sane(res.value) && res.value.file == file && res.value.gen == gen
  {
    hide ReadIndex;
    var indexOffset :- CheckEnvelope(file);
    var index :- ReadIndex(file, indexOffset, indexOffset, None);
    if IndexFits(index, indexOffset) then Ok(Reader(file, gen, index, indexOffset))
    else Err(InvalidSegmentFile("sparse index does not start at the first record"))
  }

  method Open(file: Bytes, gen: u64) returns (res: Result<Reader>)
    ensures res == OpenSegment(file, gen)
  {
    var indexOffset :- CheckEnvelope(file);
    var index :- ReadSparseIndex(file, indexOffset);
    if !IndexFits(index, indexOffset) {
      return Err(InvalidSegmentFile("sparse index does not start at the first record"));
    }
    return Ok(Reader(file, gen, index, indexOffset));
  }

  // ---------- reading records ----------

  /** `read_record_at`: the record at `offset`, which must lie wholly before the index. */
  function ReadRecordAt(rd: Reader, offset: nat): (res: Result<(Record, nat)>)
    requires Sane(rd)
    ensures res.Ok? ==> res.value.1 > 0 && offset + res.value.1 <= rd.indexOffset
  {
    hide Decode, FromLe;
    if offset < HEADER_SIZE || offset >= rd.indexOffset then Err(InvalidSegmentFile("invalid record offset"))
    else if offset + KEY_START > rd.indexOffset then Err(InvalidSegmentFile("record header extends into sparse index"))
    else
      var valLenAt := offset + KEY_START + FromLe(rd.file[offset + 1..offset + KEY_START]);
      if valLenAt + U32_SIZE > rd.indexOffset then Err(InvalidSegmentFile("key extends beyond record area"))
      else
        var total := valLenAt - offset + U32_SIZE + FromLe(rd.file[valLenAt..valLenAt + U32_SIZE]) + CRC_SIZE;
        if offset + total > rd.indexOffset then Err(InvalidSegmentFile("record extends beyond index offset"))
        else
          var decoded := Decode(rd.file[offset..offset + total]);
          if decoded.Err? then Err(decoded.error)
          else if decoded.value.1 != total then
            Err(InvalidSegmentFile("record decoder consumed unexpected number of bytes"))
          else Ok(decoded.value)
  }

  function ReadAllFrom(rd: Reader, offset: nat): Result<seq<Record>>
    requires Sane(rd)
    decreases rd.indexOffset - offset
  {
    if offset >= rd.indexOffset then
      if offset == rd.indexOffset then Ok([]) else Err(InvalidSegmentFile("record area ended beyond the index"))
    else
      var (r, n) :- ReadRecordAt(rd, offset);
      var rest :- ReadAllFrom(rd, offset + n);
      Ok([r] + rest)
  }

  method IterAll(rd: Reader) returns (res: Result<seq<Record>>)
    requires Sane(rd)
    ensures res == ReadAllFrom(rd, HEADER_SIZE)
  {
    hide ReadRecordAt, ReadAllFrom, After;
    var records: seq<Record> := [];
    var current := HEADER_SIZE;
    AfterNothing(ReadAllFrom(rd, HEADER_SIZE));
    while current < rd.indexOffset
      invariant current <= rd.indexOffset
      invariant ReadAllFrom(rd, HEADER_SIZE) == After(records, ReadAllFrom(rd, current))
      decreases rd.indexOffset - current
    {
      ReadAllStep(rd, current, records);
      var step :- ReadRecordAt(rd, current);
      var (r, n) := step;
      records := records + [r];
      current := current + n;
    }
    ReadAllEnd(rd, current, records);
    return Ok(records);
  }

  /** The elements read so far and then the rest, or the error found there. */
  function After<T>(done: seq<T>, rest: Result<seq<T>>): Result<seq<T>> {
    if rest.Ok? then Ok(done + rest.value) else rest
  }

  lemma AfterNothing<T>(rest: Result<seq<T>>)
    ensures After([], rest) == rest
  {
    if rest.Ok? {
      assert [] + rest.value == rest.value;
    }
  }

  lemma AfterOneMore<T>(done: seq<T>, x: T, rest: Result<seq<T>>)
    ensures After(done, After([x], rest)) == After(done + [x], rest)
  {
    if rest.Ok? {
      assert done + ([x] + rest.value) == done + [x] + rest.value;
    }
  }

  lemma ReadAllStep(rd: Reader, offset: nat, done: seq<Record>)
    requires Sane(rd) && offset < rd.indexOffset
    ensures var at := ReadRecordAt(rd, offset);
            After(done, ReadAllFrom(rd, offset)) ==
            if at.Ok? then After(done + [at.value.0], ReadAllFrom(rd, offset + at.value.1)) else Err(at.error)
  {
    hide ReadRecordAt;
    if ReadRecordAt(rd, offset).Ok? {
      var (r, n) := ReadRecordAt(rd, offset).value;
      AfterOneMore(done, r, ReadAllFrom(rd, offset + n));
    }
  }

  lemma ReadAllEnd(rd: Reader, offset: nat, done: seq<Record>)
    requires Sane(rd) && offset == rd.indexOffset
    ensures After(done, ReadAllFrom(rd, offset)) == Ok(done)
  {
    assert done + [] == done;
  }

  // ---------- looking a key up ----------

  /** Where the scan for `key` starts: the last index entry whose key is not above it. */
  function StartOffset(index: seq<IndexEntry>, key: Bytes, start: nat): nat
    decreases |index|
  {
    if index == [] || Less(key, index[0].key) then start else StartOffset(index[1..], key, index[0].offset)
  }

  function ScanFrom(rd: Reader, offset: nat, key: Bytes): Result<Option<Option<Bytes>>>
    requires Sane(rd)
    decreases rd.indexOffset - offset
  {
    if offset >= rd.indexOffset then Ok(None)
    else
      var (r, n) :- ReadRecordAt(rd, offset);
      if r.key == key then Ok(Some(ValueOf(r)))
      else if Less(key, r.key) then Ok(None)
      else ScanFrom(rd, offset + n, key)
  }

  /** How many records the scan decodes. */
  function ScanReads(rd: Reader, offset: nat, key: Bytes): nat
    requires Sane(rd)
    decreases rd.indexOffset - offset
  {
    if offset >= rd.indexOffset || ReadRecordAt(rd, offset).Err? then 0
    else
      var (r, n) := ReadRecordAt(rd, offset).value;
      1 + if r.key == key || Less(key, r.key) then 0 else ScanReads(rd, offset + n, key)
  }

  method LookupKey(rd: Reader, key: Bytes) returns (res: Result<Option<Option<Bytes>>>, ghost decoded: nat)
    requires Sane(rd)
    ensures res == ScanFrom(rd, StartOffset(rd.index, key, HEADER_SIZE), key)
    ensures res.Ok? ==> decoded == ScanReads(rd, StartOffset(rd.index, key, HEADER_SIZE), key)
  {
    hide ReadRecordAt;
    var start := HEADER_SIZE;
    var i := 0;
    assert rd.index[0..] == rd.index;
    while i < |rd.index| && !Less(key, rd.index[i].key)
      invariant 0 <= i <= |rd.index|
      invariant StartOffset(rd.index[i..], key, start) == StartOffset(rd.index, key, HEADER_SIZE)
    {
      assert rd.index[i..][1..] == rd.index[i + 1..];
      start := rd.index[i].offset;
      i := i + 1;
    }
    decoded := 0;
    var current := start;
    while current < rd.indexOffset
      invariant ScanFrom(rd, current, key) == ScanFrom(rd, start, key)
      invariant decoded + ScanReads(rd, current, key) == ScanReads(rd, start, key)
      decreases rd.indexOffset - current
    {
      var at := ReadRecordAt(rd, current);
      if at.Err? {
        return Err(at.error), decoded;
      }
      var (r, n) := at.value;
      decoded := decoded + 1;
      if r.key == key {
        return Ok(Some(ValueOf(r))), decoded;
      }
      if Less(key, r.key) {
        return Ok(None), decoded;
      }
      current := current + n;
    }
    return Ok(None), decoded;
  }

  // ---------- what a reader finds in a written segment ----------

  /** From `offset` up to the index lie exactly the encodings of rs. */
  ghost predicate HoldsFrom(rd: Reader, offset: nat, rs: seq<Record>) {
    && Sane(rd) && HEADER_SIZE <= offset <= rd.indexOffset
    && AllWellFormed(rs)
    && rd.file[offset..rd.indexOffset] == Frames(rs)
  }

  lemma ReadsNextRecord(rd: Reader, offset: nat, rs: seq<Record>)
    requires HoldsFrom(rd, offset, rs) && rs != []
    ensures ReadRecordAt(rd, offset) == Ok((rs[0], |Frame(rs[0])|))
    ensures HoldsFrom(rd, offset + |Frame(rs[0])|, rs[1..])
  {
    hide Decode, Less, ReadRecordAt, Frame, WellFormed;
    var r, f := rs[0], Frame(rs[0]);
    var end := offset + |f|;
    assert r in rs;
    var area := rd.file[offset..rd.indexOffset];
    FramesSplit(rs);
    SubSlice(rd.file, offset, rd.indexOffset, 0, |f|);
    SubSlice(rd.file, offset, rd.indexOffset, |f|, |area|);
    ReadsFrame(rd, offset, r);
  }

  lemma FramesSplit(rs: seq<Record>)
    requires rs != []
    ensures var f, rest := Frame(rs[0]), Frames(rs[1..]);
            |Frames(rs)| == |f| + |rest| && Frames(rs)[..|f|] == f && Frames(rs)[|f|..] == rest
  {
    hide Frame;
  }

  lemma ReadsFrame(rd: Reader, offset: nat, r: Record)
    requires Sane(rd) && HEADER_SIZE <= offset && offset + |Frame(r)| <= rd.indexOffset
    requires WellFormed(r) && rd.file[offset..offset + |Frame(r)|] == Frame(r)
    ensures ReadRecordAt(rd, offset) == Ok((r, |Frame(r)|))
  {
    hide Decode, Body, Trailer, FromLe;
    var f, b := Frame(r), Body(r);
    var keyEnd := KEY_START + |r.key|;
    Layout(r);
    BodyLength(r);
    SliceOfFile(rd.file, offset, f, b, 1, KEY_START);
    SliceOfFile(rd.file, offset, f, b, keyEnd, keyEnd + U32_SIZE);
    DecodeOfFrame(r, []);
    assert f + [] == f;
  }

  lemma BodyLength(r: Record)
    ensures |Body(r)| == KEY_START + |r.key| + U32_SIZE + |StoredValue(r)|
    ensures Body(r) <= Frame(r)
  {
    hide Le;
  }

  lemma SliceOfFile(file: Bytes, offset: nat, f: Bytes, b: Bytes, lo: nat, hi: nat)
    requires offset + |f| <= |file| && file[offset..offset + |f|] == f
    requires lo <= hi <= |b| && b <= f
    ensures file[offset + lo..offset + hi] == b[lo..hi]
  {
    SubSlice(file, offset, offset + |f|, lo, hi);
    assert forall i :: lo <= i < hi ==> f[i] == b[i];
  }

  lemma {:induction false} ReadAllFindsAll(rd: Reader, offset: nat, rs: seq<Record>)
    requires HoldsFrom(rd, offset, rs)
    ensures ReadAllFrom(rd, offset) == Ok(rs)
    decreases |rs|
  {
    hide ReadRecordAt, Frame, WellFormed;
    if rs != [] {
      ReadsNextRecord(rd, offset, rs);
      ReadAllFindsAll(rd, offset + |Frame(rs[0])|, rs[1..]);
      assert rs == [rs[0]] + rs[1..];
    }
  }

  /** Scanning sorted records finds what a linear search of them finds. */
  lemma {:induction false} ScanFindsKey(rd: Reader, offset: nat, rs: seq<Record>, key: Bytes)
    requires HoldsFrom(rd, offset, rs) && StrictlySorted(rs)
    ensures ScanFrom(rd, offset, key) == Ok(Find(rs, key))
    decreases |rs|
  {
    hide ReadRecordAt, Frame, WellFormed, Less;
    if rs != [] {
      ReadsNextRecord(rd, offset, rs);
      if rs[0].key != key && !Less(key, rs[0].key) {
        ScanFindsKey(rd, offset + |Frame(rs[0])|, rs[1..], key);
      } else if rs[0].key != key {
        KeyBelowAll(rs, key);
        FindBeyond(rs, key);
      }
    }
  }

  lemma KeyBelowAll(rs: seq<Record>, key: Bytes)
    requires StrictlySorted(rs) && rs != [] && Less(key, rs[0].key)
    ensures forall i :: 0 <= i < |rs| ==> Less(key, rs[i].key)
  {
    hide Less;
    forall i | 0 <= i < |rs|
      ensures Less(key, rs[i].key)
    {
      if i > 0 {
        LessIsTransitive(key, rs[0].key, rs[i].key);
      }
    }
  }

  /** The scan decodes no more than one record beyond the first whose key is above. */
  lemma {:induction false} ScanReadsAtMost(rd: Reader, offset: nat, rs: seq<Record>, key: Bytes, k: nat)
    requires HoldsFrom(rd, offset, rs)
    requires |rs| <= k || Less(key, rs[k].key)
    ensures ScanReads(rd, offset, key) <= k + 1
    decreases |rs|
  {
    hide ReadRecordAt, Frame, WellFormed, Less;
    if rs != [] {
      ReadsNextRecord(rd, offset, rs);
      if rs[0].key != key && !Less(key, rs[0].key) {
        ScanReadsAtMost(rd, offset + |Frame(rs[0])|, rs[1..], key, k - 1);
      }
    }
  }

  /** The scan decodes the records with smaller keys, and the next one if there is one. */
  lemma {:induction false} ScanReadsCounts(rd: Reader, offset: nat, rs: seq<Record>, key: Bytes, k: nat)
    requires HoldsFrom(rd, offset, rs) && k <= |rs|
    requires forall i :: 0 <= i < k ==> rs[i].key != key && !Less(key, rs[i].key)
    requires k < |rs| ==> rs[k].key == key || Less(key, rs[k].key)
    ensures ScanReads(rd, offset, key) == if k < |rs| then k + 1 else k
    decreases |rs|
  {
    hide ReadRecordAt, Frame, WellFormed, Less;
    if rs != [] {
      ReadsNextRecord(rd, offset, rs);
      if k > 0 {
        assert forall i :: 0 <= i < |rs| - 1 ==> rs[1..][i] == rs[i + 1];
        ScanReadsCounts(rd, offset + |Frame(rs[0])|, rs[1..], key, k - 1);
      }
    }
  }

  // ---------- the sparse index ----------

  /** Record n of rs is indexed when counting starts at `count`. */
  predicate Indexed(rs: seq<Record>, count: nat, n: nat) {
    n < |rs| && (count + n) % INTERVAL == 0
  }

  /** Record n, if it is indexed, has a key above the one sought. */
  predicate AboveIfIndexed(rs: seq<Record>, count: nat, n: nat, key: Bytes) {
    Indexed(rs, count, n) ==> Less(key, rs[n].key)
  }

  /**
   * Where the index sends a lookup: to the last indexed record whose key is not above the one sought,
   * or nowhere new when the first indexed record is already above it.
   */
  lemma {:induction false} StartIsLastIndexed(rs: seq<Record>, count: nat, offset: nat, key: Bytes, start: nat)
    returns (n: Option<nat>)
    ensures var o := StartOffset(Sparse(rs, count, offset), key, start);
            match n
            case None => o == start && forall m :: 0 <= m < INTERVAL ==> AboveIfIndexed(rs, count, m, key)
            case Some(i) =>
              && Indexed(rs, count, i) && !Less(key, rs[i].key)
              && o == offset + |Frames(rs[..i])|
              && AboveIfIndexed(rs, count, i + INTERVAL, key)
    decreases |rs|
  {
    hide Frame, Less, Sparse, StartOffset, Frames;
    n := None;
    if rs == [] {
      StartOfEmpty(count, offset, key, start);
    } else {
      var rest, next := rs[1..], offset + |Frame(rs[0])|;
      var here := count % INTERVAL == 0;
      StartOfFirst(rs, count, offset, key, start);
      if !here || !Less(key, rs[0].key) {
        var m := StartIsLastIndexed(rest, count + 1, next, key, if here then offset else start);
        if m.Some? {
          n := Some(m.value + 1);
          FramesTake(rs, m.value);
          assert AboveIfIndexed(rest, count + 1, m.value + INTERVAL, key);
        } else if here {
          n := Some(0);
          FramesOfNone(rs);
          assert AboveIfIndexed(rest, count + 1, INTERVAL - 1, key);
        } else {
          forall k | 0 <= k < INTERVAL
            ensures AboveIfIndexed(rs, count, k, key)
          {
            if k > 0 {
              assert AboveIfIndexed(rest, count + 1, k - 1, key);
            }
          }
        }
      }
    }
  }

  lemma StartOfEmpty(count: nat, offset: nat, key: Bytes, start: nat)
    ensures StartOffset(Sparse([], count, offset), key, start) == start
  {
  }

  lemma StartOfFirst(rs: seq<Record>, count: nat, offset: nat, key: Bytes, start: nat)
    requires rs != []
    ensures var o := StartOffset(Sparse(rs, count, offset), key, start);
            var more := Sparse(rs[1..], count + 1, offset + |Frame(rs[0])|);
            if count % INTERVAL != 0 then o == StartOffset(more, key, start)
            else if Less(key, rs[0].key) then o == start
            else o == StartOffset(more, key, offset)
  {
    hide Frame, Less, Sparse;
    SparseSplits(rs, count, offset);
    var more := Sparse(rs[1..], count + 1, offset + |Frame(rs[0])|);
    assert ([IndexEntry(rs[0].key, offset)] + more)[1..] == more;
  }

  lemma FramesTake(rs: seq<Record>, n: nat)
    requires n < |rs|
    ensures |Frames(rs[..n + 1])| == |Frame(rs[0])| + |Frames(rs[1..][..n])|
  {
    hide Frame;
    assert rs[..n + 1][1..] == rs[1..][..n];
  }

  /** The reader of a written segment. */
  function ReaderOf(rs: seq<Record>, gen: u64): Reader {
    Reader(SegmentBytes(rs), gen, IndexOf(rs), IndexOffset(rs))
  }

  lemma HoldsAt(rs: seq<Record>, gen: u64, n: nat)
    requires AllWellFormed(rs) && n <= |rs|
    ensures HoldsFrom(ReaderOf(rs, gen), HEADER_SIZE + |Frames(rs[..n])|, rs[n..])
  {
    hide Frames, WellFormed, IndexBytes, Sparse, Le;
    var file := SegmentBytes(rs);
    assert rs == rs[..n] + rs[n..];
    FramesConcat(rs[..n], rs[n..]);
    var a, b := Frames(rs[..n]), Frames(rs[n..]);
    var tail := IndexBytes(IndexOf(rs)) + Footer(IndexOffset(rs));
    assert file == HEADER + (a + b) + tail;
    NextField(file, HEADER + a, b);
  }

  /** A lookup through the sparse index answers what a linear search of the segment's records answers. */
  lemma LookupIsFind(rs: seq<Record>, gen: u64, key: Bytes)
    requires AllWellFormed(rs) && StrictlySorted(rs)
    ensures var rd := ReaderOf(rs, gen);
            Sane(rd) && ScanFrom(rd, StartOffset(rd.index, key, HEADER_SIZE), key) == Ok(Find(rs, key))
  {
    hide Frames, WellFormed, SegmentBytes, Sparse, Less, ScanFrom;
    var rd := ReaderOf(rs, gen);
    var n := StartIsLastIndexed(rs, 0, HEADER_SIZE, key, HEADER_SIZE);
    var i := if n.Some? then n.value else 0;
    FramesOfNone(rs);
    HoldsAt(rs, gen, i);
    ScanFindsKey(rd, HEADER_SIZE + |Frames(rs[..i])|, rs[i..], key);
    if n.Some? {
      SkippedKeysAreBelow(rs, i, key);
    } else {
      assert rs[0..] == rs;
    }
  }

  lemma FramesOfNone(rs: seq<Record>)
    ensures Frames(rs[..0]) == []
  {
  }

  lemma {:induction false} SkippedKeysAreBelow(rs: seq<Record>, n: nat, key: Bytes)
    requires StrictlySorted(rs) && n < |rs| && !Less(key, rs[n].key)
    ensures Find(rs[n..], key) == Find(rs, key)
    decreases n
  {
    hide Less;
    if n > 0 {
      var first := rs[0].key;
      assert Less(first, rs[n].key);
      assert rs[1..][n - 1..] == rs[n..];
      SkippedKeysAreBelow(rs[1..], n - 1, key);
    } else {
      assert rs[0..] == rs;
    }
  }

  /** No lookup in a written segment decodes more than seventeen records, however large the segment. */
  lemma LookupReadsAtMost17(rs: seq<Record>, gen: u64, key: Bytes)
    requires AllWellFormed(rs) && StrictlySorted(rs)
    ensures var rd := ReaderOf(rs, gen);
            Sane(rd) && ScanReads(rd, StartOffset(rd.index, key, HEADER_SIZE), key) <= 17
  {
    hide Frames, WellFormed, SegmentBytes, Sparse, Less, ScanReads;
    var rd := ReaderOf(rs, gen);
    var n := StartIsLastIndexed(rs, 0, HEADER_SIZE, key, HEADER_SIZE);
    var i := if n.Some? then n.value else 0;
    FramesOfNone(rs);
    HoldsAt(rs, gen, i);
    if n.Some? {
      ScanReadsAtMost(rd, HEADER_SIZE + |Frames(rs[..i])|, rs[i..], key, INTERVAL);
    } else {
      assert AboveIfIndexed(rs, 0, 0, key);
      assert rs[0..] == rs;
      ScanReadsAtMost(rd, HEADER_SIZE, rs, key, 0);
    }
  }

  // ---------- a written segment opens ----------

  /** An index the reader accepts after the entry `previous`. */
  ghost predicate Ascending(ix: seq<IndexEntry>, indexOffset: nat, previous: Option<IndexEntry>)
    decreases |ix|
  {
    ix == [] ||
    (&& |ix[0].key| < 0x1_0000_0000
     && HEADER_SIZE <= ix[0].offset < indexOffset
     && (previous.Some? ==> Less(previous.value.key, ix[0].key) && previous.value.offset < ix[0].offset)
     && Ascending(ix[1..], indexOffset, Some(ix[0])))
  }

  lemma ReadsIndexEntry(file: Bytes, current: nat, indexOffset: nat, previous: Option<IndexEntry>, ix: seq<IndexEntry>)
    requires current + FOOTER_SIZE <= |file| && indexOffset <= U64_MAX
    requires ix != [] && Ascending(ix, indexOffset, previous)
    requires file[current..|file| - FOOTER_SIZE] == IndexBytes(ix)
    ensures ReadIndexEntry(file, current, indexOffset, previous) == Ok(ix[0])
    ensures var next := current + IndexEntrySize(ix[0]);
            next + FOOTER_SIZE <= |file| && file[next..|file| - FOOTER_SIZE] == IndexBytes(ix[1..])
  {
    hide Less, Ascending, Le, FromLe, IndexBytes, IndexEntryBytes;
    var e, rest := ix[0], IndexBytes(ix[1..]);
    var footerStart := |file| - FOOTER_SIZE;
    FirstOfAscending(ix, indexOffset, previous);
    IndexBytesSplit(ix);
    IndexKeyLength(file, current, footerStart, e, rest);
    IndexKey(file, current, footerStart, e, rest);
    IndexRecordOffset(file, current, footerStart, e, rest);
    IndexTail(file, current, footerStart, e, rest);
  }

  lemma IndexBytesSplit(ix: seq<IndexEntry>)
    requires ix != []
    ensures IndexBytes(ix) == IndexEntryBytes(ix[0]) + IndexBytes(ix[1..])
    ensures |IndexEntryBytes(ix[0])| == IndexEntrySize(ix[0])
  {
    hide Le;
  }

  /** The four parts of what follows `current`, when an index entry lies there. */
  lemma IndexKeyLength(file: Bytes, current: nat, stop: nat, e: IndexEntry, rest: Bytes)
    requires current <= stop <= |file| && file[current..stop] == IndexEntryBytes(e) + rest
    requires |IndexEntryBytes(e)| == IndexEntrySize(e) && |e.key| < 0x1_0000_0000
    ensures FromLe(file[current..current + U32_SIZE]) == |e.key|
  {
    hide Le, FromLe, IndexEntryBytes;
    Widths();
    FromLeOfLe(|e.key|, U32_SIZE);
    EntryLayout(e, rest);
    SubSlice(file, current, stop, 0, U32_SIZE);
  }

  lemma IndexKey(file: Bytes, current: nat, stop: nat, e: IndexEntry, rest: Bytes)
    requires current <= stop <= |file| && file[current..stop] == IndexEntryBytes(e) + rest
    requires |IndexEntryBytes(e)| == IndexEntrySize(e)
    ensures file[current + U32_SIZE..current + U32_SIZE + |e.key|] == e.key
  {
    hide Le, IndexEntryBytes;
    EntryLayout(e, rest);
    SubSlice(file, current, stop, U32_SIZE, U32_SIZE + |e.key|);
  }

  lemma IndexRecordOffset(file: Bytes, current: nat, stop: nat, e: IndexEntry, rest: Bytes)
    requires current <= stop <= |file| && file[current..stop] == IndexEntryBytes(e) + rest
    requires |IndexEntryBytes(e)| == IndexEntrySize(e) && e.offset <= U64_MAX
    ensures var keyEnd := current + U32_SIZE + |e.key|;
            FromLe(file[keyEnd..keyEnd + U64_SIZE]) == e.offset
  {
    hide Le, FromLe, IndexEntryBytes;
    Widths();
    FromLeOfLe(e.offset, U64_SIZE);
    EntryLayout(e, rest);
    SubSlice(file, current, stop, U32_SIZE + |e.key|, IndexEntrySize(e));
  }

  lemma IndexTail(file: Bytes, current: nat, stop: nat, e: IndexEntry, rest: Bytes)
    requires current <= stop <= |file| && file[current..stop] == IndexEntryBytes(e) + rest
    requires |IndexEntryBytes(e)| == IndexEntrySize(e)
    ensures current + IndexEntrySize(e) <= stop && file[current + IndexEntrySize(e)..stop] == rest
  {
    hide Le, IndexEntryBytes;
    EntryLayout(e, rest);
    SubSlice(file, current, stop, IndexEntrySize(e), stop - current);
  }

  lemma FirstOfAscending(ix: seq<IndexEntry>, indexOffset: nat, previous: Option<IndexEntry>)
    requires ix != [] && Ascending(ix, indexOffset, previous)
    ensures |ix[0].key| < 0x1_0000_0000 && HEADER_SIZE <= ix[0].offset < indexOffset
    ensures previous.Some? ==> Less(previous.value.key, ix[0].key) && previous.value.offset < ix[0].offset
    ensures Ascending(ix[1..], indexOffset, Some(ix[0]))
  {
  }

  lemma EntryLayout(e: IndexEntry, rest: Bytes)
    ensures var s := IndexEntryBytes(e) + rest;
            var keyEnd := U32_SIZE + |e.key|;
            && s[..U32_SIZE] == Le(|e.key|, U32_SIZE)
            && s[U32_SIZE..keyEnd] == e.key
            && s[keyEnd..keyEnd + U64_SIZE] == Le(e.offset, U64_SIZE)
            && s[keyEnd + U64_SIZE..] == rest
  {
    hide Le;
    var s := IndexEntryBytes(e) + rest;
    var keyLen, offset := Le(|e.key|, U32_SIZE), Le(e.offset, U64_SIZE);
    NextField(s, keyLen, e.key);
    NextField(s, keyLen + e.key, offset);
    NextField(s, keyLen + e.key + offset, rest);
  }

  lemma {:induction false} ReadIndexReadsBack(file: Bytes, current: nat, indexOffset: nat,
                                              previous: Option<IndexEntry>, ix: seq<IndexEntry>)
    requires current + FOOTER_SIZE <= |file| && indexOffset <= U64_MAX
    requires Ascending(ix, indexOffset, previous)
    requires file[current..|file| - FOOTER_SIZE] == IndexBytes(ix)
    ensures ReadIndex(file, current, indexOffset, previous) == Ok(ix)
    decreases |ix|
  {
    hide ReadIndexEntry, IndexBytes, Ascending;
    if ix == [] {
      IndexBytesOfNone();
    } else {
      ReadsIndexEntry(file, current, indexOffset, previous, ix);
      FirstOfAscending(ix, indexOffset, previous);
      ReadIndexReadsBack(file, current + IndexEntrySize(ix[0]), indexOffset, Some(ix[0]), ix[1..]);
      assert ix == [ix[0]] + ix[1..];
    }
  }

  /** The writer's index is one the reader accepts. */
  lemma {:induction false} SparseIsAscending(rs: seq<Record>, count: nat, offset: nat, indexOffset: nat,
                                             previous: Option<IndexEntry>)
    requires StrictlySorted(rs) && (forall r :: r in rs ==> Encodable(r))
    requires HEADER_SIZE <= offset && offset + |Frames(rs)| <= indexOffset
    requires previous.Some? ==> previous.value.offset < offset && (rs != [] ==> Less(previous.value.key, rs[0].key))
    ensures Ascending(Sparse(rs, count, offset), indexOffset, previous)
    decreases |rs|
  {
    hide Less, Frame, IndexedAt, Sparse, Encodable;
    SparseSplits(rs, count, offset);
    if rs != [] {
      var rest, next := rs[1..], offset + |Frame(rs[0])|;
      assert rs[0] in rs;
      FrameIsNotEmpty(rs[0]);
      if count % INTERVAL == 0 {
        EncodableKeyFits(rs[0]);
        SparseIsAscending(rest, count + 1, next, indexOffset, Some(IndexEntry(rs[0].key, offset)));
      } else {
        if previous.Some? && rest != [] {
          LessIsTransitive(previous.value.key, rs[0].key, rest[0].key);
        }
        SparseIsAscending(rest, count + 1, next, indexOffset, previous);
      }
    }
  }

  lemma SparseSplits(rs: seq<Record>, count: nat, offset: nat)
    ensures rs == [] ==> Sparse(rs, count, offset) == []
    ensures rs != [] ==>
              var more := Sparse(rs[1..], count + 1, offset + |Frame(rs[0])|);
              Sparse(rs, count, offset)
              == if count % INTERVAL == 0 then [IndexEntry(rs[0].key, offset)] + more else more
  {
    hide Frame;
    if rs != [] {
      var more := Sparse(rs[1..], count + 1, offset + |Frame(rs[0])|);
      assert [] + more == more;
    }
  }

  lemma EncodableKeyFits(r: Record)
    requires Encodable(r)
    ensures |r.key| <= MAX_FIELD_LEN
  {
  }

  lemma FrameIsNotEmpty(r: Record)
    ensures |Frame(r)| > 0
  {
  }

  lemma EnvelopeOfSegment(rs: seq<Record>)
    requires IndexOffset(rs) <= U64_MAX
    ensures CheckEnvelope(SegmentBytes(rs)) == Ok(IndexOffset(rs))
    ensures var file := SegmentBytes(rs);
            file[IndexOffset(rs)..|file| - FOOTER_SIZE] == IndexBytes(IndexOf(rs))
  {
    hide Frames, IndexBytes, Sparse, Le, FromLe;
    var o := IndexOffset(rs);
    Widths();
    FromLeOfLe(o, U64_SIZE);
    EnvelopeLayout(Frames(rs), IndexBytes(IndexOf(rs)), Le(o, U64_SIZE));
  }

  /** Header, records, index, footer: where the parts of a segment lie. */
  lemma EnvelopeLayout(area: Bytes, ix: Bytes, offset: Bytes)
    requires |offset| == U64_SIZE
    ensures var file := HEADER + area + ix + (offset + MAGIC);
            var footerStart := |file| - FOOTER_SIZE;
            && footerStart == HEADER_SIZE + |area| + |ix|
            && file[..4] == MAGIC && file[4] == VERSION
            && file[HEADER_SIZE + |area|..footerStart] == ix
            && file[footerStart..footerStart + U64_SIZE] == offset
            && file[footerStart + U64_SIZE..] == MAGIC
  {
    var file := HEADER + area + ix + (offset + MAGIC);
    NextField(file, HEADER + area, ix);
    NextField(file, HEADER + area + ix, offset);
    NextField(file, HEADER + area + ix + offset, MAGIC);
    assert file[..4] == MAGIC;
  }

  /** Opening what the writer wrote succeeds and rebuilds the writer's sparse index. */
  lemma WrittenSegmentOpens(rs: seq<Record>, gen: u64)
    requires Writable(rs)
    ensures OpenSegment(SegmentBytes(rs), gen) == Ok(ReaderOf(rs, gen))
  {
    hide Frames, IndexBytes, Sparse, SegmentBytes, CheckEnvelope, Ascending;
    EnvelopeOfSegment(rs);
    SparseIsAscending(rs, 0, HEADER_SIZE, IndexOffset(rs), None);
    ReadIndexReadsBack(SegmentBytes(rs), IndexOffset(rs), IndexOffset(rs), None, IndexOf(rs));
    FirstIsIndexed(rs);
  }

  lemma FirstIsIndexed(rs: seq<Record>)
    ensures IndexFits(IndexOf(rs), IndexOffset(rs))
  {
    hide Body, Trailer;
    if rs != [] {
      assert IndexOf(rs)[0].offset == HEADER_SIZE;
    }
  }

  /** Reading back what the writer wrote gives exactly the records written. */
  lemma WrittenSegmentReadsBack(rs: seq<Record>, gen: u64)
    requires AllWellFormed(rs)
    ensures Sane(ReaderOf(rs, gen)) && ReadAllFrom(ReaderOf(rs, gen), HEADER_SIZE) == Ok(rs)
  {
    hide Frames, SegmentBytes, WellFormed, Sparse;
    FramesOfNone(rs);
    HoldsAt(rs, gen, 0);
    assert rs[0..] == rs;
    ReadAllFindsAll(ReaderOf(rs, gen), HEADER_SIZE, rs);
  }
}
