/** What opening and reading make of an arbitrary segment file (`src/segment.rs`), told from its bytes alone. */
module FileFormat {
  import opened Bytes
  import opened Errors
  import opened Records
  import opened Tables
  import opened Segments
  import opened SegmentReaders

  // ---------- records ----------

  /** A record is read at an offset exactly when its encoding lies there, wholly before the index. */
  lemma RecordAtIff(rd: Reader, offset: nat, r: Record, n: nat)
    requires Sane(rd)
    ensures ReadRecordAt(rd, offset) == Ok((r, n)) <==>
            && WellFormed(r) && n == |Frame(r)| && 5 <= offset && offset + n <= rd.indexOffset
            && rd.file[offset..offset + n] == Frame(r)
  {
    hide Frame, Canonical, Decode, ReadRecordAt, Encodable;
    if ReadRecordAt(rd, offset) == Ok((r, n)) {
      ReadIsDecoded(rd, offset);
      var s := rd.file[offset..offset + n];
      FrameOfDecode(s);
      assert s[..n] == s;
    }
    if && WellFormed(r) && n == |Frame(r)| && 5 <= offset && offset + n <= rd.indexOffset
       && rd.file[offset..offset + n] == Frame(r)
    {
      ReadsFrame(rd, offset, r);
    }
  }

  lemma ReadIsDecoded(rd: Reader, offset: nat)
    requires Sane(rd) && ReadRecordAt(rd, offset).Ok?
    ensures var n := ReadRecordAt(rd, offset).value.1;
            offset >= HEADER_SIZE && Decode(rd.file[offset..offset + n]) == ReadRecordAt(rd, offset)
  {
    hide Decode, FromLe;
  }

  /** All records are read exactly when the bytes up to the index are their encodings, and nothing else. */
  lemma {:induction false} ReadAllIff(rd: Reader, offset: nat, rs: seq<Record>)
    requires Sane(rd) && offset >= HEADER_SIZE
    ensures ReadAllFrom(rd, offset) == Ok(rs) <==> HoldsFrom(rd, offset, rs)
    decreases rd.indexOffset - offset
  {
    hide ReadRecordAt, Frame, Frames, WellFormed, AllWellFormed;
    if HoldsFrom(rd, offset, rs) {
      ReadAllFindsAll(rd, offset, rs);
    }
    if ReadAllFrom(rd, offset) == Ok(rs) {
      NoFramesHeld(rd, offset);
      if offset < rd.indexOffset {
        var (r, n) := ReadRecordAt(rd, offset).value;
        RecordAtIff(rd, offset, r, n);
        ReadAllIff(rd, offset + n, rs[1..]);
        HoldsOneMore(rd, offset, rs);
      }
    }
  }

  lemma NoFramesHeld(rd: Reader, offset: nat)
    requires Sane(rd)
    ensures HEADER_SIZE <= offset == rd.indexOffset ==> HoldsFrom(rd, offset, [])
  {
  }

  lemma HoldsOneMore(rd: Reader, offset: nat, rs: seq<Record>)
    requires Sane(rd) && rs != [] && WellFormed(rs[0]) && HEADER_SIZE <= offset
    requires offset + |Frame(rs[0])| <= rd.indexOffset
    requires rd.file[offset..offset + |Frame(rs[0])|] == Frame(rs[0])
    requires HoldsFrom(rd, offset + |Frame(rs[0])|, rs[1..])
    ensures HoldsFrom(rd, offset, rs)
  {
    hide Frame, WellFormed;
    var n := |Frame(rs[0])|;
    assert rd.file[offset..rd.indexOffset] == rd.file[offset..offset + n] + rd.file[offset + n..rd.indexOffset];
    assert forall r :: r in rs ==> r == rs[0] || r in rs[1..];
  }

  // ---------- lookups ----------

  /** From `offset` on lie the encodings of these records, and all but the last have smaller keys. */
  ghost predicate Passed(rd: Reader, offset: nat, key: Bytes, passed: seq<Record>) {
    && (forall i :: 0 <= i < |passed| ==> WellFormed(passed[i]))
    && offset + |Frames(passed)| <= rd.indexOffset <= |rd.file|
    && rd.file[offset..offset + |Frames(passed)|] == Frames(passed)
    && (forall i :: 0 <= i < |passed| - 1 ==> passed[i].key != key && !Less(key, passed[i].key))
  }

  /**
   * A lookup answers from whole, undamaged records only: it passes records with smaller keys, one after the other, and
   * its answer is the value of a record with the key, or it has come to a record with a greater key or to the index.
   */
  lemma {:induction false} LookupIsSound(rd: Reader, offset: nat, key: Bytes) returns (passed: seq<Record>)
    requires Sane(rd) && HEADER_SIZE <= offset <= rd.indexOffset && ScanFrom(rd, offset, key).Ok?
    ensures Passed(rd, offset, key, passed)
    ensures match ScanFrom(rd, offset, key).value
            case Some(val) => passed != [] && passed[|passed| - 1].key == key && val == ValueOf(passed[|passed| - 1])
            case None =>
              || offset + |Frames(passed)| == rd.indexOffset
              || (passed != [] && Less(key, passed[|passed| - 1].key))
    decreases rd.indexOffset - offset
  {
    hide ReadRecordAt, Frame, WellFormed, Less, Frames, Passed;
    if offset == rd.indexOffset {
      passed := [];
      PassedNone(rd, offset, key);
    } else {
      var (r, n) := ReadRecordAt(rd, offset).value;
      RecordAtIff(rd, offset, r, n);
      if r.key == key || Less(key, r.key) {
        passed := [r];
        PassedNone(rd, offset + n, key);
        PassedOneMore(rd, offset, key, r, []);
        assert [r] + [] == [r];
      } else {
        var more := LookupIsSound(rd, offset + n, key);
        passed := [r] + more;
        PassedOneMore(rd, offset, key, r, more);
      }
    }
  }

  lemma PassedNone(rd: Reader, offset: nat, key: Bytes)
    requires offset <= rd.indexOffset <= |rd.file|
    ensures Passed(rd, offset, key, []) && |Frames([])| == 0
  {
  }

  lemma PassedOneMore(rd: Reader, offset: nat, key: Bytes, r: Record, more: seq<Record>)
    requires WellFormed(r) && offset + |Frame(r)| <= rd.indexOffset <= |rd.file|
    requires rd.file[offset..offset + |Frame(r)|] == Frame(r)
    requires Passed(rd, offset + |Frame(r)|, key, more) && (more != [] ==> r.key != key && !Less(key, r.key))
    ensures Passed(rd, offset, key, [r] + more) && |Frames([r] + more)| == |Frame(r)| + |Frames(more)|
  {
    hide Frame, WellFormed, Less, Frames;
    var n := |Frame(r)|;
    FramesCons(r, more);
    JoinSlices(rd.file, offset, offset + n, offset + n + |Frames(more)|);
    assert forall i :: 0 <= i < |more| ==> ([r] + more)[i + 1] == more[i];
  }

  lemma JoinSlices(s: Bytes, a: nat, b: nat, c: nat)
    requires a <= b <= c <= |s|
    ensures s[a..c] == s[a..b] + s[b..c]
  {
  }

  lemma FramesCons(r: Record, more: seq<Record>)
    ensures Frames([]) == []
    ensures Frames([r] + more) == Frame(r) + Frames(more)
  {
    hide Frame;
    assert ([r] + more)[1..] == more;
  }

  // ---------- opening ----------

  lemma IndexEntryIff(file: Bytes, current: nat, indexOffset: nat, previous: Option<IndexEntry>)
    requires current + FOOTER_SIZE <= |file| && ReadIndexEntry(file, current, indexOffset, previous).Ok?
    ensures var e := ReadIndexEntry(file, current, indexOffset, previous).value;
            && file[current..current + IndexEntrySize(e)] == IndexEntryBytes(e)
            && |e.key| < 0x1_0000_0000 && HEADER_SIZE <= e.offset < indexOffset
            && (previous.Some? ==> Less(previous.value.key, e.key) && previous.value.offset < e.offset)
  {
    hide Less, Le, FromLe;
    var e := ReadIndexEntry(file, current, indexOffset, previous).value;
    var keyStart := current + U32_SIZE;
    var keyEnd := keyStart + |e.key|;
    Widths();
    LeOfFromLe(file[current..keyStart]);
    LeOfFromLe(file[keyEnd..keyEnd + U64_SIZE]);
    var s := file[current..current + IndexEntrySize(e)];
    assert s == file[current..keyStart] + file[keyStart..keyEnd] + file[keyEnd..keyEnd + U64_SIZE];
  }

  /** The index is read exactly when its bytes are ascending entries and nothing else. */
  lemma {:induction false} IndexIff(file: Bytes, current: nat, indexOffset: nat, previous: Option<IndexEntry>,
                                    ix: seq<IndexEntry>)
    requires current + FOOTER_SIZE <= |file| && indexOffset <= U64_MAX
    ensures ReadIndex(file, current, indexOffset, previous) == Ok(ix) <==>
            file[current..|file| - FOOTER_SIZE] == IndexBytes(ix) && Ascending(ix, indexOffset, previous)
    decreases |file| - current
  {
    hide ReadIndexEntry, IndexEntryBytes, Less, IndexBytes;
    if file[current..|file| - FOOTER_SIZE] == IndexBytes(ix) && Ascending(ix, indexOffset, previous) {
      ReadIndexReadsBack(file, current, indexOffset, previous, ix);
    }
    if ReadIndex(file, current, indexOffset, previous) == Ok(ix) {
      IndexBytesOfNone();
      if current + FOOTER_SIZE < |file| {
        var e := ReadIndexEntry(file, current, indexOffset, previous).value;
        var next := current + IndexEntrySize(e);
        IndexEntryIff(file, current, indexOffset, previous);
        IndexIff(file, next, indexOffset, Some(e), ix[1..]);
        IndexBytesSplit(ix);
        assert file[current..|file| - FOOTER_SIZE] == file[current..next] + file[next..|file| - FOOTER_SIZE];
      }
    }
  }

  /**
   * A segment file: the header, an area, ascending index entries that begin at its start, the length of header and area
   * in eight bytes, and the four letters again.
   */
  ghost predicate IsSegmentFile(file: Bytes, area: Bytes, ix: seq<IndexEntry>) {
    && file == [0x53, 0x54, 0x4F, 0x4E, 1] + area + IndexBytes(ix) + (Le(5 + |area|, 8) + [0x53, 0x54, 0x4F, 0x4E])
    && 5 + |area| < 0x1_0000_0000_0000_0000
    && Ascending(ix, 5 + |area|, None)
    && (if area == [] then ix == [] else ix != [] && ix[0].offset == 5)
  }

  lemma EnvelopeIff(file: Bytes, o: nat)
    ensures CheckEnvelope(file) == Ok(o) <==>
            && |file| >= 17 && 5 <= o <= |file| - 12
            && file[..4] == [0x53, 0x54, 0x4F, 0x4E] && file[4] == 1
            && FromLe(file[|file| - 12..|file| - 4]) == o
            && file[|file| - 4..] == [0x53, 0x54, 0x4F, 0x4E]
  {
    hide FromLe;
  }

  /** Opening succeeds exactly for segment files, with their index. */
  lemma OpensIff(file: Bytes, gen: u64, rd: Reader)
    ensures OpenSegment(file, gen) == Ok(rd) <==>
            && rd.file == file && rd.gen == gen && 5 <= rd.indexOffset <= |file|
            && IsSegmentFile(file, file[5..rd.indexOffset], rd.index)
  {
    hide CheckEnvelope, ReadIndex, IsSegmentFile, IndexBytes, Ascending;
    if OpenSegment(file, gen) == Ok(rd) {
      OpenedIsSegmentFile(file, rd);
    }
    if 5 <= rd.indexOffset <= |file| && IsSegmentFile(file, file[5..rd.indexOffset], rd.index) {
      SegmentFileParts(file, file[5..rd.indexOffset], rd.index);
    }
  }

  lemma OpenedIsSegmentFile(file: Bytes, rd: Reader)
    requires OpenSegment(file, rd.gen) == Ok(rd)
    ensures rd.file == file && IsSegmentFile(file, file[5..rd.indexOffset], rd.index)
  {
    hide CheckEnvelope, ReadIndex, IndexBytes, Ascending, Le, FromLe;
    var o, n := rd.indexOffset, |file|;
    EnvelopeIff(file, o);
    Widths();
    LeOfFromLe(file[n - 12..n - 4]);
    IndexIff(file, o, o, None, rd.index);
    FiveParts(file, o);
  }

  lemma FiveParts(file: Bytes, o: nat)
    requires 5 <= o <= |file| - 12
    ensures var n := |file|;
            file == (file[..4] + [file[4]]) + file[5..o] + file[o..n - 12] + (file[n - 12..n - 4] + file[n - 4..])
  {
    var n := |file|;
    JoinSlices(file, 0, 5, o);
    JoinSlices(file, 0, o, n - 12);
    JoinSlices(file, n - 12, n - 4, n);
    JoinSlices(file, 0, n - 12, n);
    assert file[0..5] == file[..4] + [file[4]];
    assert file[0..n] == file && file[n - 4..n] == file[n - 4..];
  }

  lemma SegmentFileParts(file: Bytes, area: Bytes, ix: seq<IndexEntry>)
    requires IsSegmentFile(file, area, ix)
    ensures CheckEnvelope(file) == Ok(5 + |area|)
    ensures ReadIndex(file, 5 + |area|, 5 + |area|, None) == Ok(ix)
    ensures IndexFits(ix, 5 + |area|)
  {
    hide CheckEnvelope, ReadIndex, IndexBytes, Ascending, Le, FromLe;
    var o := 5 + |area|;
    Widths();
    FromLeOfLe(o, 8);
    EnvelopeLayout(area, IndexBytes(ix), Le(o, 8));
    assert HEADER == [0x53, 0x54, 0x4F, 0x4E, 1];
    EnvelopeIff(file, o);
    IndexIff(file, o, o, None, ix);
  }

  /** What the writer writes is a segment file. */
  lemma WrittenIsSegmentFile(rs: seq<Record>)
    requires Writable(rs)
    ensures IsSegmentFile(SegmentBytes(rs), Frames(rs), IndexOf(rs))
  {
    hide Frames, IndexBytes, Sparse, Ascending, Le;
    SparseIsAscending(rs, 0, HEADER_SIZE, IndexOffset(rs), None);
    FirstIsIndexed(rs);
    if Frames(rs) == [] && rs != [] {
      FramesLength(rs);
      assert false;
    }
    if rs == [] {
      SparseOfNone(0, HEADER_SIZE);
    }
  }
}
