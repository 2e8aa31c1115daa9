/** Immutable sorted segments with a sparse index (`src/segment.rs`). */
module Segments {
  import opened Bytes
  import opened Errors
  import opened Records
  import opened Tables
  import opened FileSystems

  const INTERVAL: nat := 16
  const MAGIC: Bytes := [0x53, 0x54, 0x4F, 0x4E]
  const VERSION: byte := 1
  const HEADER_SIZE: nat := 5
  const FOOTER_SIZE: nat := 12
  const U64_SIZE: nat := 8

  datatype IndexEntry = IndexEntry(key: Bytes, offset: nat)

  // ---------- the format ----------

  const HEADER: Bytes := MAGIC + [VERSION]

  /** Every sixteenth record is indexed, counting from `count`; the first of rs lies at `offset`. */
  function Sparse(rs: seq<Record>, count: nat, offset: nat): seq<IndexEntry>
    decreases |rs|
  {
    if rs == [] then []
    else
      IndexedAt(rs[0], count, offset) + Sparse(rs[1..], count + 1, offset + |Frame(rs[0])|)
  }

  function IndexEntryBytes(e: IndexEntry): Bytes {
    Le(|e.key|, U32_SIZE) + e.key + Le(e.offset, U64_SIZE)
  }

  function IndexBytes(ix: seq<IndexEntry>): Bytes {
    if ix == [] then [] else IndexEntryBytes(ix[0]) + IndexBytes(ix[1..])
  }

  function IndexOf(rs: seq<Record>): seq<IndexEntry> {
    Sparse(rs, 0, HEADER_SIZE)
  }

  function IndexOffset(rs: seq<Record>): nat {
    HEADER_SIZE + |Frames(rs)|
  }

  function Footer(indexOffset: nat): (f: Bytes)
    ensures |f| == FOOTER_SIZE
  {
    Le(indexOffset, U64_SIZE) + MAGIC
  }

  /** The whole file that holds the records rs. */
  function SegmentBytes(rs: seq<Record>): Bytes {
    HEADER + Frames(rs) + IndexBytes(IndexOf(rs)) + Footer(IndexOffset(rs))
  }

  /** What the writer accepts: strictly increasing keys, encodable records, offsets below 2^64. */
  ghost predicate Writable(rs: seq<Record>) {
    StrictlySorted(rs) && (forall r :: r in rs ==> Encodable(r)) && IndexOffset(rs) <= U64_MAX
  }

  // ---------- writing ----------

  datatype WriteStats = WriteStats(recordsWritten: nat, fileBytes: nat, indexEntries: nat)

  class SegmentWriter {
    const fs: FileSystem
    const file: File
    var buffer: Bytes
    var currentOffset: u64
    var sparseIndex: seq<IndexEntry>
    var recordCount: nat
    var lastKey: Option<Bytes>
    ghost var written: seq<Record>

    ghost predicate Valid()
      reads this, fs
    {
      && Writable(written)
      && buffer == HEADER + Frames(written)
      && currentOffset == |buffer|
      && sparseIndex == IndexOf(written)
      && recordCount == |written|
      && lastKey == (if written == [] then None else Some(written[|written| - 1].key))
      && Lookup(fs.disk, file) == Some([])
    }

    constructor Create(fs: FileSystem, file: File)
      modifies fs
      ensures Valid() && written == [] && this.fs == fs && this.file == file
      ensures fs.disk == Apply(FileSystems.Create(file), old(fs.disk))
      ensures fs.log == old(fs.log) + [FileSystems.Create(file)]
    {
      this.fs := fs;
      this.file := file;
      buffer := MAGIC + [VERSION];
      currentOffset := HEADER_SIZE;
      sparseIndex := [];
      recordCount := 0;
      lastKey := None;
      written := [];
      new;
      fs.Perform(FileSystems.Create(file));
    }

    method WriteAll(entries: seq<Record>) returns (res: Result<()>)
      requires Valid()
      modifies this
      ensures Valid()
      ensures res.Ok? <==> Writable(old(written) + entries)
      ensures res.Ok? ==> written == old(written) + entries
    {
      hide Valid, Writable;
      ghost var goal := written + entries;
      ValidIsWritable();
      assert written + entries[..0] == written;
      for i := 0 to |entries|
        invariant Valid() && written == old(written) + entries[..i]
        invariant Writable(written)
      {
        assert goal[..|written| + 1] == written + [entries[i]];
        var added := Write(entries[i]);
        if added.Err? {
          if Writable(goal) {
            WritablePrefix(goal, |old(written)| + i + 1);
          }
          return Err(added.error);
        }
        assert entries[..i + 1] == entries[..i] + [entries[i]];
      }
      assert entries[..|entries|] == entries;
      return Ok(());
    }

    lemma ValidIsWritable()
      requires Valid()
      ensures Writable(written)
    {
      hide Writable;
    }

    /** One turn of the loop of `write_all`. */
    method Write(record: Record) returns (res: Result<()>)
      requires Valid()
      modifies this
      ensures Valid()
      ensures Writable(written)
      ensures res.Ok? <==> Writable(old(written) + [record])
      ensures written == if res.Ok? then old(written) + [record] else old(written)
    {
      hide Frame, Frames, Sparse, Less, Writable, IndexBytes;
      WritableAppend(written, record);
      if lastKey.Some? && !Less(lastKey.value, record.key) {
        return Err(Other("segment entries must be strictly increasing"));
      }
      var encoded :- Encode(record);
      if currentOffset + |encoded| > U64_MAX {
        return Err(Other("segment file offset overflow"));
      }
      SparseAppend(written, record, 0, HEADER_SIZE);
      FramesAppend(written, record);
      if recordCount % INTERVAL == 0 {
        sparseIndex := sparseIndex + [IndexEntry(record.key, currentOffset)];
      }
      buffer := buffer + encoded;
      currentOffset := currentOffset + |encoded|;
      recordCount := recordCount + 1;
      lastKey := Some(record.key);
      written := written + [record];
      return Ok(());
    }

    /** A writer that is dropped after an error: what it buffered still reaches the file. */
    method Abandon()
      requires Valid()
      modifies fs
      ensures fs.disk == Apply(AppendTo(file, buffer), old(fs.disk))
      ensures fs.log == old(fs.log) + [AppendTo(file, buffer)]
    {
      fs.Perform(AppendTo(file, buffer));
    }

    /** Writes the index and the footer, and flushes the file. */
    method Finish() returns (res: Result<WriteStats>)
      requires Valid()
      modifies this, fs
      ensures fs.disk == Apply(AppendTo(file, buffer), old(fs.disk))
      ensures fs.log == old(fs.log) + [AppendTo(file, buffer)]
      ensures res.Ok? <==> |SegmentBytes(old(written))| <= U64_MAX
      ensures res.Ok? ==>
                && buffer == SegmentBytes(old(written))
                && res.value == WriteStats(|old(written)|, |SegmentBytes(old(written))|, |IndexOf(old(written))|)
    {
      hide Frame, Frames, Sparse, Writable, Le, IndexBytes;
      var indexOffset := currentOffset;
      ghost var area := buffer;
      IndexBytesOfNone();
      assert sparseIndex[..0] == [];
      for i := 0 to |sparseIndex|
        invariant fs.disk == old(fs.disk) && fs.log == old(fs.log)
        invariant sparseIndex == old(sparseIndex) && written == old(written) && recordCount == old(recordCount)
        invariant buffer == area + IndexBytes(sparseIndex[..i])
        invariant currentOffset == |buffer|
      {
        var entry := sparseIndex[i];
        IndexBytesTake(sparseIndex, i);
        IndexBytesPrefix(sparseIndex, i + 1);
        IndexKeyFits(written, i);
        if |entry.key| > 0xFFFF_FFFF {
          assert false; // the key was accepted as a record key
        }
        buffer := buffer + Le(|entry.key|, U32_SIZE);
        buffer := buffer + entry.key;
        buffer := buffer + Le(entry.offset, U64_SIZE);
        if currentOffset + U32_SIZE + |entry.key| + U64_SIZE > U64_MAX {
          fs.Perform(AppendTo(file, buffer));
          return Err(Other("segment index size overflow"));
        }
        currentOffset := currentOffset + U32_SIZE + |entry.key| + U64_SIZE;
      }
      assert sparseIndex[..|sparseIndex|] == sparseIndex;
      buffer := buffer + Le(indexOffset, U64_SIZE);
      buffer := buffer + MAGIC;
      assert buffer == SegmentBytes(old(written));
      if currentOffset + FOOTER_SIZE > U64_MAX {
        fs.Perform(AppendTo(file, buffer));
        return Err(Other("segment footer size overflow"));
      }
      currentOffset := currentOffset + FOOTER_SIZE;
      fs.Perform(AppendTo(file, buffer));
      var fileBytes := |Lookup(fs.disk, file).value|;
      if fileBytes != currentOffset {
        assert false; // the tracked offset is the length of the file
      }
      return Ok(WriteStats(recordCount, fileBytes, |sparseIndex|));
    }
  }

  lemma FramesAppend(rs: seq<Record>, r: Record)
    ensures Frames(rs + [r]) == Frames(rs) + Frame(r)
  {
    hide Frame;
    FramesConcat(rs, [r]);
    assert Frames([r]) == Frame(r) + Frames([r][1..]);
  }

  lemma WritableAppend(rs: seq<Record>, r: Record)
    requires Writable(rs)
    ensures Writable(rs + [r]) <==>
            && (rs != [] ==> Less(rs[|rs| - 1].key, r.key))
            && Encodable(r)
            && IndexOffset(rs) + |Frame(r)| <= U64_MAX
  {
    hide Frame, Frames, Less, Encodable;
    var all := rs + [r];
    assert r in all;
    FramesAppend(rs, r);
    if rs != [] {
      assert all[|rs| - 1] == rs[|rs| - 1] && all[|rs|] == r;
      if Less(rs[|rs| - 1].key, r.key) {
        SortedAppend(rs, r);
      }
    }
  }

  lemma WritablePrefix(rs: seq<Record>, n: nat)
    requires n <= |rs| && Writable(rs)
    ensures Writable(rs[..n])
  {
    hide Frame, Frames, Less, Encodable;
    FramesPrefix(rs[..n], rs);
  }

  lemma IndexBytesOfNone()
    ensures IndexBytes([]) == []
  {
  }

  lemma IndexBytesTake(ix: seq<IndexEntry>, i: nat)
    requires i < |ix|
    ensures IndexBytes(ix[..i + 1]) ==
            IndexBytes(ix[..i]) + Le(|ix[i].key|, U32_SIZE) + ix[i].key + Le(ix[i].offset, U64_SIZE)
  {
    hide Le;
    assert ix[..i + 1] == ix[..i] + [ix[i]];
    IndexBytesConcat(ix[..i], [ix[i]]);
    assert IndexBytes([ix[i]]) == IndexEntryBytes(ix[i]) + IndexBytes([ix[i]][1..]);
  }

  lemma FramesPrefix(a: seq<Record>, b: seq<Record>)
    requires a <= b
    ensures |Frames(a)| <= |Frames(b)|
  {
    assert b == a + b[|a|..];
    FramesConcat(a, b[|a|..]);
  }

  /** The index entry, if any, of the record that is number `count` and lies at `offset`. */
  function IndexedAt(r: Record, count: nat, offset: nat): seq<IndexEntry> {
    if count % INTERVAL == 0 then [IndexEntry(r.key, offset)] else []
  }

  lemma {:induction false} SparseAppend(rs: seq<Record>, r: Record, count: nat, offset: nat)
    ensures Sparse(rs + [r], count, offset) ==
            Sparse(rs, count, offset) + IndexedAt(r, count + |rs|, offset + |Frames(rs)|)
    decreases |rs|
  {
    hide Frame, IndexedAt, Sparse, Frames;
    if rs == [] {
      SparseOne(r, count, offset);
      assert rs + [r] == [r];
    } else {
      var rest, next := rs[1..], offset + |Frame(rs[0])|;
      var here := IndexedAt(rs[0], count, offset);
      var last := IndexedAt(r, count + |rs|, offset + |Frames(rs)|);
      FramesLength(rs);
      calc {
        Sparse(rs + [r], count, offset);
        { SparseCons(rs + [r], count, offset); assert (rs + [r])[1..] == rest + [r]; }
        here + Sparse(rest + [r], count + 1, next);
        { SparseAppend(rest, r, count + 1, next); }
        here + (Sparse(rest, count + 1, next) + last);
        here + Sparse(rest, count + 1, next) + last;
        { SparseCons(rs, count, offset); }
        Sparse(rs, count, offset) + last;
      }
    }
  }

  lemma SparseCons(rs: seq<Record>, count: nat, offset: nat)
    requires rs != []
    ensures Sparse(rs, count, offset) ==
            IndexedAt(rs[0], count, offset) + Sparse(rs[1..], count + 1, offset + |Frame(rs[0])|)
  {
    hide Frame, IndexedAt;
  }

  lemma SparseOne(r: Record, count: nat, offset: nat)
    ensures Sparse([], count, offset) == [] && Frames([]) == []
    ensures Sparse([r], count, offset) == IndexedAt(r, count, offset)
  {
    hide Frame, IndexedAt;
    SparseCons([r], count, offset);
    assert [r][1..] == [] && IndexedAt(r, count, offset) + [] == IndexedAt(r, count, offset);
  }

  lemma FramesLength(rs: seq<Record>)
    requires rs != []
    ensures |Frames(rs)| == |Frame(rs[0])| + |Frames(rs[1..])|
  {
    hide Frame;
  }

  lemma SortedAppend(rs: seq<Record>, r: Record)
    requires StrictlySorted(rs) && (rs != [] ==> Less(rs[|rs| - 1].key, r.key))
    ensures StrictlySorted(rs + [r])
  {
    hide Less;
    forall i, j | 0 <= i < j < |rs + [r]|
      ensures Less((rs + [r])[i].key, (rs + [r])[j].key)
    {
      if j == |rs| && i < |rs| - 1 {
        LessIsTransitive(rs[i].key, rs[|rs| - 1].key, r.key);
      }
    }
  }

  lemma {:induction false} IndexBytesConcat(a: seq<IndexEntry>, b: seq<IndexEntry>)
    ensures IndexBytes(a + b) == IndexBytes(a) + IndexBytes(b)
    decreases |a|
  {
    hide IndexEntryBytes;
    if a == [] {
      assert a + b == b;
    } else {
      assert (a + b)[1..] == a[1..] + b;
      IndexBytesConcat(a[1..], b);
    }
  }

  lemma IndexBytesPrefix(ix: seq<IndexEntry>, n: nat)
    requires n <= |ix|
    ensures |IndexBytes(ix[..n])| <= |IndexBytes(ix)|
  {
    assert ix == ix[..n] + ix[n..];
    IndexBytesConcat(ix[..n], ix[n..]);
  }

  /** Every index entry is the key of an encodable record, at an offset inside the record area. */
  lemma {:induction false} SparseEntries(rs: seq<Record>, count: nat, offset: nat)
    ensures forall e :: e in Sparse(rs, count, offset) ==>
              && offset <= e.offset < offset + |Frames(rs)|
              && exists r :: r in rs && r.key == e.key
    decreases |rs|
  {
    hide Body, Trailer;
    if rs != [] {
      SparseEntries(rs[1..], count + 1, offset + |Frame(rs[0])|);
      assert forall r :: r in rs[1..] ==> r in rs;
      assert rs[0] in rs;
    }
  }

  lemma IndexKeyFits(rs: seq<Record>, i: nat)
    requires Writable(rs) && i < |IndexOf(rs)|
    ensures |IndexOf(rs)[i].key| <= MAX_FIELD_LEN
  {
    SparseEntries(rs, 0, HEADER_SIZE);
    assert IndexOf(rs)[i] in IndexOf(rs);
  }

  // ---------- which records are indexed ----------

  /** How many records come before the next one that is indexed, when counting starts at `count`. */
  function Until(count: nat): nat {
    if count % 16 == 0 then 0 else 16 - count % 16
  }

  /** One record further on, and how many are indexed among n. */
  lemma UntilNext(count: nat)
    ensures Until(count) < 16 && (Until(count) == 0 <==> count % 16 == 0)
    ensures Until(count + 1) == if count % 16 == 0 then 15 else Until(count) - 1
  {
    var q, r := count / 16, count % 16;
    assert count + 1 == 16 * q + (r + 1);
    assert (count + 1) % 16 == if r == 15 then 0 else r + 1;
  }

  function IndexedAmong(n: nat, first: nat): nat {
    if n <= first then 0 else (n - first + 15) / 16
  }

  lemma IndexedAmongNext(n: nat, first: nat)
    requires n > 0 && first < 16
    ensures first == 0 ==> IndexedAmong(n, 0) == 1 + IndexedAmong(n - 1, 15)
    ensures first > 0 ==> IndexedAmong(n, first) == IndexedAmong(n - 1, first - 1)
  {
  }

  lemma {:induction false} SparseLength(rs: seq<Record>, count: nat, offset: nat)
    ensures |Sparse(rs, count, offset)| == IndexedAmong(|rs|, Until(count))
    decreases |rs|
  {
    hide Frame, Sparse, Until, IndexedAmong;
    UntilNext(count);
    if rs == [] {
      SparseOfNone(count, offset);
      assert IndexedAmong(0, Until(count)) == 0 by { NoneIndexed(Until(count)); }
    } else {
      IndexedAmongNext(|rs|, Until(count));
      SparseCons(rs, count, offset);
      SparseLength(rs[1..], count + 1, offset + |Frame(rs[0])|);
    }
  }

  lemma NoneIndexed(first: nat)
    ensures IndexedAmong(0, first) == 0
    ensures forall n: nat :: IndexedAmong(n, first) > 0 ==> first < n
  {
  }

  lemma {:induction false} SparseEntry(rs: seq<Record>, count: nat, offset: nat, i: nat)
    requires i < |Sparse(rs, count, offset)|
    ensures var n := Until(count) + 16 * i;
            n < |rs| && Sparse(rs, count, offset)[i] == IndexEntry(rs[n].key, offset + |Frames(rs[..n])|)
    decreases |rs|
  {
    hide Frame, Sparse, Frames, Until, IndexedAmong;
    UntilNext(count);
    SparseLength(rs, count, offset);
    NoneIndexed(Until(count));
    var rest, next, n := rs[1..], offset + |Frame(rs[0])|, Until(count) + 16 * i;
    SparseCons(rs, count, offset);
    if n == 0 {
      SparseOfNone(count, offset);
      assert rs[..0] == [];
    } else {
      SparseEntry(rest, count + 1, next, if count % 16 == 0 then i - 1 else i);
      IndexedFrames(rs, n);
    }
  }

  lemma SparseOfNone(count: nat, offset: nat)
    ensures Sparse([], count, offset) == [] && Frames([]) == []
  {
  }

  lemma IndexedFrames(rs: seq<Record>, n: nat)
    requires 0 < n <= |rs|
    ensures |Frames(rs[..n])| == |Frame(rs[0])| + |Frames(rs[1..][..n - 1])|
  {
    hide Frame, Frames;
    assert rs[..n][1..] == rs[1..][..n - 1];
    FramesLength(rs[..n]);
  }

  /** The index: records 0, 16, 32 and so on, each with its key and the offset at which it lies in the file. */
  lemma EverySixteenthIsIndexed(rs: seq<Record>, i: nat)
    ensures |IndexOf(rs)| == (|rs| + 15) / 16
    ensures i < |IndexOf(rs)| ==>
              16 * i < |rs| && IndexOf(rs)[i] == IndexEntry(rs[16 * i].key, 5 + |Frames(rs[..16 * i])|)
  {
    hide Sparse, Frames;
    SparseLength(rs, 0, HEADER_SIZE);
    if i < |IndexOf(rs)| {
      SparseEntry(rs, 0, HEADER_SIZE, i);
    }
  }

  /** An index entry on disk: the length of the key, the key, and the offset. */
  lemma IndexEntryLayout(e: IndexEntry)
    requires |e.key| < 0x1_0000_0000 && e.offset < 0x1_0000_0000_0000_0000
    ensures var b, k := IndexEntryBytes(e), |e.key|;
            && |b| == 12 + k
            && FromLe(b[..4]) == k && b[4..4 + k] == e.key && FromLe(b[4 + k..]) == e.offset
  {
    hide Le, FromLe;
    var b, k := IndexEntryBytes(e), |e.key|;
    Widths();
    FromLeOfLe(k, 4);
    FromLeOfLe(e.offset, 8);
    NextField(b, Le(k, 4), e.key);
    NextField(b, Le(k, 4) + e.key, Le(e.offset, 8));
  }

  /** Keys in strictly increasing order: of any two the earlier has the smaller byte where they first differ. */
  ghost predicate KeysAscend(rs: seq<Record>) {
    forall i, j :: 0 <= i < j < |rs| ==> Before(rs[i].key, rs[j].key)
  }

  lemma AscendIff(rs: seq<Record>)
    ensures StrictlySorted(rs) <==> KeysAscend(rs)
  {
    hide Less, Before;
    forall i, j | 0 <= i < j < |rs|
      ensures Less(rs[i].key, rs[j].key) <==> Before(rs[i].key, rs[j].key)
    {
      LessIffBefore(rs[i].key, rs[j].key);
    }
  }

  /** What the writer accepts, in plain terms: keys that ascend byte by byte, fields of at most 64 MiB, and room. */
  lemma WritableIff(rs: seq<Record>)
    ensures Writable(rs) <==>
            && KeysAscend(rs)
            && (forall r :: r in rs ==> |r.key| <= 67_108_864 && (r.op.Set? ==> |r.val| <= 67_108_864))
            && 5 + |Frames(rs)| < 0x1_0000_0000_0000_0000
  {
    hide StrictlySorted, KeysAscend, Frames;
    AscendIff(rs);
  }
}
