/** The record codec shared by the write-ahead log and the segments (`src/record.rs`). */
module Records {
  import opened Bytes
  import opened Errors
  import Crc32

  const OP_SET: byte := 0
  const OP_DELETE: byte := 1
  const U32_SIZE: nat := 4
  const CRC_SIZE: nat := 4
  const KEY_START: nat := 5
  const MAX_FIELD_LEN: nat := 64 * 1024 * 1024

  datatype Op = Set | Delete

  datatype Record = Record(op: Op, key: Bytes, val: Bytes)

  // ---------- the format ----------

  /** The value field that reaches the disk: a DELETE never carries one. */
  function StoredValue(r: Record): Bytes {
    if r.op.Set? then r.val else []
  }

  /** The record that decoding gives back. */
  function Canonical(r: Record): Record {
    r.(val := StoredValue(r))
  }

  predicate Encodable(r: Record) {
    |r.key| <= MAX_FIELD_LEN && |StoredValue(r)| <= MAX_FIELD_LEN
  }

  function OpByte(op: Op): byte {
    if op.Set? then OP_SET else OP_DELETE
  }

  function Body(r: Record): Bytes {
    [OpByte(r.op)] + Le(|r.key|, U32_SIZE) + r.key + Le(|StoredValue(r)|, U32_SIZE) + StoredValue(r)
  }

  function Frame(r: Record): (f: Bytes)
    ensures |f| == KEY_START + |r.key| + U32_SIZE + |StoredValue(r)| + CRC_SIZE
  {
    Body(r) + Trailer(Body(r))
  }

  // ---------- encode and decode ----------

  method Encode(r: Record) returns (res: Result<Bytes>)
    ensures |r.key| > MAX_FIELD_LEN ==> res == Err(RecordTooLarge(KeyField, |r.key|))
    ensures |r.key| <= MAX_FIELD_LEN && !Encodable(r) ==> res == Err(RecordTooLarge(ValueField, |StoredValue(r)|))
    ensures Encodable(r) ==> res == Ok(Frame(r))
  {
    if |r.key| > MAX_FIELD_LEN {
      return Err(RecordTooLarge(KeyField, |r.key|));
    }
    var value := match r.op { case Set => r.val case Delete => [] };
    if |value| > MAX_FIELD_LEN {
      return Err(RecordTooLarge(ValueField, |value|));
    }
    var bytes: Bytes := [];
    bytes := bytes + [OpByte(r.op)];
    bytes := bytes + Le(|r.key|, U32_SIZE);
    bytes := bytes + r.key;
    bytes := bytes + Le(|value|, U32_SIZE);
    bytes := bytes + value;
    assert bytes == Body(r);
    hide Body, Le;
    var checksum := Crc32.ComputeChecksum(bytes);
    bytes := bytes + Le(checksum, CRC_SIZE);
    return Ok(bytes);
  }

  /** A record whose fields are in bounds, and how many bytes come before its checksum. */
  datatype Parsed = Parsed(record: Record, bodyLen: nat)

  /** Every check of `decode` before the checksum. */
  function Parse(bytes: Bytes): Result<Parsed> {
    if bytes == [] then Err(TruncatedRecord(1, 0))
    else if bytes[0] != OP_SET && bytes[0] != OP_DELETE then Err(CorruptRecord(UnknownOperation(bytes[0] as nat)))
    else if |bytes| < KEY_START then Err(TruncatedRecord(KEY_START, |bytes|))
    else
      var keyLen := FromLe(bytes[1..KEY_START]);
      if keyLen > MAX_FIELD_LEN then Err(CorruptRecord(KeyLengthImplausible(keyLen)))
      else
        var keyEnd := KEY_START + keyLen;
        var valStart := keyEnd + U32_SIZE;
        if |bytes| < valStart then Err(TruncatedRecord(valStart, |bytes|))
        else
          var valLen := FromLe(bytes[keyEnd..valStart]);
          if valLen > MAX_FIELD_LEN then Err(CorruptRecord(ValueLengthImplausible(valLen)))
          else
            var valEnd := valStart + valLen;
            if |bytes| < valEnd + CRC_SIZE then Err(TruncatedRecord(valEnd + CRC_SIZE, |bytes|))
            else if bytes[0] == OP_DELETE && valLen != 0 then Err(CorruptRecord(DeleteWithValue))
            else
              var op := if bytes[0] == OP_SET then Set else Delete;
              Ok(Parsed(Record(op, bytes[KEY_START..keyEnd], bytes[valStart..valEnd]), valEnd))
  }

  /** The record at the front of `bytes` and the number of bytes it takes. */
  function Decode(bytes: Bytes): Result<(Record, nat)> {
    var p :- Parse(bytes);
    ParseBounds(bytes);
    var end := p.bodyLen + CRC_SIZE;
    var expected := FromLe(bytes[p.bodyLen..end]);
    var actual := Crc32.Checksum(bytes[..p.bodyLen]);
    if expected != actual then Err(ChecksumMismatch(expected, actual)) else Ok((p.record, end))
  }

  lemma ParseBounds(bytes: Bytes)
    requires Parse(bytes).Ok?
    ensures Parse(bytes).value.bodyLen + CRC_SIZE <= |bytes|
  {
  }

  // ---------- the two directions ----------

  /** A field that follows `before` at the front of s is found at its offset. */
  lemma NextField(s: Bytes, before: Bytes, field: Bytes)
    requires before + field <= s
    ensures s[..|before|] == before && s[|before|..|before| + |field|] == field
  {
    var u := before + field;
    assert s[..|before|] == u[..|before|];
    assert s[|before|..|u|] == u[|before|..|u|];
  }

  /** Where the fields of a body are. */
  lemma Layout(r: Record)
    requires Encodable(r)
    ensures var s := Body(r);
            var keyEnd := KEY_START + |r.key|;
            var valStart := keyEnd + U32_SIZE;
            && s[0] == OpByte(r.op)
            && FromLe(s[1..KEY_START]) == |r.key|
            && s[KEY_START..keyEnd] == r.key
            && FromLe(s[keyEnd..valStart]) == |StoredValue(r)|
            && s[valStart..] == StoredValue(r)
  {
    var s, v := Body(r), StoredValue(r);
    var keyLen, valLen := Le(|r.key|, U32_SIZE), Le(|v|, U32_SIZE);
    Widths();
    FromLeOfLe(|r.key|, U32_SIZE);
    FromLeOfLe(|v|, U32_SIZE);
    var op := [OpByte(r.op)];
    var u1 := op + keyLen;
    var u2 := u1 + r.key;
    var u3 := u2 + valLen;
    NextField(s, op, keyLen);
    NextField(s, u1, r.key);
    NextField(s, u2, valLen);
    NextField(s, u3, v);
  }

  /** What `Parse` reads of a body is the same when bytes follow it. */
  lemma ParseOfBody(r: Record, after: Bytes)
    requires Encodable(r) && |after| >= CRC_SIZE
    ensures Parse(Body(r) + after) == Ok(Parsed(Canonical(r), |Body(r)|))
  {
    hide Le, FromLe;
    var b, s := Body(r), Body(r) + after;
    var keyEnd := KEY_START + |r.key|;
    var valStart := keyEnd + U32_SIZE;
    Layout(r);
    assert s[1..KEY_START] == b[1..KEY_START];
    assert s[KEY_START..keyEnd] == b[KEY_START..keyEnd];
    assert s[keyEnd..valStart] == b[keyEnd..valStart];
    assert s[valStart..|b|] == b[valStart..];
  }

  lemma BodyOfParse(bytes: Bytes)
    requires Parse(bytes).Ok?
    ensures var Parsed(r, n) := Parse(bytes).value;
            n <= |bytes| && Encodable(r) && Canonical(r) == r && bytes[..n] == Body(r)
  {
    var Parsed(r, n) := Parse(bytes).value;
    var keyEnd := KEY_START + |r.key|;
    var valStart := keyEnd + U32_SIZE;
    LeOfFromLe(bytes[1..KEY_START]);
    LeOfFromLe(bytes[keyEnd..valStart]);
    assert bytes[..1] == [OpByte(r.op)];
    TakeSplits(bytes, 1, KEY_START);
    TakeSplits(bytes, KEY_START, keyEnd);
    TakeSplits(bytes, keyEnd, valStart);
    TakeSplits(bytes, valStart, n);
  }

  lemma TakeSplits(s: Bytes, m: nat, n: nat)
    requires m <= n <= |s|
    ensures s[..n] == s[..m] + s[m..n]
  {
  }

  function Trailer(body: Bytes): (t: Bytes)
    ensures |t| == CRC_SIZE
  {
    Le(Crc32.Checksum(body), CRC_SIZE)
  }

  lemma TrailerReadsBack(body: Bytes)
    ensures FromLe(Trailer(body)) == Crc32.Checksum(body)
  {
    Crc32.ChecksumIsU32(body);
    Widths();
    FromLeOfLe(Crc32.Checksum(body), CRC_SIZE);
  }

  lemma TrailerIsUnique(body: Bytes, t: Bytes)
    requires |t| == CRC_SIZE && FromLe(t) == Crc32.Checksum(body)
    ensures t == Trailer(body)
  {
    LeOfFromLe(t);
  }

  /** A parsed record decodes exactly when the trailer after it is its checksum. */
  lemma DecodeIffTrailer(bytes: Bytes, body: Bytes, t: Bytes, p: Parsed)
    requires Parse(bytes) == Ok(p) && body + t <= bytes && |t| == CRC_SIZE && |body| == p.bodyLen
    ensures t == Trailer(body) ==> Decode(bytes) == Ok((p.record, p.bodyLen + CRC_SIZE))
    ensures t != Trailer(body) ==> Decode(bytes).Err? && Decode(bytes).error.ChecksumMismatch?
  {
    NextField(bytes, body, t);
    ParseBounds(bytes);
    TrailerReadsBack(body);
    if FromLe(t) == Crc32.Checksum(body) {
      TrailerIsUnique(body, t);
    }
  }

  lemma DecodeOfFrame(r: Record, rest: Bytes)
    requires Encodable(r)
    ensures Decode(Frame(r) + rest) == Ok((Canonical(r), |Frame(r)|))
  {
    hide Parse, Decode, Body, Trailer, Canonical;
    ParseOfParts(r, Trailer(Body(r)), rest);
    DecodeIffTrailer(Frame(r) + rest, Body(r), Trailer(Body(r)), Parsed(Canonical(r), |Body(r)|));
  }

  lemma ParseOfParts(r: Record, t: Bytes, rest: Bytes)
    requires Encodable(r) && |t| == CRC_SIZE
    ensures Parse(Body(r) + t + rest) == Ok(Parsed(Canonical(r), |Body(r)|))
    ensures Body(r) + t <= Body(r) + t + rest
  {
    assert Body(r) + t + rest == Body(r) + (t + rest);
    ParseOfBody(r, t + rest);
  }

  /** Decoding succeeds on nothing but encodings: the bytes consumed are the frame of the result. */
  lemma FrameOfDecode(bytes: Bytes)
    requires Decode(bytes).Ok?
    ensures var (r, n) := Decode(bytes).value;
            && 0 < n <= |bytes|
            && Encodable(r)
            && Canonical(r) == r
            && bytes[..n] == Frame(r)
  {
    var p := Parse(bytes).value;
    var m := p.bodyLen;
    ParseBounds(bytes);
    BodyOfParse(bytes);
    TakeSplits(bytes, m, m + CRC_SIZE);
    DecodeIffTrailer(bytes, bytes[..m], bytes[m..m + CRC_SIZE], p);
  }

  /** A torn frame is always recognised as torn, never as corrupt. */
  lemma TornFrameIsTruncated(r: Record, k: nat)
    requires Encodable(r) && k < |Frame(r)|
    ensures Decode(Frame(r)[..k]).Err? && Decode(Frame(r)[..k]).error.TruncatedRecord?
  {
    TornBodyIsTruncated(r, Trailer(Body(r)), k);
  }

  lemma TornBodyIsTruncated(r: Record, trailer: Bytes, k: nat)
    requires Encodable(r) && |trailer| == CRC_SIZE && k < |Body(r)| + CRC_SIZE
    ensures Parse((Body(r) + trailer)[..k]).Err? && Parse((Body(r) + trailer)[..k]).error.TruncatedRecord?
  {
    Layout(r);
    if k >= KEY_START {
      SliceOfTorn(Body(r), trailer, k, 1, KEY_START);
      var keyEnd := KEY_START + |r.key|;
      if k >= keyEnd + U32_SIZE {
        SliceOfTorn(Body(r), trailer, k, keyEnd, keyEnd + U32_SIZE);
      }
    }
  }

  lemma SliceOfTorn(s: Bytes, after: Bytes, k: nat, lo: nat, hi: nat)
    requires lo <= hi <= |s| && hi <= k <= |s + after|
    ensures (s + after)[..k][lo..hi] == s[lo..hi]
  {
    assert forall i :: lo <= i < hi ==> (s + after)[..k][i] == s[i];
  }

  /** No encoding is a proper prefix of another, so a byte string splits into encodings in one way only. */
  lemma FramesArePrefixFree(a: Record, b: Record, restA: Bytes, restB: Bytes)
    requires Encodable(a) && Encodable(b)
    requires Frame(a) + restA == Frame(b) + restB
    ensures Canonical(a) == Canonical(b) && Frame(a) == Frame(b) && restA == restB
  {
    DecodeOfFrame(a, restA);
    DecodeOfFrame(b, restB);
    var s := Frame(a) + restA;
    NextField(s, Frame(a), restA);
    NextField(s, Frame(b), restB);
  }

  // ---------- lists of records ----------

  predicate WellFormed(r: Record) {
    Encodable(r) && Canonical(r) == r
  }

  predicate AllWellFormed(rs: seq<Record>) {
    forall r :: r in rs ==> WellFormed(r)
  }

  function Frames(rs: seq<Record>): Bytes {
    if rs == [] then [] else Frame(rs[0]) + Frames(rs[1..])
  }

  lemma {:induction false} FramesConcat(a: seq<Record>, b: seq<Record>)
    ensures Frames(a + b) == Frames(a) + Frames(b)
    decreases |a|
  {
    hide Frame;
    if a == [] {
      assert a + b == b;
    } else {
      assert (a + b)[1..] == a[1..] + b;
      FramesConcat(a[1..], b);
    }
  }

  // ---------- burst errors ----------

  /** `t` is `s` with the bytes at [at, at + width) changed in at least one place. */
  ghost predicate ChangedWithin(s: Bytes, t: Bytes, at: nat, width: nat) {
    && |s| == |t| && at + width <= |s| && s != t
    && s[..at] == t[..at] && s[at + width..] == t[at + width..]
  }

  /** A change within four consecutive bytes always moves the CRC register. */
  lemma BurstMovesRegister(s: Bytes, t: Bytes, at: nat, width: nat)
    requires ChangedWithin(s, t, at, width) && width <= 4
    ensures Crc32.Register(s) != Crc32.Register(t)
  {
    var head, mid, mid', tail := s[..at], s[at..at + width], t[at..at + width], s[at + width..];
    assert s == head + (mid + tail) && t == head + (mid' + tail);
    Crc32.RegisterBound(head);
    Crc32.RegisterOfConcat(head, mid + tail);
    Crc32.RegisterOfConcat(head, mid' + tail);
    Crc32.FeedDiffers(Crc32.Register(head), mid, mid', tail);
  }

  /** The bytes from `at` on are inside the key, or inside the value and the stored checksum. */
  predicate OutsideLengths(r: Record, at: nat, width: nat) {
    (KEY_START <= at && at + width <= KEY_START + |r.key|) || KEY_START + |r.key| + U32_SIZE <= at
  }

  /**
   * Any damage confined to four consecutive bytes of the key, or to four consecutive bytes of the value
   * and the stored checksum together, is reported as a checksum mismatch, whatever follows the record.
   */
  lemma BurstIsDetected(r: Record, damaged: Bytes, at: nat, width: nat, rest: Bytes)
    requires Encodable(r) && width <= 4
    requires ChangedWithin(Frame(r), damaged, at, width) && OutsideLengths(r, at, width)
    ensures Decode(damaged + rest).Err? && Decode(damaged + rest).error.ChecksumMismatch?
  {
    BurstInParts(r, Body(r), Trailer(Body(r)), damaged, at, width, rest);
  }

  lemma BurstInParts(r: Record, b: Bytes, t: Bytes, damaged: Bytes, at: nat, width: nat, rest: Bytes)
    requires Encodable(r) && width <= 4 && b == Body(r) && t == Trailer(b)
    requires ChangedWithin(b + t, damaged, at, width) && OutsideLengths(r, at, width)
    ensures Decode(damaged + rest).Err? && Decode(damaged + rest).error.ChecksumMismatch?
  {
    hide Trailer, Decode, Body, ChangedWithin;
    var n := |b|;
    assert |damaged| == n + CRC_SIZE by { SameLength(b + t, damaged, at, width); }
    BurstKeepsLengths(r, t, damaged, at, width, rest);
    NextField(b + t, b, t);
    TrailerNoLongerMatches(b + t, damaged, at, width, n);
    TakeSplits(damaged, n, n + CRC_SIZE);
    assert damaged[..n + CRC_SIZE] == damaged;
    assert damaged <= damaged + rest;
    DecodeIffTrailer(damaged + rest, damaged[..n], damaged[n..n + CRC_SIZE], Parse(damaged + rest).value);
  }

  lemma SameLength(s: Bytes, t: Bytes, at: nat, width: nat)
    requires ChangedWithin(s, t, at, width)
    ensures |s| == |t|
  {
  }

  /** A burst outside the operation byte and the two length fields leaves the record the same shape. */
  lemma BurstKeepsLengths(r: Record, trailer: Bytes, damaged: Bytes, at: nat, width: nat, rest: Bytes)
    requires Encodable(r) && |trailer| == CRC_SIZE
    requires ChangedWithin(Body(r) + trailer, damaged, at, width) && OutsideLengths(r, at, width)
    ensures Parse(damaged + rest).Ok? && Parse(damaged + rest).value.bodyLen == |Body(r)|
  {
    hide ChangedWithin, FromLe, Le;
    var f, b, s := Body(r) + trailer, Body(r), damaged + rest;
    var keyEnd := KEY_START + |r.key|;
    Layout(r);
    SameLength(f, damaged, at, width);
    Untouched(f, damaged, at, width, 0, KEY_START);
    Untouched(f, damaged, at, width, keyEnd, keyEnd + U32_SIZE);
    assert s[0..KEY_START] == damaged[0..KEY_START] == f[0..KEY_START] == b[0..KEY_START];
    assert s[0] == s[0..KEY_START][0] == b[0..KEY_START][0] == b[0];
    assert s[1..KEY_START] == s[0..KEY_START][1..] == b[0..KEY_START][1..] == b[1..KEY_START];
    assert s[keyEnd..keyEnd + U32_SIZE] == damaged[keyEnd..keyEnd + U32_SIZE] == f[keyEnd..keyEnd + U32_SIZE]
        == b[keyEnd..keyEnd + U32_SIZE];
  }

  /** If the last four bytes were the checksum of the rest, after a burst they no longer are. */
  lemma TrailerNoLongerMatches(s: Bytes, t: Bytes, at: nat, width: nat, split: nat)
    requires ChangedWithin(s, t, at, width) && width <= 4
    requires split + CRC_SIZE == |s|
    requires s[split..split + CRC_SIZE] == Trailer(s[..split])
    ensures t[split..split + CRC_SIZE] != Trailer(t[..split])
  {
    BurstMovesRegister(s, t, at, width);
    RegisterOfSealed(s, split);
    if t[split..split + CRC_SIZE] == Trailer(t[..split]) {
      RegisterOfSealed(t, split);
      assert false;
    }
  }

  lemma RegisterOfSealed(s: Bytes, split: nat)
    requires split + CRC_SIZE == |s| && s[split..split + CRC_SIZE] == Trailer(s[..split])
    ensures Crc32.Register(s) == Crc32.RESIDUE
  {
    TrailerReadsBack(s[..split]);
    Crc32.ResidueIffChecksum(s[..split], s[split..split + CRC_SIZE]);
    TakeSplits(s, split, split + CRC_SIZE);
    assert s[..split + CRC_SIZE] == s;
  }

  lemma Untouched(s: Bytes, t: Bytes, at: nat, width: nat, lo: nat, hi: nat)
    requires ChangedWithin(s, t, at, width)
    requires lo <= hi <= |s| && (hi <= at || at + width <= lo)
    ensures s[lo..hi] == t[lo..hi]
  {
    forall i | lo <= i < hi
      ensures s[i] == t[i]
    {
      var e := at + width;
      if hi <= at {
        assert s[i] == s[..at][i] && t[i] == t[..at][i];
      } else {
        assert s[i] == s[e..][i - e] && t[i] == t[e..][i - e];
      }
    }
  }
}
