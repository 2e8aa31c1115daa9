/** What `decode` makes of arbitrary bytes (`src/record.rs`), told from the bytes alone: complete, torn or corrupt. */
module Decoding {
  import opened Bytes
  import opened Errors
  import opened Records
  import Crc32

  // ---------- complete ----------

  /** A complete record at the front: some encoding is a prefix. */
  ghost predicate Complete(b: Bytes) {
    exists r :: Encodable(r) && Frame(r) <= b
  }

  /** Decoding succeeds exactly when there is a complete record at the front. */
  lemma DecodesIffComplete(b: Bytes)
    ensures Decode(b).Ok? <==> Complete(b)
  {
    hide Decode, Frame, Encodable;
    if Decode(b).Ok? {
      FrameOfDecode(b);
      var (r, n) := Decode(b).value;
      assert Encodable(r) && Frame(r) <= b;
    }
    if Complete(b) {
      var r :| Encodable(r) && Frame(r) <= b;
      DecodeOfFrame(r, b[|Frame(r)|..]);
      assert Frame(r) + b[|Frame(r)|..] == b;
    }
  }

  // ---------- torn ----------

  /** The shape of a record: an operation byte, a key and a value behind their lengths, four bytes of checksum. */
  function Shape(op: byte, key: Bytes, val: Bytes, crc: Bytes): Bytes {
    [op] + Le(|key|, 4) + key + Le(|val|, 4) + val + crc
  }

  /** The fields are ones that `encode` may have written, apart from the value of a delete and the checksum. */
  ghost predicate Plausible(op: byte, key: Bytes, val: Bytes, crc: Bytes) {
    op <= 1 && |key| <= 67_108_864 && |val| <= 67_108_864 && |crc| == 4
  }

  ghost predicate TornFrom(b: Bytes, op: byte, key: Bytes, val: Bytes, crc: Bytes) {
    Plausible(op, key, val, crc) && b <= Shape(op, key, val, crc) && |b| < |Shape(op, key, val, crc)|
  }

  /** Bytes that a longer record may start with: no byte that is there rules it out. */
  ghost predicate TornRecord(b: Bytes) {
    exists op, key, val, crc :: TornFrom(b, op, key, val, crc)
  }

  /** The key length that the first five bytes declare, and the value length behind the key. */
  function KeyLen(b: Bytes): nat
    requires |b| >= 5
  {
    FromLe(b[1..5])
  }

  function ValLen(b: Bytes): nat
    requires |b| >= 5 && |b| >= 9 + KeyLen(b)
  {
    FromLe(b[5 + KeyLen(b)..9 + KeyLen(b)])
  }

  /** What is missing: the bytes end before the length that they themselves declare. */
  predicate Short(b: Bytes) {
    || b == []
    || (b[0] <= 1
        && (|b| < 5
            || (KeyLen(b) <= 67_108_864
                && (|b| < 9 + KeyLen(b)
                    || (ValLen(b) <= 67_108_864 && |b| < 13 + KeyLen(b) + ValLen(b))))))
  }

  lemma TruncatedIffShort(b: Bytes)
    ensures Decode(b).Err? && Decode(b).error.TruncatedRecord? <==> Short(b)
  {
    hide FromLe;
  }

  lemma ShapeFields(op: byte, key: Bytes, val: Bytes, crc: Bytes)
    requires Plausible(op, key, val, crc)
    ensures var s, k, v := Shape(op, key, val, crc), |key|, |val|;
            && |s| == 13 + k + v && s[0] == op
            && FromLe(s[1..5]) == k && FromLe(s[5 + k..9 + k]) == v
  {
    hide Le, FromLe;
    var s, k, v := Shape(op, key, val, crc), |key|, |val|;
    Widths();
    FromLeOfLe(k, 4);
    FromLeOfLe(v, 4);
    NextField(s, [op], Le(k, 4));
    NextField(s, [op] + Le(k, 4) + key, Le(v, 4));
  }

  lemma PrefixSlice(b: Bytes, s: Bytes, lo: nat, hi: nat)
    requires b <= s && lo <= hi <= |b|
    ensures b[lo..hi] == s[lo..hi]
  {
  }

  lemma TornIsShort(b: Bytes, op: byte, key: Bytes, val: Bytes, crc: Bytes)
    requires TornFrom(b, op, key, val, crc)
    ensures Short(b)
  {
    hide FromLe, Shape;
    var s, k := Shape(op, key, val, crc), |key|;
    ShapeFields(op, key, val, crc);
    if |b| >= 5 {
      PrefixSlice(b, s, 1, 5);
      if |b| >= 9 + k {
        PrefixSlice(b, s, 5 + k, 9 + k);
      }
    }
  }

  function Zeros(n: nat): (z: Bytes)
    ensures |z| == n && forall i :: 0 <= i < n ==> z[i] == 0
  {
    seq(n, _ => 0)
  }

  /** A number whose highest byte of four is zero stays far below the bound on lengths. */
  lemma HighByteZero(s: Bytes)
    requires |s| == 4 && s[3] == 0
    ensures FromLe(s) <= 67_108_864
  {
    LittleEndian4(s);
  }

  /** Filled up with zeros, bytes that are short become a longer record. */
  lemma ShortIsTorn(b: Bytes)
    requires Short(b)
    ensures TornRecord(b)
  {
    hide FromLe, Shape;
    var p := b + Zeros(200_000_000);
    var k := FromLe(p[1..5]);
    if |b| < 5 {
      HighByteZero(p[1..5]);
    } else {
      assert p[1..5] == b[1..5];
    }
    var v := FromLe(p[5 + k..9 + k]);
    if |b| < 9 + k {
      HighByteZero(p[5 + k..9 + k]);
    } else {
      assert p[5 + k..9 + k] == b[5 + k..9 + k];
    }
    var key, val, crc := p[5..5 + k], p[9 + k..9 + k + v], p[9 + k + v..13 + k + v];
    ShapeOfParts(p, k, v);
    assert b <= p && p[..13 + k + v] == Shape(p[0], key, val, crc);
    assert TornFrom(b, p[0], key, val, crc);
  }

  lemma ShapeOfParts(p: Bytes, k: nat, v: nat)
    requires |p| >= 13 + k + v
    requires FromLe(p[1..5]) == k && FromLe(p[5 + k..9 + k]) == v
    ensures p[..13 + k + v]
         == Shape(p[0], p[5..5 + k], p[9 + k..9 + k + v], p[9 + k + v..13 + k + v])
  {
    hide Le, FromLe;
    LeOfFromLe(p[1..5]);
    LeOfFromLe(p[5 + k..9 + k]);
    TakeSplits(p, 1, 5);
    TakeSplits(p, 5, 5 + k);
    TakeSplits(p, 5 + k, 9 + k);
    TakeSplits(p, 9 + k, 9 + k + v);
    TakeSplits(p, 9 + k + v, 13 + k + v);
    assert p[..1] == [p[0]];
  }

  /** Decoding says truncated exactly when a longer record may start with these bytes. */
  lemma TruncatedIffTorn(b: Bytes)
    ensures Decode(b).Err? && Decode(b).error.TruncatedRecord? <==> TornRecord(b)
  {
    hide Decode, Short;
    TruncatedIffShort(b);
    if Short(b) {
      ShortIsTorn(b);
    }
    if TornRecord(b) {
      var op, key, val, crc :| TornFrom(b, op, key, val, crc);
      TornIsShort(b, op, key, val, crc);
    }
  }

  /** So bytes are refused, rather than taken for a crash tail, exactly when they are neither. */
  ghost predicate Bad(b: Bytes) {
    !Complete(b) && !TornRecord(b)
  }

  lemma RefusedIffBad(b: Bytes)
    ensures Decode(b).Err? && !Decode(b).error.TruncatedRecord? <==> Bad(b)
  {
    hide Decode, Complete, TornRecord;
    DecodesIffComplete(b);
    TruncatedIffTorn(b);
  }

  // ---------- corrupt ----------

  /** Why bytes are corrupt before any checksum is looked at: in this order. */
  lemma CorruptIff(b: Bytes)
    ensures Decode(b).Err? && Decode(b).error.CorruptRecord? <==>
            b != [] &&
            (b[0] > 1
             || (|b| >= 5 && (KeyLen(b) > 67_108_864
                 || (|b| >= 9 + KeyLen(b) && (ValLen(b) > 67_108_864
                     || (|b| >= 13 + KeyLen(b) + ValLen(b) && b[0] == 1 && ValLen(b) != 0))))))
    ensures Decode(b).Err? && Decode(b).error.CorruptRecord? ==>
              Decode(b).error.reason ==
              if b[0] > 1 then UnknownOperation(b[0] as nat)
              else if KeyLen(b) > 67_108_864 then KeyLengthImplausible(KeyLen(b))
              else if ValLen(b) > 67_108_864 then ValueLengthImplausible(ValLen(b))
              else DeleteWithValue
  {
    hide FromLe;
  }

  /** An implausible length is corruption, whatever follows or does not follow. */
  lemma ImplausibleLengthIsBad(b: Bytes)
    requires |b| >= 5 && b[0] <= 1
    requires KeyLen(b) > 67_108_864 || (|b| >= 9 + KeyLen(b) && ValLen(b) > 67_108_864)
    ensures Bad(b) && b != []
    ensures Decode(b).Err? && Decode(b).error.CorruptRecord?
  {
    hide Decode, Bad;
    CorruptIff(b);
    RefusedIffBad(b);
  }

  /** With everything in place, the checksum over all that precedes it decides. */
  lemma ChecksumDecides(b: Bytes)
    requires |b| >= 5 && b[0] <= 1 && KeyLen(b) <= 67_108_864
    requires |b| >= 9 + KeyLen(b) && ValLen(b) <= 67_108_864 && (b[0] == 1 ==> ValLen(b) == 0)
    requires |b| >= 13 + KeyLen(b) + ValLen(b)
    ensures var k, v := KeyLen(b), ValLen(b);
            var stored, actual := FromLe(b[9 + k + v..13 + k + v]), Crc32.Checksum(b[..9 + k + v]);
            Decode(b) ==
            if stored != actual then Err(ChecksumMismatch(stored, actual))
            else Ok((Record(if b[0] == 0 then Set else Delete, b[5..5 + k], b[9 + k..9 + k + v]), 13 + k + v))
  {
    hide FromLe, Crc32.Checksum;
  }

  /** How much is needed is told in the error. */
  lemma TruncationTellsWhatIsNeeded(b: Bytes)
    requires Short(b)
    ensures var e := Decode(b).error;
            e == TruncatedRecord(if b == [] then 1 else if |b| < 5 then 5
                                 else if |b| < 9 + KeyLen(b) then 9 + KeyLen(b)
                                 else 13 + KeyLen(b) + ValLen(b), |b|)
  {
    hide FromLe;
    TruncatedIffShort(b);
  }

  /** An encoding, field by field; the checksum is that of all before it. */
  lemma FrameIsShape(r: Record)
    requires Encodable(r)
    ensures var op: byte := if r.op.Set? then 0 else 1;
            var val := if r.op.Set? then r.val else [];
            var crc := Le(Crc32.Checksum(Shape(op, r.key, val, [])), 4);
            Frame(r) == Shape(op, r.key, val, crc) && Plausible(op, r.key, val, crc)
  {
    hide Le, Crc32.Checksum;
    assert Body(r) + [] == Body(r);
  }
}
