/**
 * The table-driven CRC-32 of `src/crc32.rs` and the bit-at-a-time definition it must equal.
 *
 * A `u32` is a natural number below 2^32: `x & 1` is `x % 2`, `x >> k` divides by 2^k, and `^` is `Xor`,
 * which adds binary digits without carry.
 */
module Crc32 {
  import opened Bytes

  const POLY: nat := 0xEDB8_8320
  const ONES: nat := 0xFFFF_FFFF
  const TWO_31: nat := 0x8000_0000
  const TWO_32: nat := 0x1_0000_0000

  // ---------- exclusive or ----------

  function Xor(a: nat, b: nat): (x: nat)
    decreases a, b
  {
    if a == 0 then b
    else if b == 0 then a
    else (if a % 2 == b % 2 then 0 else 1) + 2 * Xor(a / 2, b / 2)
  }

  lemma XorDigits(a: nat, b: nat)
    ensures Xor(a, b) / 2 == Xor(a / 2, b / 2)
    ensures Xor(a, b) % 2 == (a + b) % 2
  {
    if a != 0 && b != 0 {
      var digit := if a % 2 == b % 2 then 0 else 1;
      assert (a + b) % 2 == digit;
      assert Xor(a, b) == digit + 2 * Xor(a / 2, b / 2);
    }
  }

  lemma XorZero(a: nat)
    ensures Xor(a, 0) == a == Xor(0, a)
  {
  }

  lemma {:induction false} XorCommutes(a: nat, b: nat)
    ensures Xor(a, b) == Xor(b, a)
    decreases a
  {
    if a != 0 && b != 0 {
      XorCommutes(a / 2, b / 2);
    }
  }

  lemma {:induction false} XorAssociates(a: nat, b: nat, c: nat)
    ensures Xor(Xor(a, b), c) == Xor(a, Xor(b, c))
    decreases a
  {
    hide Xor;
    var ab, bc := Xor(a, b), Xor(b, c);
    if a == 0 {
      XorZero(b);
      XorZero(bc);
    } else {
      XorDigits(a, b);
      XorDigits(b, c);
      XorDigits(ab, c);
      XorDigits(a, bc);
      XorAssociates(a / 2, b / 2, c / 2);
      LastDigit(a, b, c, ab, bc);
      SameDigits(Xor(ab, c), Xor(a, bc));
    }
  }

  lemma LastDigit(a: nat, b: nat, c: nat, ab: nat, bc: nat)
    requires ab % 2 == (a + b) % 2 && bc % 2 == (b + c) % 2
    ensures (ab + c) % 2 == (a + bc) % 2
  {
  }

  lemma SameDigits(x: nat, y: nat)
    requires x / 2 == y / 2 && x % 2 == y % 2
    ensures x == y
  {
  }

  lemma {:induction false} XorSelf(a: nat)
    ensures Xor(a, a) == 0
    decreases a
  {
    if a != 0 {
      XorSelf(a / 2);
    }
  }

  lemma XorCancels(a: nat, b: nat)
    ensures Xor(Xor(a, b), b) == a
    ensures Xor(b, Xor(b, a)) == a
  {
    hide Pow2;
    XorAssociates(a, b, b);
    XorAssociates(b, b, a);
    XorSelf(b);
  }

  lemma XorInjective(s: nat, a: nat, b: nat)
    requires Xor(s, a) == Xor(s, b)
    ensures a == b
  {
    XorCancels(a, s);
    XorCancels(b, s);
  }

  function Pow2(k: nat): (p: nat)
    ensures p > 0
  {
    if k == 0 then 1 else 2 * Pow2(k - 1)
  }

  /** `x << k`. */
  function Shl(x: nat, k: nat): nat
    decreases k
  {
    if k == 0 then x else 2 * Shl(x, k - 1)
  }

  lemma ShlByte(x: nat)
    ensures Shl(x, BITS_PER_BYTE) == 256 * x
  {
  }

  lemma Powers()
    ensures Pow2(8) == 256 && Pow2(31) == TWO_31 && Pow2(32) == TWO_32
  {
    assert Pow2(8) == 256;
    assert Pow2(16) == 256 * Pow2(8);
    assert Pow2(24) == 256 * Pow2(16);
    assert Pow2(32) == 256 * Pow2(24);
  }

  lemma {:induction false} XorBound(a: nat, b: nat, k: nat)
    requires a < Pow2(k) && b < Pow2(k)
    ensures Xor(a, b) < Pow2(k)
    decreases k
  {
    if a != 0 && b != 0 {
      XorBound(a / 2, b / 2, k - 1);
    }
  }

  /** Bits that do not overlap are added. */
  lemma {:induction false} XorDisjoint(low: nat, high: nat, k: nat)
    requires low < Pow2(k)
    ensures Xor(low, Shl(high, k)) == low + Shl(high, k)
    decreases k
  {
    hide Xor;
    if low == 0 {
      XorZero(Shl(high, k));
    } else {
      XorDigits(low, Shl(high, k));
      XorDisjoint(low / 2, high, k - 1);
    }
  }

  // ---------- the reference: one bit at a time (section 8 of RFC 1952) ----------

  /** Divide by the reflected polynomial for one bit. */
  function BitStep(crc: nat): nat {
    if crc % 2 != 0 then Xor(crc / 2, POLY) else crc / 2
  }

  function BitSteps(crc: nat, n: nat): nat
    decreases n, crc
  {
    if n == 0 then crc else BitSteps(BitStep(crc), n - 1)
  }

  const BITS_PER_BYTE: nat := 8

  function ByteStep(crc: nat, b: byte): nat {
    BitSteps(Xor(crc, b as nat), BITS_PER_BYTE)
  }

  /** The register after the bytes of `data`. */
  function Register(data: Bytes): nat
    decreases |data|
  {
    if data == [] then ONES
    else
      var n := |data| - 1;
      ByteStep(Register(data[..n]), data[n])
  }

  function Checksum(data: Bytes): nat {
    Xor(Register(data), ONES)
  }

  /** The register after `data` when it starts at `crc`. */
  function Feed(crc: nat, data: Bytes): nat
    decreases |data|
  {
    if data == [] then crc else Feed(ByteStep(crc, data[0]), data[1..])
  }

  lemma {:induction false} RegisterIsFeed(data: Bytes, n: nat)
    requires n <= |data|
    ensures Register(data) == Feed(Register(data[..n]), data[n..])
    decreases |data| - n
  {
    hide ByteStep;
    if n == |data| {
      assert data[..n] == data;
    } else {
      RegisterIsFeed(data, n + 1);
      assert data[..n + 1][..n] == data[..n];
      assert data[n..][1..] == data[n + 1..];
    }
  }

  lemma RegisterOfConcat(a: Bytes, b: Bytes)
    ensures Register(a + b) == Feed(Register(a), b)
  {
    RegisterIsFeed(a + b, |a|);
    assert (a + b)[..|a|] == a && (a + b)[|a|..] == b;
  }

  lemma {:induction false} BitStepsBound(crc: nat, n: nat)
    requires crc < TWO_32
    ensures BitSteps(crc, n) < TWO_32
    decreases n
  {
    if n > 0 {
      Powers();
      XorBound(crc / 2, POLY, 32);
      BitStepsBound(BitStep(crc), n - 1);
    }
  }

  lemma {:induction false} FeedBound(crc: nat, data: Bytes)
    requires crc < TWO_32
    ensures Feed(crc, data) < TWO_32
    decreases |data|
  {
    if data != [] {
      Powers();
      XorBound(crc, data[0] as nat, 32);
      BitStepsBound(Xor(crc, data[0] as nat), BITS_PER_BYTE);
      FeedBound(ByteStep(crc, data[0]), data[1..]);
    }
  }

  lemma RegisterBound(data: Bytes)
    ensures Register(data) < TWO_32
  {
    RegisterOfConcat([], data);
    assert [] + data == data;
    FeedBound(ONES, data);
  }

  lemma ChecksumIsU32(data: Bytes)
    ensures Checksum(data) < TWO_32
  {
    RegisterBound(data);
    Powers();
    XorBound(Register(data), ONES, 32);
  }

  // ---------- the implementation: a table of 256 entries ----------

  method BuildTable() returns (table: array<nat>)
    ensures fresh(table) && table.Length == 256
    ensures forall i :: 0 <= i < 256 ==> table[i] == BitSteps(i, BITS_PER_BYTE)
  {
    table := new nat[256];
    var i := 0;
    while i < 256
      invariant 0 <= i <= 256
      invariant forall j :: 0 <= j < i ==> table[j] == BitSteps(j, BITS_PER_BYTE)
    {
      var crc := i;
      var k := 0;
      while k < BITS_PER_BYTE
        invariant 0 <= k <= BITS_PER_BYTE
        invariant BitSteps(crc, BITS_PER_BYTE - k) == BitSteps(i, BITS_PER_BYTE)
      {
        if crc % 2 != 0 {
          crc := Xor(crc / 2, POLY);
        } else {
          crc := crc / 2;
        }
        k := k + 1;
      }
      table[i] := crc;
      i := i + 1;
    }
  }

  method ComputeChecksum(data: Bytes) returns (sum: nat)
    ensures sum == Checksum(data)
  {
    hide ByteStep;
    var table := BuildTable();
    var crc := ONES;
    for n := 0 to |data|
      modifies {}
      invariant crc == Register(data[..n])
    {
      var index := Xor(crc, data[n] as nat) % 256;
      TableStep(crc, data[n]);
      crc := Xor(crc / 256, table[index]);
      assert data[..n + 1][..n] == data[..n];
    }
    assert data[..|data|] == data;
    sum := Xor(crc, ONES);
  }

  /** One table lookup does the work of eight bit steps. */
  lemma TableStep(crc: nat, b: byte)
    ensures Xor(crc / 256, BitSteps(Xor(crc, b as nat) % 256, BITS_PER_BYTE)) == ByteStep(crc, b)
  {
    hide Xor, BitSteps, Shl, Pow2;
    var low, high := crc % 256, crc / 256;
    var x := Xor(low, b as nat);
    Powers();
    ShlByte(high);
    SplitStep(low, high, b as nat, BITS_PER_BYTE);
    DivideBy256(x, high);
  }

  lemma DivideBy256(low: nat, high: nat)
    requires low < 256
    ensures (low + 256 * high) % 256 == low && (low + 256 * high) / 256 == high
  {
  }

  lemma SplitStep(low: nat, high: nat, b: nat, n: nat)
    requires low < Pow2(n) && b < Pow2(n)
    ensures Xor(low, b) < Pow2(n)
    ensures Xor(low + Shl(high, n), b) == Xor(low, b) + Shl(high, n)
    ensures Xor(high, BitSteps(Xor(low, b), n)) == BitSteps(Xor(low + Shl(high, n), b), n)
  {
    hide Xor, BitSteps, Shl, Pow2;
    XorHighPart(low, high, b, n);
    XorDisjoint(Xor(low, b), high, n);
    StepsOfSum(Xor(low, b), high, n);
    XorCommutes(BitSteps(Xor(low, b), n), high);
  }

  // ---------- why it works: steps are linear, and injective on 32 bits ----------

  lemma BitStepLinear(a: nat, b: nat)
    ensures BitStep(Xor(a, b)) == Xor(BitStep(a), BitStep(b))
  {
    hide Xor;
    var p, q := a / 2, b / 2;
    XorDigits(a, b);
    XorAssociates(p, q, POLY);
    XorAssociates(p, POLY, q);
    XorCommutes(q, POLY);
    XorAssociates(Xor(p, POLY), q, POLY);
    XorCommutes(Xor(p, q), POLY);
    XorCancels(Xor(p, q), POLY);
  }

  lemma {:induction false} BitStepsLinear(a: nat, b: nat, n: nat)
    ensures BitSteps(Xor(a, b), n) == Xor(BitSteps(a, n), BitSteps(b, n))
    decreases n
  {
    hide Xor, BitStep;
    if n > 0 {
      BitStepLinear(a, b);
      BitStepsLinear(BitStep(a), BitStep(b), n - 1);
    }
  }

  lemma {:induction false} BitStepsCompose(a: nat, m: nat, n: nat)
    ensures BitSteps(BitSteps(a, m), n) == BitSteps(a, m + n)
    decreases m
  {
    if m > 0 {
      BitStepsCompose(BitStep(a), m - 1, n);
    }
  }

  lemma {:induction false} ShiftOut(x: nat, n: nat)
    ensures BitSteps(Shl(x, n), n) == x
    decreases n
  {
    hide BitStep;
    if n > 0 {
      BitStepOfEven(Shl(x, n - 1));
      ShiftOut(x, n - 1);
    }
  }

  lemma BitStepOfEven(half: nat)
    ensures BitStep(2 * half) == half
  {
    hide Xor;
  }

  /** Adding a small number without carry leaves the high part alone. */
  lemma XorHighPart(low: nat, high: nat, b: nat, n: nat)
    requires low < Pow2(n) && b < Pow2(n)
    ensures Xor(low + Shl(high, n), b) == Xor(low, b) + Shl(high, n)
    ensures Xor(low, b) < Pow2(n)
  {
    hide Xor, Shl, Pow2;
    var top := Shl(high, n);
    calc {
      Xor(low + top, b);
      { XorDisjoint(low, high, n); }
      Xor(Xor(low, top), b);
      { XorAssociates(low, top, b); }
      Xor(low, Xor(top, b));
      { XorCommutes(top, b); }
      Xor(low, Xor(b, top));
      { XorAssociates(low, b, top); }
      Xor(Xor(low, b), top);
      { XorBound(low, b, n); XorDisjoint(Xor(low, b), high, n); }
      Xor(low, b) + top;
    }
    XorBound(low, b, n);
  }

  lemma BitStepInjective(a: nat, b: nat)
    requires a < TWO_32 && b < TWO_32 && BitStep(a) == BitStep(b)
    ensures a == b
  {
    hide Xor;
    TopBit(a / 2);
    TopBit(b / 2);
    if a % 2 != 0 && b % 2 != 0 {
      XorCancels(a / 2, POLY);
      XorCancels(b / 2, POLY);
    }
  }

  /** The polynomial has bit 31 set, so an odd step is told apart from an even one. */
  lemma TopBit(half: nat)
    requires half < TWO_31
    ensures Xor(half, POLY) >= TWO_31
  {
    if Xor(half, POLY) < TWO_31 {
      Powers();
      XorBound(half, Xor(half, POLY), 31);
      XorCancels(POLY, half);
      assert false;
    }
  }

  lemma {:induction false} BitStepsInjective(a: nat, b: nat, n: nat)
    requires a < TWO_32 && b < TWO_32 && BitSteps(a, n) == BitSteps(b, n)
    ensures a == b
    decreases n
  {
    if n > 0 {
      BitStepsBound(a, 1);
      BitStepsBound(b, 1);
      BitStepsInjective(BitStep(a), BitStep(b), n - 1);
      BitStepInjective(a, b);
    }
  }

  /**
   * The checksum is a long division: feeding bytes one at a time leaves the register that dividing
   * the message, read as one little-endian number and added to the start value, leaves bit by bit.
   */
  lemma {:induction false} FeedIsLongDivision(crc: nat, data: Bytes)
    ensures Feed(crc, data) == BitSteps(Xor(crc, FromLe(data)), BITS_PER_BYTE * |data|)
    decreases |data|
  {
    hide Xor, Shl;
    if data == [] {
      XorZero(crc);
    } else {
      var b, rest := data[0] as nat, data[1..];
      Powers();
      FeedIsLongDivision(ByteStep(crc, data[0]), rest);
      ShlByte(FromLe(rest));
      DivideOneByte(crc, b, FromLe(rest), BITS_PER_BYTE);
      BitStepsCompose(Xor(crc, FromLe(data)), BITS_PER_BYTE, BITS_PER_BYTE * |rest|);
    }
  }

  lemma DivideOneByte(crc: nat, b: nat, rest: nat, n: nat)
    requires b < Pow2(n)
    ensures Xor(BitSteps(Xor(crc, b), n), rest) == BitSteps(Xor(crc, b + Shl(rest, n)), n)
  {
    hide Xor, BitSteps, Shl, Pow2;
    StepsOfSum(Xor(crc, b), rest, n);
    XorAssociates(crc, b, Shl(rest, n));
    XorDisjoint(b, rest, n);
  }

  /** Whatever is added n bits up is still there, at the bottom, n steps later. */
  lemma StepsOfSum(x: nat, high: nat, n: nat)
    ensures BitSteps(Xor(x, Shl(high, n)), n) == Xor(BitSteps(x, n), high)
  {
    hide Xor, BitSteps, Shl;
    BitStepsLinear(x, Shl(high, n), n);
    ShiftOut(high, n);
  }

  lemma {:induction false} FeedConcat(crc: nat, a: Bytes, b: Bytes)
    ensures Feed(crc, a + b) == Feed(Feed(crc, a), b)
    decreases |a|
  {
    if a == [] {
      assert a + b == b;
    } else {
      assert (a + b)[1..] == a[1..] + b;
      FeedConcat(ByteStep(crc, a[0]), a[1..], b);
    }
  }

  lemma {:induction false} FeedInjectiveInStart(s: nat, t: nat, data: Bytes)
    requires s < TWO_32 && t < TWO_32 && Feed(s, data) == Feed(t, data)
    ensures s == t
    decreases |data|
  {
    hide Xor, BitSteps, Pow2;
    if data != [] {
      var b := data[0] as nat;
      Powers();
      XorBound(s, b, 32);
      XorBound(t, b, 32);
      BitStepsBound(Xor(s, b), BITS_PER_BYTE);
      BitStepsBound(Xor(t, b), BITS_PER_BYTE);
      FeedInjectiveInStart(ByteStep(s, data[0]), ByteStep(t, data[0]), data[1..]);
      BitStepsInjective(Xor(s, b), Xor(t, b), BITS_PER_BYTE);
      XorCommutes(s, b);
      XorCommutes(t, b);
      XorInjective(b, s, t);
    }
  }

  /** At most four consecutive bytes cannot change without changing the register. */
  lemma FeedInjectiveInWindow(crc: nat, w: Bytes, w': Bytes)
    requires crc < TWO_32 && |w| == |w'| <= 4
    requires Feed(crc, w) == Feed(crc, w')
    ensures w == w'
  {
    FeedIsLongDivision(crc, w);
    FeedIsLongDivision(crc, w');
    WindowBound(w);
    WindowBound(w');
    Powers();
    XorBound(crc, FromLe(w), 32);
    XorBound(crc, FromLe(w'), 32);
    BitStepsInjective(Xor(crc, FromLe(w)), Xor(crc, FromLe(w')), BITS_PER_BYTE * |w|);
    XorInjective(crc, FromLe(w), FromLe(w'));
    LeOfFromLe(w);
    LeOfFromLe(w');
  }

  /** A changed window keeps the registers apart, whatever follows it. */
  lemma FeedDiffers(reg: nat, w: Bytes, w': Bytes, tail: Bytes)
    requires reg < TWO_32 && |w| == |w'| <= 4 && w != w'
    ensures Feed(reg, w + tail) != Feed(reg, w' + tail)
  {
    hide Feed;
    FeedConcat(reg, w, tail);
    FeedConcat(reg, w', tail);
    FeedBound(reg, w);
    FeedBound(reg, w');
    if Feed(reg, w + tail) == Feed(reg, w' + tail) {
      FeedInjectiveInStart(Feed(reg, w), Feed(reg, w'), tail);
      FeedInjectiveInWindow(reg, w, w');
      assert false;
    }
  }

  lemma WindowBound(w: Bytes)
    requires |w| <= 4
    ensures FromLe(w) < TWO_32
  {
    LeOfFromLe(w);
    assert Pow256(0) == 1 && Pow256(1) == 256 && Pow256(2) == 65536 && Pow256(3) == 0x100_0000 && Pow256(4) == TWO_32;
  }

  /** The register a message leaves once its own checksum has been fed after it. */
  const RESIDUE: nat := BitSteps(ONES, 4 * BITS_PER_BYTE)

  /** A four-byte trailer is the checksum of the message before it exactly when the register ends at RESIDUE. */
  lemma ResidueIffChecksum(data: Bytes, trailer: Bytes)
    requires |trailer| == 4
    ensures Register(data + trailer) == RESIDUE <==> FromLe(trailer) == Checksum(data)
  {
    var s := Register(data);
    RegisterOfConcat(data, trailer);
    RegisterBound(data);
    ResidueIff(s, trailer);
  }

  lemma ResidueIff(s: nat, trailer: Bytes)
    requires |trailer| == 4 && s < TWO_32
    ensures Feed(s, trailer) == RESIDUE <==> FromLe(trailer) == Xor(s, ONES)
  {
    hide Xor, Feed;
    var t := FromLe(trailer);
    FeedIsLongDivision(s, trailer);
    WindowBound(trailer);
    Powers();
    XorBound(s, t, 32);
    XorCancels(ONES, s);
    if Feed(s, trailer) == RESIDUE {
      BitStepsInjective(Xor(s, t), ONES, 4 * BITS_PER_BYTE);
      XorCancels(t, s);
    }
  }

  // ---------- check values ----------

  lemma {:induction false} StepsOfZero(n: nat)
    ensures BitSteps(0, n) == 0
  {
    if n > 0 {
      StepsOfZero(n - 1);
    }
  }

  /** Adding all ones without carry takes the complement. */
  lemma {:induction false} XorAllOnes(x: nat, k: nat)
    requires x < Pow2(k)
    ensures Xor(x, Pow2(k) - 1) == Pow2(k) - 1 - x
    decreases k
  {
    hide Xor;
    if k == 0 {
      XorZero(0);
    } else {
      XorDigits(x, Pow2(k) - 1);
      assert (Pow2(k) - 1) / 2 == Pow2(k - 1) - 1;
      XorAllOnes(x / 2, k - 1);
    }
  }

  /** A single bit at the top of a byte comes out as the polynomial. */
  lemma TopBitOfByte()
    ensures BitSteps(0x80, 8) == 0xEDB8_8320
  {
    hide Xor, BitSteps;
    XorZero(POLY);
    BitStepsStep(0x80, 8);
    BitStepsStep(0x40, 7);
    BitStepsStep(0x20, 6);
    BitStepsStep(0x10, 5);
    BitStepsStep(8, 4);
    BitStepsStep(4, 3);
    BitStepsStep(2, 2);
    BitStepsStep(1, 1);
    BitStepsStep(POLY, 0);
  }

  lemma BitStepsStep(crc: nat, n: nat)
    ensures BitSteps(crc, n) == if n == 0 then crc else BitSteps(BitStep(crc), n - 1)
  {
    hide BitStep;
  }

  lemma FourOnes()
    ensures FromLe([255, 255, 255, 255]) == 0xFFFF_FFFF
  {
    LittleEndian4([255, 255, 255, 255]);
  }

  /** Three check values of CRC-32, which fix its polynomial, its start, its end and the order of its bits. */
  lemma CheckValues()
    ensures Checksum([]) == 0
    ensures Checksum([255, 255, 255, 255]) == 0xFFFF_FFFF
    ensures Checksum([255, 255, 255, 255, 128]) == 0x1247_7CDF
  {
    hide Xor, BitSteps, Register, Feed;
    var ones: Bytes := [255, 255, 255, 255];
    Powers();
    RegisterOfNone();
    XorSelf(ONES);
    // four bytes of ones clear the register
    FourOnes();
    FeedIsLongDivision(ONES, ones);
    StepsOfZero(32);
    RegisterOfConcat([], ones);
    assert [] + ones == ones;
    XorZero(ONES);
    assert Register(ones) == 0;
    // and one bit more leaves the polynomial
    RegisterOfConcat(ones, [128]);
    assert ones + [128] == [255, 255, 255, 255, 128];
    FeedOne(0, 128);
    XorZero(128);
    TopBitOfByte();
    XorAllOnes(POLY, 32);
  }

  lemma RegisterOfNone()
    ensures Register([]) == 0xFFFF_FFFF
  {
  }

  lemma FeedOne(crc: nat, b: byte)
    ensures Feed(crc, [b]) == BitSteps(Xor(crc, b as nat), 8)
  {
    hide Xor, BitSteps;
    assert [b][1..] == [];
  }
}
