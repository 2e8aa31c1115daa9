/** Byte strings: little-endian integers and the lexicographic order of `Vec<u8>`. */
module Bytes {

  newtype byte = x: int | 0 <= x < 256

  type Bytes = seq<byte>

  const U64_MAX: nat := 0xFFFF_FFFF_FFFF_FFFF

  /** A generation, or an offset that is stored on disk. */
  type u64 = x: nat | x <= U64_MAX

  /** A slice of a slice. */
  lemma SubSlice(s: Bytes, a: nat, b: nat, lo: nat, hi: nat)
    requires a <= b <= |s| && lo <= hi <= b - a
    ensures s[a..b][lo..hi] == s[a + lo..a + hi]
  {
    var t := s[a..b];
    assert forall i :: lo <= i < hi ==> t[lo..hi][i - lo] == t[i] == s[a + i] == s[a + lo..a + hi][i - lo];
  }

  // ---------- little-endian integers ----------

  function Pow256(width: nat): (p: nat)
    ensures p > 0
  {
    if width == 0 then 1 else 256 * Pow256(width - 1)
  }

  /** The `width` low-order bytes of n, least significant first (`to_le_bytes`). */
  function Le(n: nat, width: nat): (s: Bytes)
    ensures |s| == width
  {
    if width == 0 then [] else [(n % 256) as byte] + Le(n / 256, width - 1)
  }

  /** `from_le_bytes`. */
  function FromLe(s: Bytes): nat {
    if s == [] then 0 else s[0] as nat + 256 * FromLe(s[1..])
  }

  lemma {:induction false} FromLeOfLe(n: nat, width: nat)
    requires n < Pow256(width)
    ensures FromLe(Le(n, width)) == n
  {
    if width > 0 {
      FromLeOfLe(n / 256, width - 1);
      assert Le(n, width)[1..] == Le(n / 256, width - 1);
    }
  }

  lemma {:induction false} LeOfFromLe(s: Bytes)
    ensures Le(FromLe(s), |s|) == s
    ensures FromLe(s) < Pow256(|s|)
  {
    if s != [] {
      LeOfFromLe(s[1..]);
      assert FromLe(s) / 256 == FromLe(s[1..]) && FromLe(s) % 256 == s[0] as nat;
    }
  }

  /** Four bytes, written out: the first is the least significant. */
  lemma LittleEndian4(s: Bytes)
    requires |s| == 4
    ensures FromLe(s) == s[0] as nat + 0x100 * s[1] as nat + 0x1_0000 * s[2] as nat + 0x100_0000 * s[3] as nat
  {
    hide FromLe;
    FromLeStep(s);
    FromLeStep(s[1..]);
    FromLeStep(s[2..]);
    FromLeStep(s[3..]);
    FromLeOfNone();
    assert s[1..][1..] == s[2..] && s[2..][1..] == s[3..] && s[3..][1..] == [];
  }

  lemma FromLeStep(s: Bytes)
    requires s != []
    ensures FromLe(s) == s[0] as nat + 0x100 * FromLe(s[1..])
  {
  }

  lemma FromLeOfNone()
    ensures FromLe([]) == 0
  {
  }

  /** Eight bytes: four and, above them, four more. */
  lemma LittleEndian8(s: Bytes)
    requires |s| == 8
    ensures FromLe(s) == FromLe(s[..4]) + 0x1_0000_0000 * FromLe(s[4..])
  {
    hide FromLe;
    LittleEndian4(s[..4]);
    FromLeStep(s);
    FromLeStep(s[1..]);
    FromLeStep(s[2..]);
    FromLeStep(s[3..]);
    assert s[1..][1..] == s[2..] && s[2..][1..] == s[3..] && s[3..][1..] == s[4..];
  }

  lemma Widths()
    ensures Pow256(4) == 0x1_0000_0000
    ensures Pow256(8) == U64_MAX + 1
  {
    assert Pow256(2) == 65536;
    assert Pow256(3) == 256 * Pow256(2);
    assert Pow256(5) == 256 * Pow256(4);
    assert Pow256(6) == 256 * Pow256(5);
    assert Pow256(7) == 256 * Pow256(6);
  }

  // ---------- lexicographic order ----------

  /** `a < b` on byte slices. */
  predicate Less(a: Bytes, b: Bytes) {
    b != [] && (a == [] || a[0] < b[0] || (a[0] == b[0] && Less(a[1..], b[1..])))
  }

  /** Where a first differs from b, or ends: the byte there is smaller. */
  ghost predicate SmallerAt(a: Bytes, b: Bytes, n: nat) {
    n <= |a| && n < |b| && a[..n] == b[..n] && (n == |a| || (a[n] as int) < (b[n] as int))
  }

  ghost predicate Before(a: Bytes, b: Bytes) {
    exists n :: SmallerAt(a, b, n)
  }

  /** The order is that of the first difference, a prefix before what it begins. */
  lemma LessIffBefore(a: Bytes, b: Bytes)
    ensures Less(a, b) <==> Before(a, b)
  {
    hide Less;
    if Less(a, b) {
      var n := LessFindsDifference(a, b);
    }
    if n :| SmallerAt(a, b, n) {
      DifferenceMakesLess(a, b, n);
    }
  }

  lemma {:induction false} LessFindsDifference(a: Bytes, b: Bytes) returns (n: nat)
    requires Less(a, b)
    ensures SmallerAt(a, b, n)
  {
    n := 0;
    if a != [] && a[0] == b[0] {
      var m := LessFindsDifference(a[1..], b[1..]);
      n := m + 1;
      assert a[..n] == [a[0]] + a[1..][..m] && b[..n] == [b[0]] + b[1..][..m];
    }
  }

  lemma {:induction false} DifferenceMakesLess(a: Bytes, b: Bytes, n: nat)
    requires SmallerAt(a, b, n)
    ensures Less(a, b)
    decreases n
  {
    if n > 0 {
      assert a[0] == a[..n][0] == b[..n][0] == b[0];
      assert a[1..][..n - 1] == a[..n][1..] && b[1..][..n - 1] == b[..n][1..];
      DifferenceMakesLess(a[1..], b[1..], n - 1);
    }
  }

  lemma {:induction false} LessIsTotal(a: Bytes, b: Bytes)
    ensures Less(a, b) || a == b || Less(b, a)
  {
    if a != [] && b != [] && a[0] == b[0] {
      LessIsTotal(a[1..], b[1..]);
      assert a == [a[0]] + a[1..] && b == [b[0]] + b[1..];
    }
  }

  lemma {:induction false} LessIsAsymmetric(a: Bytes, b: Bytes)
    ensures !(Less(a, b) && Less(b, a))
    ensures Less(a, b) ==> a != b
  {
    if a != [] && b != [] && a[0] == b[0] {
      LessIsAsymmetric(a[1..], b[1..]);
    }
  }

  lemma {:induction false} LessIsTransitive(a: Bytes, b: Bytes, c: Bytes)
    requires Less(a, b) && Less(b, c)
    ensures Less(a, c)
  {
    if a != [] && a[0] == b[0] && b[0] == c[0] {
      LessIsTransitive(a[1..], b[1..], c[1..]);
    }
  }
}
