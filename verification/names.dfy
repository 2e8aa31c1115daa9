/** Decimal numbers and the file names of the store (`src/store.rs`). */
module Names {
  import opened Bytes
  import opened Errors
  import opened FileSystems

  const PREFIX := "segment_"
  const SEGMENT_SUFFIX := ".seg"
  const TEMP_SUFFIX := ".seg.tmp"
  const MARKER_NAME := "compaction.pending"
  const TEMP_MARKER_NAME := "compaction.pending.tmp"

  // ---------- decimal ----------

  predicate IsDigit(c: char) {
    '0' <= c <= '9'
  }

  predicate AllDigits(s: string) {
    forall c :: c in s ==> IsDigit(c)
  }

  function Digit(d: nat): (c: char)
    requires d < 10
    ensures IsDigit(c)
  {
    '0' + d as char
  }

  function DigitValue(c: char): nat {
    if IsDigit(c) then c as nat - '0' as nat else 0
  }

  /** `format!("{}", n)`. */
  function Decimal(n: nat): (s: string)
    ensures s != [] && AllDigits(s)
  {
    if n < 10 then [Digit(n)] else Decimal(n / 10) + [Digit(n % 10)]
  }

  function Value(s: string): nat {
    if s == [] then 0 else 10 * Value(s[..|s| - 1]) + DigitValue(s[|s| - 1])
  }

  /** `str::parse::<u64>`: an optional plus sign, then digits that fit. */
  function ParseU64(s: string): Option<u64> {
    var digits := if s != [] && s[0] == '+' then s[1..] else s;
    if digits == [] || !AllDigits(digits) || Value(digits) > U64_MAX then None else Some(Value(digits))
  }

  lemma {:induction false} ValueOfDecimal(n: nat)
    ensures Value(Decimal(n)) == n
  {
    var s := Decimal(n);
    if n < 10 {
      assert s[..0] == [];
      assert Value(s) == DigitValue(s[0]);
    } else {
      ValueOfDecimal(n / 10);
      assert s[..|s| - 1] == Decimal(n / 10);
    }
  }

  lemma ParseDecimal(n: u64)
    ensures ParseU64(Decimal(n)) == Some(n)
  {
    ValueOfDecimal(n);
    assert Decimal(n)[0] in Decimal(n);
  }

  /** `format!("{:020}", n)`. */
  function Padded(n: nat, width: nat): (s: string)
    ensures AllDigits(s)
    decreases width
  {
    if |Decimal(n)| >= width then Decimal(n) else Zeros(width - |Decimal(n)|) + Decimal(n)
  }

  function Zeros(k: nat): (s: string)
    ensures |s| == k && AllDigits(s)
  {
    if k == 0 then [] else ['0'] + Zeros(k - 1)
  }

  lemma {:induction false} ValueAfterZeros(k: nat, s: string)
    ensures Value(Zeros(k) + s) == Value(s)
    decreases |s|, k
  {
    if s == [] {
      assert Zeros(k) + s == Zeros(k);
      ValueOfZeros(k);
    } else {
      var t := Zeros(k) + s;
      assert t[..|t| - 1] == Zeros(k) + s[..|s| - 1];
      ValueAfterZeros(k, s[..|s| - 1]);
    }
  }

  lemma {:induction false} ValueOfZeros(k: nat)
    ensures Value(Zeros(k)) == 0
  {
    if k > 0 {
      ZerosEnd(k);
      ValueOfZeros(k - 1);
    }
  }

  lemma {:induction false} ZerosEnd(k: nat)
    requires k > 0
    ensures Zeros(k)[..k - 1] == Zeros(k - 1) && Zeros(k)[k - 1] == '0'
  {
    if k > 1 {
      ZerosEnd(k - 1);
      assert Zeros(k)[..k - 1] == ['0'] + Zeros(k - 1)[..k - 2];
    }
  }

  lemma ParsePadded(n: u64, width: nat)
    ensures ParseU64(Padded(n, width)) == Some(n)
    ensures Padded(n, width) != []
  {
    var s := Padded(n, width);
    ValueOfDecimal(n);
    if |Decimal(n)| < width {
      ValueAfterZeros(width - |Decimal(n)|, Decimal(n));
    }
    assert s[0] in s;
  }

  // ---------- file names ----------

  function SegmentFilename(gen: u64): string {
    PREFIX + Padded(gen, 20) + SEGMENT_SUFFIX
  }

  function SegmentTempFilename(gen: u64): string {
    PREFIX + Padded(gen, 20) + TEMP_SUFFIX
  }

  function FileName(f: File): string {
    match f
    case Segment(g) => SegmentFilename(g)
    case TempSegment(g) => SegmentTempFilename(g)
    case Marker => MARKER_NAME
    case TempMarker => TEMP_MARKER_NAME
  }

  predicate StartsWith(s: string, prefix: string) {
    prefix <= s
  }

  predicate EndsWith(s: string, suffix: string) {
    |suffix| <= |s| && s[|s| - |suffix|..] == suffix
  }

  /** `parse_generation_with_suffix`. */
  function ParseGenerationWithSuffix(name: string, suffix: string): Option<u64> {
    if !StartsWith(name, PREFIX) then None
    else
      var rest := name[|PREFIX|..];
      if !EndsWith(rest, suffix) then None
      else
        var generation := rest[..|rest| - |suffix|];
        if generation == [] || !AllDigits(generation) then None else ParseU64(generation)
  }

  function ParseSegmentGeneration(name: string): Option<u64> {
    ParseGenerationWithSuffix(name, SEGMENT_SUFFIX)
  }

  function ParseTempSegmentGeneration(name: string): Option<u64> {
    ParseGenerationWithSuffix(name, TEMP_SUFFIX)
  }

  lemma ParseFilename(gen: u64, suffix: string)
    ensures ParseGenerationWithSuffix(PREFIX + Padded(gen, 20) + suffix, suffix) == Some(gen)
  {
    hide Padded, ParseU64;
    var name, digits := PREFIX + Padded(gen, 20) + suffix, Padded(gen, 20);
    ParsePadded(gen, 20);
    var rest := name[|PREFIX|..];
    assert rest == digits + suffix;
    assert rest[|rest| - |suffix|..] == suffix;
    assert rest[..|rest| - |suffix|] == digits;
  }

  lemma EndsWithLast(s: string, suffix: string)
    requires suffix != [] && EndsWith(s, suffix)
    ensures s[|s| - 1] == suffix[|suffix| - 1]
  {
  }

  lemma NotASegmentName(name: string)
    requires name != [] && name[0] == 'c'
    ensures !StartsWith(name, PREFIX)
    ensures ParseTempSegmentGeneration(name) == None
  {
    assert PREFIX[0] == 's';
  }

  lemma SegmentNameIsRecognised(gen: u64)
    ensures var name := SegmentFilename(gen);
            && StartsWith(name, PREFIX) && EndsWith(name, SEGMENT_SUFFIX)
            && ParseSegmentGeneration(name) == Some(gen) && ParseTempSegmentGeneration(name) == None
  {
    hide Padded, ParseU64, AllDigits;
    var name := SegmentFilename(gen);
    ParseFilename(gen, SEGMENT_SUFFIX);
    var rest := name[|PREFIX|..];
    if EndsWith(rest, TEMP_SUFFIX) {
      EndsWithLast(rest, TEMP_SUFFIX);
    }
  }

  lemma TempNameIsRecognised(gen: u64)
    ensures var name := SegmentTempFilename(gen);
            !EndsWith(name, SEGMENT_SUFFIX) && ParseTempSegmentGeneration(name) == Some(gen)
  {
    hide Padded, ParseU64, AllDigits, ParseGenerationWithSuffix;
    var name := SegmentTempFilename(gen);
    ParseFilename(gen, TEMP_SUFFIX);
    if EndsWith(name, SEGMENT_SUFFIX) {
      EndsWithLast(name, SEGMENT_SUFFIX);
    }
  }

  /** The scan of the directory tells the kinds of file apart, and reads the generation back. */
  lemma NamesAreRecognised(f: File)
    ensures ParseTempSegmentGeneration(FileName(f)) == if f.TempSegment? then Some(f.gen) else None
    ensures StartsWith(FileName(f), PREFIX) && EndsWith(FileName(f), SEGMENT_SUFFIX) <==> f.Segment?
    ensures f.Segment? ==> ParseSegmentGeneration(FileName(f)) == Some(f.gen)
  {
    hide SegmentFilename, SegmentTempFilename, ParseGenerationWithSuffix, StartsWith, EndsWith;
    hide ParseSegmentGeneration, ParseTempSegmentGeneration;
    match f
    case Segment(g) => SegmentNameIsRecognised(g);
    case TempSegment(g) => TempNameIsRecognised(g);
    case Marker => NotASegmentName(MARKER_NAME);
    case TempMarker => NotASegmentName(TEMP_MARKER_NAME);
  }

  /** Different files have different names. */
  lemma NamesAreDistinct(f: File, g: File)
    requires FileName(f) == FileName(g)
    ensures f == g
  {
    hide SegmentFilename, SegmentTempFilename, ParseGenerationWithSuffix;
    NamesAreRecognised(f);
    NamesAreRecognised(g);
    assert |MARKER_NAME| != |TEMP_MARKER_NAME|;
    match f
    case Segment(_) =>
    case TempSegment(_) =>
    case Marker =>
    case TempMarker =>
  }

  // ---------- the names themselves ----------

  /** Written out: the generation in twenty digits, the most significant first. */
  lemma NamesWrittenOut()
    ensures FileName(Segment(42)) == "segment_00000000000000000042.seg"
    ensures FileName(TempSegment(42)) == "segment_00000000000000000042.seg.tmp"
    ensures FileName(Marker) == "compaction.pending"
    ensures FileName(TempMarker) == "compaction.pending.tmp"
  {
    FortyTwo();
    ZerosWrittenOut();
    hide Zeros, Decimal;
    assert Padded(42, 20) == "00000000000000000042";
  }

  lemma OneDigit(d: nat)
    requires d < 10
    ensures Decimal(d) == ['0' + d as char]
  {
  }

  lemma FortyTwo()
    ensures Decimal(42) == "42"
  {
    OneDigit(4);
    OneDigit(2);
  }

  lemma ZerosWrittenOut()
    ensures Zeros(18) == "000000000000000000"
  {
    assert Zeros(6) == "000000";
    assert Zeros(12) == "000000" + Zeros(6);
    assert Zeros(18) == "000000" + Zeros(12);
  }

  function Pow10(k: nat): (p: nat)
    ensures p > 0
  {
    if k == 0 then 1 else 10 * Pow10(k - 1)
  }

  lemma {:induction false} DecimalLength(n: nat, k: nat)
    requires n < Pow10(k) && k > 0
    ensures |Decimal(n)| <= k
    decreases k
  {
    if n >= 10 {
      DecimalLength(n / 10, k - 1);
    }
  }

  lemma TwentyDigitsSuffice()
    ensures U64_MAX < Pow10(20)
  {
    assert Pow10(5) == 100_000;
    assert Pow10(10) == 100_000 * Pow10(5);
    assert Pow10(15) == 100_000 * Pow10(10);
    assert Pow10(20) == 100_000 * Pow10(15);
  }

  /** All segment names have the same length, so they list in the order of their generations. */
  lemma NamesAreEquallyLong(gen: u64)
    ensures |FileName(Segment(gen))| == 32 && |FileName(TempSegment(gen))| == 36
  {
    hide Decimal, Zeros;
    TwentyDigitsSuffice();
    DecimalLength(gen, 20);
  }

  /** A number is the value of its digits, in base ten. */
  lemma ValueOfDigits(s: string, c: char)
    requires '0' <= c <= '9'
    ensures Value("") == 0
    ensures Value(s + [c]) == 10 * Value(s) + (c as int - '0' as int)
  {
    assert (s + [c])[..|s + [c]| - 1] == s;
  }

  /** Which names are taken for segments, and which generation is read from them. */
  lemma ParseNameIff(name: string, gen: u64)
    ensures ParseSegmentGeneration(name) == Some(gen) <==> exists digits :: Names(name, digits, ".seg", gen)
    ensures ParseTempSegmentGeneration(name) == Some(gen) <==> exists digits :: Names(name, digits, ".seg.tmp", gen)
  {
    hide Value, AllDigits, Names;
    ParseWithSuffixIff(name, SEGMENT_SUFFIX, gen);
    ParseWithSuffixIff(name, TEMP_SUFFIX, gen);
  }

  ghost predicate Names(name: string, digits: string, suffix: string, gen: u64) {
    name == "segment_" + digits + suffix && Writes(digits, gen)
  }

  lemma ParseWithSuffixIff(name: string, suffix: string, gen: u64)
    ensures ParseGenerationWithSuffix(name, suffix) == Some(gen) <==> exists digits :: Names(name, digits, suffix, gen)
  {
    hide Value;
    if ParseGenerationWithSuffix(name, suffix) == Some(gen) {
      var rest := name[|PREFIX|..];
      var digits := rest[..|rest| - |suffix|];
      assert name == PREFIX + rest && rest == digits + suffix;
      NoSign(digits);
      assert Names(name, digits, suffix, gen);
    }
    if digits :| Names(name, digits, suffix, gen) {
      var rest := name[|PREFIX|..];
      assert rest == digits + suffix;
      assert rest[..|rest| - |suffix|] == digits && rest[|rest| - |suffix|..] == suffix;
      NoSign(digits);
    }
  }

  lemma NoSign(digits: string)
    requires digits != "" && AllDigits(digits)
    ensures digits[0] != '+'
  {
    assert digits[0] in digits;
  }

  /** Digits, at least one, that write n. */
  predicate Writes(digits: string, n: nat) {
    digits != "" && AllDigits(digits) && Value(digits) == n
  }

  /** `parse::<u64>`: a plus sign or none, then digits, at least one, whose value fits. */
  lemma ParseU64Iff(s: string, n: u64)
    ensures ParseU64(s) == Some(n) <==>
            exists digits :: (s == digits || s == "+" + digits) && Writes(digits, n)
  {
    hide Value, AllDigits;
    if ParseU64(s) == Some(n) {
      var digits := if s != [] && s[0] == '+' then s[1..] else s;
      assert (s == digits || s == "+" + digits) && Writes(digits, n);
    }
    if digits :| (s == digits || s == "+" + digits) && Writes(digits, n) {
      NoSign(digits);
      assert s == "+" + digits ==> s[1..] == digits;
    }
  }

  // ---------- listing the directory ----------

  function Files(d: Disk): set<File> {
    (set g | g in d.segments :: Segment(g)) + (set g | g in d.temps :: TempSegment(g))
    + (if d.marker.Some? then {Marker} else {}) + (if d.tempMarker.Some? then {TempMarker} else {})
  }

  /** `names` lists every file of the directory once, in some order. */
  ghost predicate Lists(files: seq<File>, d: Disk) {
    && (forall f :: f in files <==> Exists(d, f))
    && (forall i, j :: 0 <= i < j < |files| ==> files[i] != files[j])
  }

  /** `read_dir`: the file names, in an order that is not specified. */
  method ReadDir(d: Disk) returns (names: seq<string>, ghost files: seq<File>)
    ensures Lists(files, d)
    ensures |names| == |files| && forall i :: 0 <= i < |files| ==> names[i] == FileName(files[i])
  {
    hide FileName;
    names, files := [], [];
    var rest := Files(d);
    while rest != {}
      invariant |names| == |files| && forall i :: 0 <= i < |files| ==> names[i] == FileName(files[i])
      invariant forall i, j :: 0 <= i < j < |files| ==> files[i] != files[j]
      invariant forall f :: f in files || f in rest <==> f in Files(d)
      invariant forall f :: f in files ==> f !in rest
      decreases rest
    {
      var f :| f in rest;
      rest := rest - {f};
      names := names + [FileName(f)];
      files := files + [f];
    }
  }
}
