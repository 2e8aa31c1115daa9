/** The compaction marker: a small text file that makes the replacement of segments one transaction (`src/store.rs`). */
module Markers {
  import opened Bytes
  import opened Errors
  import opened FileSystems
  import opened Names

  const MARKER_MAGIC := "STONE_COMPACTION_V1"

  datatype CompactionMarker = CompactionMarker(output: u64, olds: seq<u64>)

  ghost predicate Distinct(gs: seq<u64>) {
    forall i, j :: 0 <= i < j < |gs| ==> gs[i] != gs[j]
  }

  /** At least two replaced generations, all different, all older than the output. */
  ghost predicate WellFormedMarker(m: CompactionMarker) {
    |m.olds| >= 2 && Distinct(m.olds) && forall g :: g in m.olds ==> g < m.output
  }

  // ---------- text ----------

  predicate Ascii(s: string) {
    forall c :: c in s ==> c as int < 128
  }

  function ToBytes(s: string): (b: Bytes)
    ensures |b| == |s|
  {
    seq(|s|, i requires 0 <= i < |s| => ((s[i] as int) % 256) as byte)
  }

  /** `read_to_string`, for a file that holds nothing but ASCII. */
  function FromBytes(b: Bytes): Result<string> {
    if exists i :: 0 <= i < |b| && b[i] >= 128 then Err(Other("marker is not ASCII"))
    else Ok(seq(|b|, i requires 0 <= i < |b| => b[i] as char))
  }

  lemma TextReadsBack(s: string)
    requires Ascii(s)
    ensures FromBytes(ToBytes(s)) == Ok(s)
  {
    forall i | 0 <= i < |s|
      ensures ToBytes(s)[i] < 128 && ToBytes(s)[i] as char == s[i]
    {
      assert s[i] in s;
    }
    assert seq(|s|, i requires 0 <= i < |s| => ToBytes(s)[i] as char) == s;
  }

  lemma ToBytesConcat(s: string, t: string)
    ensures ToBytes(s + t) == ToBytes(s) + ToBytes(t)
  {
  }

  /** `str::lines`: split after each newline, and drop it together with a carriage return before it. */
  function Lines(s: string): seq<string>
    decreases |s|
  {
    if s == [] then []
    else
      var n := LineEnd(s);
      if n == |s| then [s] else [DropCarriageReturn(s[..n])] + Lines(s[n + 1..])
  }

  function LineEnd(s: string): (n: nat)
    ensures n <= |s|
    ensures n < |s| ==> s[n] == '\n'
    ensures forall i :: 0 <= i < n ==> s[i] != '\n'
  {
    if s == [] || s[0] == '\n' then 0 else 1 + LineEnd(s[1..])
  }

  function DropCarriageReturn(line: string): string {
    if line != [] && line[|line| - 1] == '\r' then line[..|line| - 1] else line
  }

  predicate Blank(line: string) {
    forall c :: c in line ==> c == ' ' || 9 <= c as int <= 13
  }

  lemma LinesOfLine(line: string, rest: string)
    requires '\n' !in line && line != [] && line[|line| - 1] != '\r'
    ensures Lines(line + "\n" + rest) == [line] + Lines(rest)
  {
    hide LineEnd;
    var s := line + "\n" + rest;
    var n := LineEnd(s);
    assert s[|line|] == '\n' && s[..|line|] == line && s[|line| + 1..] == rest;
    forall i | 0 <= i < |line|
      ensures s[i] != '\n'
    {
      assert s[i] == line[i] && line[i] in line;
    }
    assert n == |line|;
  }

  /** A line may end in a carriage return before its newline; the last line needs no newline. */
  lemma LinesCut(line: string, rest: string)
    requires '\n' !in line
    ensures Lines("") == []
    ensures line != "" ==> Lines(line) == [line]
    ensures Lines(line + "\r\n" + rest) == [line] + Lines(rest)
    ensures line == "" || line[|line| - 1] != '\r' ==> Lines(line + "\n" + rest) == [line] + Lines(rest)
  {
    hide Lines;
    LastLine(line);
    CutAtNewline(line + "\r", rest);
    assert line + "\r" + "\n" + rest == line + "\r\n" + rest;
    assert (line + "\r")[..|line|] == line;
    CutAtNewline(line, rest);
  }

  lemma LastLine(line: string)
    requires '\n' !in line
    ensures Lines("") == []
    ensures line != "" ==> Lines(line) == [line]
  {
    LineEndOfOne(line);
  }

  lemma LineEndOfOne(line: string)
    requires '\n' !in line
    ensures LineEnd(line) == |line|
  {
    hide LineEnd;
    assert forall i :: 0 <= i < |line| ==> line[i] in line;
  }

  lemma CutAtNewline(line: string, rest: string)
    requires '\n' !in line
    ensures Lines(line + "\n" + rest) == [DropCarriageReturn(line)] + Lines(rest)
  {
    hide LineEnd, DropCarriageReturn;
    var s := line + "\n" + rest;
    assert s[|line|] == '\n' && s[..|line|] == line && s[|line| + 1..] == rest;
    forall i | 0 <= i < |line|
      ensures s[i] != '\n'
    {
      assert s[i] == line[i] && line[i] in line;
    }
    assert LineEnd(s) == |line|;
  }

  // ---------- writing ----------

  function MagicLine(): string {
    MARKER_MAGIC + "\n"
  }

  function OutputLine(output: u64): string {
    "output=" + Decimal(output) + "\n"
  }

  function OldLine(gen: u64): string {
    "old=" + Decimal(gen) + "\n"
  }

  function OldLines(olds: seq<u64>): string {
    if olds == [] then "" else OldLine(olds[0]) + OldLines(olds[1..])
  }

  function MarkerText(m: CompactionMarker): string {
    MagicLine() + (OutputLine(m.output) + OldLines(m.olds))
  }

  function MarkerBytes(m: CompactionMarker): Bytes {
    ToBytes(MarkerText(m))
  }

  /** One write per line, as `writeln!` makes them. */
  function OldLineWrites(olds: seq<u64>): seq<Effect> {
    if olds == [] then [] else [AppendTo(TempMarker, ToBytes(OldLine(olds[0])))] + OldLineWrites(olds[1..])
  }

  /** The writes to the temporary marker. */
  function MarkerWrites(m: CompactionMarker, d: Disk): seq<Effect> {
    RemoveIfThere(TempMarker, d)
    + [Create(TempMarker), AppendTo(TempMarker, ToBytes(MagicLine())),
       AppendTo(TempMarker, ToBytes(OutputLine(m.output)))]
    + OldLineWrites(m.olds)
  }

  function MarkerPlan(m: CompactionMarker, d: Disk): seq<Effect> {
    MarkerWrites(m, d) + [Rename(TempMarker, Marker)]
  }

  method WriteMarker(fs: FileSystem, m: CompactionMarker) returns (res: Result<()>)
    modifies fs
    ensures res.Err? <==> Exists(old(fs.disk), Marker)
    ensures res.Err? ==> unchanged(fs)
    ensures res.Ok? ==> fs.log == old(fs.log) + MarkerPlan(m, old(fs.disk))
                        && fs.disk == old(fs.disk).(marker := Some(MarkerBytes(m)), tempMarker := None)
  {
    hide MarkerText, OldLine, OutputLine, MagicLine, ToBytes, OldLines, OldLineWrites, MarkerPlan, MarkerBytes;
    ghost var d, log := fs.disk, fs.log;
    if Exists(fs.disk, Marker) {
      return Err(Other("compaction marker already exists"));
    }
    if Exists(fs.disk, TempMarker) {
      fs.Perform(Remove(TempMarker));
    }
    fs.Perform(Create(TempMarker));
    fs.Perform(AppendTo(TempMarker, ToBytes(MagicLine())));
    fs.Perform(AppendTo(TempMarker, ToBytes(OutputLine(m.output))));
    WriteOldLines(fs, m.olds);
    fs.Perform(Rename(TempMarker, Marker));
    MarkerInPieces(m);
    MarkerCalls(m, d, log);
    assert [] + ToBytes(MagicLine()) == ToBytes(MagicLine());
    return Ok(());
  }

  /** The calls made one after the other are the marker plan. */
  lemma MarkerCalls(m: CompactionMarker, d: Disk, log: seq<Effect>)
    ensures var a, b := AppendTo(TempMarker, ToBytes(MagicLine())), AppendTo(TempMarker, ToBytes(OutputLine(m.output)));
            log + MarkerPlan(m, d) ==
            log + RemoveIfThere(TempMarker, d) + [Create(TempMarker)] + [a] + [b] + OldLineWrites(m.olds)
            + [Rename(TempMarker, Marker)]
    ensures log + [] == log
  {
    hide OutputLine, MagicLine, ToBytes, OldLineWrites, RemoveIfThere;
  }

  method WriteOldLines(fs: FileSystem, olds: seq<u64>)
    requires Exists(fs.disk, TempMarker)
    modifies fs
    ensures fs.log == old(fs.log) + OldLineWrites(olds)
    ensures fs.disk == old(fs.disk).(tempMarker := Some(old(fs.disk).tempMarker.value + ToBytes(OldLines(olds))))
  {
    hide OldLine, ToBytes, OldLines;
    ghost var start := fs.disk.tempMarker.value;
    NoOldLines();
    assert olds[..0] == [] && start + ToBytes([]) == start;
    for i := 0 to |olds|
      invariant fs.log == old(fs.log) + OldLineWrites(olds[..i])
      invariant fs.disk == old(fs.disk).(tempMarker := Some(start + ToBytes(OldLines(olds[..i]))))
    {
      OldLinesTake(olds, i);
      assert start + ToBytes(OldLines(olds[..i + 1]))
          == start + ToBytes(OldLines(olds[..i])) + ToBytes(OldLine(olds[i]));
      fs.Perform(AppendTo(TempMarker, ToBytes(OldLine(olds[i]))));
    }
    assert olds[..|olds|] == olds;
  }

  lemma NoOldLines()
    ensures OldLines([]) == [] && OldLineWrites([]) == [] && ToBytes([]) == []
  {
  }

  lemma {:induction false} OldLinesTake(olds: seq<u64>, i: nat)
    requires i < |olds|
    ensures OldLineWrites(olds[..i + 1]) == OldLineWrites(olds[..i]) + [AppendTo(TempMarker, ToBytes(OldLine(olds[i])))]
    ensures ToBytes(OldLines(olds[..i + 1])) == ToBytes(OldLines(olds[..i])) + ToBytes(OldLine(olds[i]))
    decreases i
  {
    hide OldLine, ToBytes;
    if i == 0 {
      assert olds[..1][1..] == [] && olds[..0] == [];
      NoOldLines();
      ToBytesConcat(OldLine(olds[0]), []);
    } else {
      var rest := olds[1..];
      assert olds[..i + 1][1..] == rest[..i] && olds[..i][1..] == rest[..i - 1];
      OldLinesTake(rest, i - 1);
      ToBytesConcat(OldLine(olds[0]), OldLines(rest[..i]));
      ToBytesConcat(OldLine(olds[0]), OldLines(rest[..i - 1]));
    }
  }

  lemma MarkerInPieces(m: CompactionMarker)
    ensures MarkerBytes(m) == ToBytes(MagicLine()) + ToBytes(OutputLine(m.output)) + ToBytes(OldLines(m.olds))
  {
    hide ToBytes, OldLines, OutputLine, MagicLine;
    ToBytesConcat(MagicLine(), OutputLine(m.output) + OldLines(m.olds));
    ToBytesConcat(OutputLine(m.output), OldLines(m.olds));
  }

  // ---------- reading ----------

  /** One line of the marker after the header. */
  function ReadLine(line: string, output: Option<u64>, olds: seq<u64>): Result<(Option<u64>, seq<u64>)> {
    if Blank(line) then Ok((output, olds))
    else if StartsWith(line, "output=") then
      if output.Some? then Err(Other("duplicate output generation in compaction marker"))
      else
        match ParseU64(line[|"output="|..])
        case None => Err(Other("invalid output generation in compaction marker"))
        case Some(g) => Ok((Some(g), olds))
    else if StartsWith(line, "old=") then
      match ParseU64(line[|"old="|..])
      case None => Err(Other("invalid old generation in compaction marker"))
      case Some(g) =>
        if g in olds then Err(Other("duplicate old generation in compaction marker"))
        else Ok((output, olds + [g]))
    else Err(Other("unknown line in compaction marker"))
  }

  function ReadLines(lines: seq<string>, output: Option<u64>, olds: seq<u64>): Result<(Option<u64>, seq<u64>)>
    decreases |lines|
  {
    if lines == [] then Ok((output, olds))
    else
      match ReadLine(lines[0], output, olds)
      case Ok((output', olds')) => ReadLines(lines[1..], output', olds')
      case Err(e) => Err(e)
  }

  function CheckMarker(output: Option<u64>, olds: seq<u64>): Result<CompactionMarker> {
    if output.None? then Err(Other("compaction marker missing output generation"))
    else if |olds| < 2 then Err(Other("compaction marker must contain at least two old segments"))
    else if output.value in olds then Err(Other("compaction output generation is also listed as an old generation"))
    else if exists g :: g in olds && g >= output.value then
      Err(Other("compaction output generation must be newer than every replaced generation"))
    else Ok(CompactionMarker(output.value, olds))
  }

  function ParseMarker(contents: Bytes): Result<CompactionMarker> {
    match FromBytes(contents)
    case Err(e) => Err(e)
    case Ok(text) =>
      var lines := Lines(text);
      if lines == [] || lines[0] != MARKER_MAGIC then Err(Other("invalid compaction marker header"))
      else
        match ReadLines(lines[1..], None, [])
        case Err(e) => Err(e)
        case Ok((output, olds)) => CheckMarker(output, olds)
  }

  method ReadMarker(contents: Bytes) returns (res: Result<CompactionMarker>)
    ensures res == ParseMarker(contents)
  {
    hide ReadLine, CheckMarker, Lines, FromBytes;
    var text :- FromBytes(contents);
    var lines := Lines(text);
    if lines == [] || lines[0] != MARKER_MAGIC {
      return Err(Other("invalid compaction marker header"));
    }
    var output: Option<u64> := None;
    var olds: seq<u64> := [];
    for i := 1 to |lines|
      invariant ReadLines(lines[1..], None, []) == ReadLines(lines[i..], output, olds)
    {
      assert lines[i..][1..] == lines[i + 1..];
      var step :- ReadLine(lines[i], output, olds);
      output, olds := step.0, step.1;
    }
    res := CheckMarker(output, olds);
  }

  // ---------- round trip ----------

  /** Nothing but well-formed markers is ever accepted. */
  lemma AcceptedMarkersAreWellFormed(contents: Bytes)
    requires ParseMarker(contents).Ok?
    ensures WellFormedMarker(ParseMarker(contents).value)
  {
    hide Lines, FromBytes, ReadLines;
    var lines := Lines(FromBytes(contents).value);
    OldsStayDistinct(lines[1..], None, []);
  }

  lemma {:induction false} OldsStayDistinct(lines: seq<string>, output: Option<u64>, olds: seq<u64>)
    requires Distinct(olds) && ReadLines(lines, output, olds).Ok?
    ensures Distinct(ReadLines(lines, output, olds).value.1)
    decreases |lines|
  {
    hide ParseU64, Blank;
    if lines != [] {
      var (output', olds') := ReadLine(lines[0], output, olds).value;
      OldsStayDistinct(lines[1..], output', olds');
    }
  }

  /** Reading a written marker gives the marker back. */
  lemma MarkerReadsBack(m: CompactionMarker)
    requires WellFormedMarker(m)
    ensures ParseMarker(MarkerBytes(m)) == Ok(m)
  {
    hide Lines, FromBytes, ReadLines, ReadLine, Decimal, OldLines, OldLine, ToBytes;
    TextIsAscii(m);
    TextReadsBack(MarkerText(m));
    var afterMagic := OutputLine(m.output) + OldLines(m.olds);
    assert MARKER_MAGIC + "\n" + afterMagic == MagicLine() + afterMagic;
    LinesOfLine(MARKER_MAGIC, afterMagic);
    assert afterMagic == "output=" + Decimal(m.output) + "\n" + OldLines(m.olds);
    var line := "output=" + Decimal(m.output);
    Tags();
    NumberLine("output=", m.output);
    LinesOfLine(line, OldLines(m.olds));
    var lines := [line] + Lines(OldLines(m.olds));
    ReadsOutputLine(m.output);
    assert lines[1..] == Lines(OldLines(m.olds));
    ReadsOldLines(Some(m.output), [], m.olds);
    assert [] + m.olds == m.olds;
    assert ([MARKER_MAGIC] + lines)[1..] == lines;
    assert ReadLines(lines, None, []) == ReadLines(lines[1..], Some(m.output), []) by {
      ReadsFirstLine(lines, None, []);
    }
  }

  lemma ReadsFirstLine(lines: seq<string>, output: Option<u64>, olds: seq<u64>)
    requires lines != [] && ReadLine(lines[0], output, olds).Ok?
    ensures var (output', olds') := ReadLine(lines[0], output, olds).value;
            ReadLines(lines, output, olds) == ReadLines(lines[1..], output', olds')
  {
  }

  /** A tag and a number make a line that `lines` returns whole and that is not blank. */
  lemma NumberLine(tag: string, n: u64)
    requires tag != [] && '\n' !in tag && Ascii(tag) && !Blank(tag)
    ensures var line := tag + Decimal(n);
            '\n' !in line && line != [] && line[|line| - 1] != '\r' && Ascii(line) && !Blank(line)
  {
    var d := Decimal(n);
    var line := tag + d;
    assert line[|line| - 1] == d[|d| - 1] && d[|d| - 1] in d;
    assert forall c :: c in line ==> c in tag || c in d;
    assert forall c :: c in tag ==> c in line;
  }

  lemma Tags()
    ensures !Blank("output=") && Ascii("output=") && '\n' !in "output="
    ensures !Blank("old=") && Ascii("old=") && '\n' !in "old="
  {
    assert "output="[0] == 'o' && "old="[0] == 'o';
    assert 'o' in "output=" && 'o' in "old=";
  }

  lemma ReadsOutputLine(n: u64)
    ensures ReadLine("output=" + Decimal(n), None, []) == Ok((Some(n), []))
  {
    hide Decimal, ParseU64;
    var line := "output=" + Decimal(n);
    Tags();
    NumberLine("output=", n);
    ParseDecimal(n);
    assert line[|"output="|..] == Decimal(n);
  }

  lemma ReadsOldLine(output: Option<u64>, olds: seq<u64>, n: u64)
    requires n !in olds
    ensures ReadLine("old=" + Decimal(n), output, olds) == Ok((output, olds + [n]))
  {
    hide Decimal, ParseU64;
    var line := "old=" + Decimal(n);
    Tags();
    NumberLine("old=", n);
    ParseDecimal(n);
    assert line[1] == 'l' && "output="[1] == 'u';
    assert line[|"old="|..] == Decimal(n);
  }

  lemma {:induction false} ReadsOldLines(output: Option<u64>, olds: seq<u64>, more: seq<u64>)
    requires Distinct(olds + more)
    ensures ReadLines(Lines(OldLines(more)), output, olds) == Ok((output, olds + more))
    decreases |more|
  {
    hide Decimal, ReadLine, Lines, ReadLines;
    if more == [] {
      assert olds + more == olds;
      NoLines(output, olds);
    } else {
      var g, rest := more[0], more[1..];
      var line := "old=" + Decimal(g);
      Tags();
      NumberLine("old=", g);
      LinesOfLine(line, OldLines(rest));
      assert OldLines(more) == line + "\n" + OldLines(rest);
      var lines := [line] + Lines(OldLines(rest));
      assert (olds + more)[|olds|] == g && forall i :: 0 <= i < |olds| ==> (olds + more)[i] == olds[i];
      ReadsOldLine(output, olds, g);
      ReadsFirstLine(lines, output, olds);
      assert lines[1..] == Lines(OldLines(rest));
      assert olds + [g] + rest == olds + more;
      ReadsOldLines(output, olds + [g], rest);
    }
  }

  lemma NoLines(output: Option<u64>, olds: seq<u64>)
    ensures ReadLines(Lines(OldLines([])), output, olds) == Ok((output, olds))
  {
  }

  lemma TextIsAscii(m: CompactionMarker)
    ensures Ascii(MarkerText(m))
  {
    hide Decimal, OldLines;
    assert Ascii(MARKER_MAGIC);
    AsciiNumber("output=", m.output);
    AsciiOldLines(m.olds);
  }

  lemma AsciiNumber(tag: string, n: u64)
    requires Ascii(tag)
    ensures Ascii(tag + Decimal(n) + "\n")
  {
  }

  lemma {:induction false} AsciiOldLines(olds: seq<u64>)
    ensures Ascii(OldLines(olds))
  {
    hide Decimal;
    if olds != [] {
      AsciiNumber("old=", olds[0]);
      AsciiOldLines(olds[1..]);
    }
  }

  // ---------- exactly which markers are accepted ----------

  /** A line is blank when it holds nothing but tabs, line breaks of all kinds, and spaces. */
  lemma BlankIff(line: string)
    ensures Blank(line) <==> forall i :: 0 <= i < |line| ==> line[i] as int in {9, 10, 11, 12, 13, 32}
  {
    if forall i :: 0 <= i < |line| ==> line[i] as int in {9, 10, 11, 12, 13, 32} {
      forall c | c in line
        ensures c == ' ' || 9 <= c as int <= 13
      {
        var i :| 0 <= i < |line| && line[i] == c;
        assert line[i] as int in {9, 10, 11, 12, 13, 32};
      }
    }
    if Blank(line) {
      assert forall i :: 0 <= i < |line| ==> line[i] in line;
    }
  }

  /** The value of a line with this tag, if it is one. */
  function Tagged(line: string, tag: string): Option<u64> {
    if tag <= line then ParseU64(line[|tag|..]) else None
  }

  predicate KnownLine(line: string) {
    Blank(line) || Tagged(line, "output=").Some? || Tagged(line, "old=").Some?
  }

  /** The values of the lines with this tag, in order. */
  function ValuesOf(lines: seq<string>, tag: string): seq<u64> {
    if lines == [] then []
    else
      (if !Blank(lines[0]) && Tagged(lines[0], tag).Some? then [Tagged(lines[0], tag).value] else [])
      + ValuesOf(lines[1..], tag)
  }

  lemma TagsDiffer(line: string)
    ensures !("output=" <= line && "old=" <= line)
  {
    assert "output="[1] == 'u' && "old="[1] == 'l';
  }

  function Given(output: Option<u64>): seq<u64> {
    if output.Some? then [output.value] else []
  }

  lemma {:induction false} ReadLinesIff(lines: seq<string>, output: Option<u64>, olds: seq<u64>,
                                        output': Option<u64>, olds': seq<u64>)
    requires Distinct(olds)
    ensures ReadLines(lines, output, olds) == Ok((output', olds')) <==>
            && (forall i :: 0 <= i < |lines| ==> KnownLine(lines[i]))
            && Given(output') == Given(output) + ValuesOf(lines, "output=")
            && olds' == olds + ValuesOf(lines, "old=") && Distinct(olds')
    decreases |lines|
  {
    hide ReadLine, KnownLine, ValuesOf, Given, Distinct;
    if lines == [] {
      NoValues(output, output', olds);
    } else {
      var line, rest := lines[0], lines[1..];
      assert lines == [line] + rest;
      assert (forall i :: 0 <= i < |lines| ==> KnownLine(lines[i]))
        <==> KnownLine(line) && (forall i :: 0 <= i < |rest| ==> KnownLine(rest[i]));
      match ReadLine(line, output, olds)
      case Ok((output1, olds1)) =>
        ReadLineTakes(line, output, olds, rest);
        ReadLinesIff(rest, output1, olds1, output', olds');
      case Err(_) =>
        if KnownLine(line) {
          ReadLineRefuses(line, output, olds, rest, output', olds');
        }
    }
  }

  lemma NoValues(output: Option<u64>, output': Option<u64>, olds: seq<u64>)
    ensures Given(output) + ValuesOf([], "output=") == Given(output)
    ensures olds + ValuesOf([], "old=") == olds
    ensures Given(output') == Given(output) ==> output' == output
  {
  }

  /** A line that is read adds its value, and stays known. */
  lemma ReadLineTakes(line: string, output: Option<u64>, olds: seq<u64>, rest: seq<string>)
    requires Distinct(olds) && ReadLine(line, output, olds).Ok?
    ensures var (output1, olds1) := ReadLine(line, output, olds).value;
            && KnownLine(line) && Distinct(olds1)
            && Given(output) + ValuesOf([line] + rest, "output=") == Given(output1) + ValuesOf(rest, "output=")
            && olds + ValuesOf([line] + rest, "old=") == olds1 + ValuesOf(rest, "old=")
  {
    hide Blank, ParseU64;
    TagsDiffer(line);
    assert ([line] + rest)[1..] == rest;
  }

  /** A line that is refused is unknown, a second output, or a repeated old generation. */
  lemma ReadLineRefuses(line: string, output: Option<u64>, olds: seq<u64>, rest: seq<string>,
                        output': Option<u64>, olds': seq<u64>)
    requires ReadLine(line, output, olds).Err? && KnownLine(line)
    ensures !(&& Given(output') == Given(output) + ValuesOf([line] + rest, "output=")
              && olds' == olds + ValuesOf([line] + rest, "old=") && Distinct(olds'))
  {
    hide Blank, ParseU64;
    TagsDiffer(line);
    assert ([line] + rest)[1..] == rest;
    if "old=" <= line {
      var g := Tagged(line, "old=").value;
      var all := olds + ValuesOf([line] + rest, "old=");
      assert all[|olds|] == g && g in olds;
      var i :| 0 <= i < |olds| && olds[i] == g;
      assert all[i] == g;
    }
  }

  /**
   * A marker is accepted exactly when it is the header line and then, among blank lines, one output line and old lines
   * that make it well formed; any other line, or a second output, refuses it.
   */
  lemma MarkerAcceptedIff(contents: Bytes, m: CompactionMarker)
    ensures ParseMarker(contents) == Ok(m) <==>
            && FromBytes(contents).Ok?
            && var lines := Lines(FromBytes(contents).value);
               && lines != [] && lines[0] == "STONE_COMPACTION_V1"
               && (forall i :: 1 <= i < |lines| ==> KnownLine(lines[i]))
               && ValuesOf(lines[1..], "output=") == [m.output]
               && ValuesOf(lines[1..], "old=") == m.olds
               && WellFormedMarker(m)
  {
    hide FromBytes, Lines, ReadLines, KnownLine, ValuesOf;
    if FromBytes(contents).Ok? {
      var lines := Lines(FromBytes(contents).value);
      if lines != [] {
        var rest := lines[1..];
        assert (forall i :: 1 <= i < |lines| ==> KnownLine(lines[i])) <==>
               (forall i :: 0 <= i < |rest| ==> KnownLine(rest[i])) by {
          assert forall i :: 1 <= i < |lines| ==> lines[i] == rest[i - 1];
        }
        ReadLinesIff(rest, None, [], Some(m.output), m.olds);
        assert [] + ValuesOf(rest, "output=") == ValuesOf(rest, "output=");
        assert [] + ValuesOf(rest, "old=") == ValuesOf(rest, "old=");
      }
    }
  }

  /** A marker written out. */
  lemma MarkerWrittenOut()
    ensures MarkerText(CompactionMarker(3, [2, 1])) == "STONE_COMPACTION_V1\noutput=3\nold=2\nold=1\n"
  {
    OneDigit(1);
    OneDigit(2);
    OneDigit(3);
    hide Decimal;
    assert OldLines([1]) == OldLine(1) + OldLines([]);
    assert OldLines([2, 1]) == OldLine(2) + OldLines([1]);
  }

  /** Its bytes are the codes of its characters, and only codes below 128 are read. */
  lemma BytesAreCodes(s: string, b: Bytes)
    requires Ascii(s)
    ensures ToBytes(s) == b <==> |b| == |s| && forall i :: 0 <= i < |s| ==> b[i] as int == s[i] as int
    ensures FromBytes(b) == Ok(s) <==> |b| == |s| && forall i :: 0 <= i < |s| ==> b[i] as int == s[i] as int
  {
    forall i | 0 <= i < |s|
      ensures s[i] as int < 128
    {
      assert s[i] in s;
    }
    if |b| == |s| && forall i :: 0 <= i < |s| ==> b[i] as int == s[i] as int {
      assert seq(|b|, i requires 0 <= i < |b| => b[i] as char) == s;
    }
  }
}
