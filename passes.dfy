/** The three passes over the source lines that run before encoding:
    `preprocess_lines` (starter.py:1-21), `build_data_table`
    (starter.py:23-65) and `create_label_table` (starter.py:67-96). Each is
    a loop over the lines, proved against a function that folds the same
    step over a prefix of the input. */
module Passes {
  import opened Results
  import opened Text
  import opened Numerals

  // ---- preprocess_lines ----

  /** A line `preprocess_lines` keeps: non-empty, free of `#`, and with no
      whitespace at either end. */
  predicate IsClean(s: string) {
    s != [] && '#' !in s && !IsSpace(s[0]) && !IsSpace(s[|s| - 1])
  }

  /** One line cut at its first `#` and stripped; blank when nothing but
      whitespace precedes the comment. */
  function CleanLine(line: string): (r: string)
    ensures r == [] || IsClean(r)
  {
    var code := SplitOn(line, '#')[0];
    StripFree(code, '#');
    Strip(code)
  }

  /** Stripping adds no character. */
  lemma StripFree(s: string, c: char)
    requires c !in s
    ensures c !in Strip(s)
  {
    var r, a := Strip(s), LeadLength(s, Whitespace);
    forall k | 0 <= k < |r|
      ensures r[k] != c
    {
      assert r[k] == s[a + k];
    }
  }

  /** The lines `preprocess_lines` returns for `lines`: the non-blank
      cleaned lines, in input order. */
  function Preprocessed(lines: seq<string>): (r: seq<string>)
    ensures |r| <= |lines|
    ensures forall k :: 0 <= k < |r| ==> IsClean(r[k])
  {
    if lines == [] then []
    else
      var rest := Preprocessed(lines[..|lines| - 1]);
      var line := CleanLine(lines[|lines| - 1]);
      if line == [] then rest else rest + [line]
  }

  method PreprocessLines(lines: seq<string>) returns (out: seq<string>)
    ensures out == Preprocessed(lines)
  {
    out := [];
    for i := 0 to |lines|
      invariant out == Preprocessed(lines[..i])
    {
      var line := SplitOn(lines[i], '#')[0];
      line := Strip(line);
      if line != [] {
        out := out + [line];
      }
      assert lines[..i + 1][..i] == lines[..i];
    }
    assert lines[..|lines|] == lines;
  }

  /** Preprocessing works line by line: the lines of a concatenation are
      the lines of each part, in order. */
  lemma {:induction false} PreprocessedConcat(a: seq<string>, b: seq<string>)
    ensures Preprocessed(a + b) == Preprocessed(a) + Preprocessed(b)
    decreases |b|
  {
    if b == [] {
      assert a + b == a;
    } else {
      var init := b[..|b| - 1];
      assert (a + b)[..|a + b| - 1] == a + init;
      assert (a + b)[|a + b| - 1] == b[|b| - 1];
      PreprocessedConcat(a, init);
    }
  }

  /** A stripped string strips to itself. */
  lemma StripStripped(s: string)
    ensures Strip(Strip(s)) == Strip(s)
  {
    var r := Strip(s);
    if r != [] {
      assert LeadLength(r, Whitespace) == 0;
      assert TrailStart(r, Whitespace) == |r|;
      assert r[0..|r|] == r;
    }
  }

  /** A clean line cleans to itself. */
  lemma CleanLineClean(s: string)
    requires IsClean(s)
    ensures CleanLine(s) == s
  {
    assert SplitOn(s, '#')[0] == s[..|s|] == s;
    assert LeadLength(s, Whitespace) == 0;
    assert TrailStart(s, Whitespace) == |s|;
    assert s[0..|s|] == s;
  }

  /** Preprocessing leaves a preprocessed program as it is. */
  lemma {:induction false} PreprocessedIdempotent(lines: seq<string>)
    ensures Preprocessed(Preprocessed(lines)) == Preprocessed(lines)
  {
    PreprocessedOfClean(Preprocessed(lines));
  }

  lemma {:induction false} PreprocessedOfClean(lines: seq<string>)
    requires forall k :: 0 <= k < |lines| ==> IsClean(lines[k])
    ensures Preprocessed(lines) == lines
    decreases |lines|
  {
    if lines != [] {
      var init := lines[..|lines| - 1];
      PreprocessedOfClean(init);
      CleanLineClean(lines[|lines| - 1]);
      assert init + [lines[|lines| - 1]] == lines;
    }
  }

  // ---- build_data_table ----

  /** Why `build_data_table` stops, with the index of the offending line: a
      declaration that does not split into exactly one label and one value
      at `:`, or a value that is not an integer. */
  datatype DataError =
    | MalformedDeclaration(index: nat, line: string)
    | InvalidValue(index: nat, text: string)

  /** The variables of `build_data_table` after some lines: the section
      flag, the label addresses, the data values and the program lines. */
  datatype DataScan = DataScan(inData: bool, table: map<string, nat>, values: seq<int>, program: seq<string>)

  /** What `build_data_table` returns. */
  datatype DataSegment = DataSegment(table: map<string, nat>, values: seq<int>, program: seq<string>)

  /** Every data label names the address of a value. */
  predicate Dense(s: DataScan) {
    forall key :: key in s.table ==> s.table[key] < |s.values|
  }

  /** A line that switches the section: it is dropped from the program. */
  predicate IsMarker(line: string) {
    StartsWith(line, ".data") || StartsWith(line, ".text")
  }

  /** The effect of the line with index `index` on the scan. */
  function DataStep(s: DataScan, index: nat, line: string): (r: Result<DataScan, DataError>)
    ensures r.Ok? && Dense(s) ==> Dense(r.value)
  {
    if StartsWith(line, ".data") then Ok(s.(inData := true))
    else if StartsWith(line, ".text") then Ok(s.(inData := false))
    else if !s.inData then Ok(s.(program := s.program + [line]))
    else if ':' !in line then Ok(s)
    else
      var pieces := SplitOn(line, ':');
      if |pieces| != 2 then Err(MalformedDeclaration(index, line))
      else
        var key, text := Strip(pieces[0]), Strip(pieces[1]);
        match ParseInt(text)
        case None => Err(InvalidValue(index, text))
        case Some(value) => Ok(s.(table := s.table[key := |s.values|], values := s.values + [value]))
  }

  /** The scan of `build_data_table` over `lines`. */
  function ScanData(lines: seq<string>): (r: Result<DataScan, DataError>)
    ensures r.Ok? ==> Dense(r.value)
    ensures r.Ok? ==> |r.value.values| + |r.value.program| <= |lines|
    ensures r.Err? ==> r.error.index < |lines|
  {
    if lines == [] then Ok(DataScan(false, map[], [], []))
    else
      var s :- ScanData(lines[..|lines| - 1]);
      DataStep(s, |lines| - 1, lines[|lines| - 1])
  }

  /** The program lines are input lines other than the markers. */
  lemma {:induction false} ScanDataProgram(lines: seq<string>)
    requires ScanData(lines).Ok?
    ensures forall k :: 0 <= k < |ScanData(lines).value.program| ==>
      ScanData(lines).value.program[k] in lines && !IsMarker(ScanData(lines).value.program[k])
    decreases |lines|
  {
    if lines != [] {
      var init, last := lines[..|lines| - 1], lines[|lines| - 1];
      ScanDataProgram(init);
      ScanDataSnoc(init, last);
      assert init + [last] == lines;
      assert forall line :: line in init ==> line in lines;
    }
  }

  /** Whether the data section is open after `lines`: the last marker
      among them, if any, is `.data`. */
  predicate InData(lines: seq<string>) {
    if lines == [] then false
    else if StartsWith(lines[|lines| - 1], ".data") then true
    else if StartsWith(lines[|lines| - 1], ".text") then false
    else InData(lines[..|lines| - 1])
  }

  /** The lines outside the data section, markers excluded, in order. */
  function Residual(lines: seq<string>): seq<string> {
    if lines == [] then []
    else
      var init, last := lines[..|lines| - 1], lines[|lines| - 1];
      if IsMarker(last) || InData(init) then Residual(init) else Residual(init) + [last]
  }

  /** A scan that succeeds keeps exactly the lines outside the data
      section, whatever the declarations inside it say. */
  lemma {:induction false} ScanDataResidual(lines: seq<string>)
    requires ScanData(lines).Ok?
    ensures ScanData(lines).value.program == Residual(lines)
    ensures ScanData(lines).value.inData == InData(lines)
    decreases |lines|
  {
    if lines != [] {
      var init, last := lines[..|lines| - 1], lines[|lines| - 1];
      ScanDataSnoc(init, last);
      assert init + [last] == lines;
      ScanDataResidual(init);
    }
  }

  /** What `build_data_table` returns for `lines`. */
  function DataTableOf(lines: seq<string>): Result<DataSegment, DataError> {
    match ScanData(lines)
    case Ok(s) => Ok(DataSegment(s.table, s.values, s.program))
    case Err(e) => Err(e)
  }

  method BuildDataTable(lines: seq<string>) returns (r: Result<DataSegment, DataError>)
    ensures r == DataTableOf(lines)
  {
    var table: map<string, nat> := map[];
    var values: seq<int> := [];
    var program: seq<string> := [];
    var inData := false;
    var memoryAddress: nat := 0;
    for i := 0 to |lines|
      invariant memoryAddress == |values|
      invariant ScanData(lines[..i]) == Ok(DataScan(inData, table, values, program))
    {
      var line := lines[i];
      assert lines[..i + 1][..i] == lines[..i];
      if StartsWith(line, ".data") {
        inData := true;
      } else if StartsWith(line, ".text") {
        inData := false;
      } else if inData {
        if ':' in line {
          var pieces := SplitOn(line, ':');
          if |pieces| != 2 {
            ScanDataStops(lines, i + 1);
            return Err(MalformedDeclaration(i, line));
          }
          var key, text := Strip(pieces[0]), Strip(pieces[1]);
          var value := ParseInt(text);
          if value.None? {
            ScanDataStops(lines, i + 1);
            return Err(InvalidValue(i, text));
          }
          table := table[key := memoryAddress];
          values := values + [value.value];
          memoryAddress := memoryAddress + 1;
        }
      } else {
        program := program + [line];
      }
    }
    assert lines[..|lines|] == lines;
    return Ok(DataSegment(table, values, program));
  }

  /** The first failing line ends the scan. */
  lemma {:induction false} ScanDataStops(lines: seq<string>, n: nat)
    requires n <= |lines| && ScanData(lines[..n]).Err?
    ensures ScanData(lines) == ScanData(lines[..n])
    decreases |lines| - n
  {
    if n < |lines| {
      assert lines[..n + 1][..n] == lines[..n];
      ScanDataStops(lines, n + 1);
    } else {
      assert lines[..n] == lines;
    }
  }

  /** A program without section markers passes through unchanged, with no
      data. */
  lemma {:induction false} NoDataSection(lines: seq<string>)
    requires forall k :: 0 <= k < |lines| ==> !IsMarker(lines[k])
    ensures ScanData(lines) == Ok(DataScan(false, map[], [], lines))
    decreases |lines|
  {
    if lines != [] {
      var init, last := lines[..|lines| - 1], lines[|lines| - 1];
      assert !IsMarker(last);
      assert forall k :: 0 <= k < |init| ==> init[k] == lines[k];
      NoDataSection(init);
      ScanDataSnoc(init, last);
      PassThrough(DataScan(false, map[], [], init), |init|, last);
      assert init + [last] == lines;
    }
  }

  /** Outside the data section a line that is no marker is a program line. */
  lemma PassThrough(s: DataScan, index: nat, line: string)
    requires !s.inData && !IsMarker(line)
    ensures DataStep(s, index, line) == Ok(s.(program := s.program + [line]))
  {
  }

  /** A declaration `label: value` inside the data section gives the label
      the next address, the number of values declared before it, replacing
      any earlier address of the same label, and appends the value. */
  lemma Declare(lines: seq<string>, key: string, value: int)
    requires ScanData(lines).Ok? && ScanData(lines).value.inData
    requires IsWord(key) && ':' !in key && key[0] != '.'
    ensures var s := ScanData(lines).value;
      ScanData(lines + [key + ":" + Decimal(value)]) ==
        Ok(s.(table := s.table[key := |s.values|], values := s.values + [value]))
  {
    ScanDataSnoc(lines, key + ":" + Decimal(value));
    DeclareStep(ScanData(lines).value, |lines|, key, value);
  }

  /** Any data line with one colon whose value, once stripped, is an integer:
      the stripped label gets the number of values declared before it and the
      value is appended. */
  lemma DeclareLine(lines: seq<string>, key: string, text: string)
    requires ScanData(lines).Ok? && ScanData(lines).value.inData
    requires ':' !in key && ':' !in text && !IsMarker(key + ":" + text)
    requires ParseInt(Strip(text)).Some?
    ensures var s := ScanData(lines).value;
      ScanData(lines + [key + ":" + text]) ==
        Ok(s.(table := s.table[Strip(key) := |s.values|], values := s.values + [ParseInt(Strip(text)).value]))
  {
    ScanDataSnoc(lines, key + ":" + text);
    DeclarationPieces(key, text);
  }

  /** A data line with one colon whose stripped value is not an integer fails
      with its own index and that stripped value. */
  lemma DeclareInvalid(lines: seq<string>, key: string, text: string)
    requires ScanData(lines).Ok? && ScanData(lines).value.inData
    requires ':' !in key && ':' !in text && !IsMarker(key + ":" + text)
    requires ParseInt(Strip(text)).None?
    ensures ScanData(lines + [key + ":" + text]) == Err(InvalidValue(|lines|, Strip(text)))
  {
    ScanDataSnoc(lines, key + ":" + text);
    DeclarationPieces(key, text);
  }

  lemma ScanDataSnoc(lines: seq<string>, line: string)
    ensures ScanData(lines + [line]) ==
      match ScanData(lines)
      case Ok(s) => DataStep(s, |lines|, line)
      case Err(e) => Err(e)
  {
    var all := lines + [line];
    assert all[..|all| - 1] == lines;
  }

  lemma DeclareStep(s: DataScan, index: nat, key: string, value: int)
    requires s.inData
    requires IsWord(key) && ':' !in key && key[0] != '.'
    ensures DataStep(s, index, key + ":" + Decimal(value)) ==
      Ok(s.(table := s.table[key := |s.values|], values := s.values + [value]))
  {
    var text := Decimal(value);
    var line := key + ":" + text;
    DecimalWord(value);
    DeclarationPieces(key, text);
    StripWord(key);
    StripWord(text);
    ParseDecimal(value);
    assert !IsMarker(line) by {
      assert line[0] == key[0];
      assert |line| >= 5 ==> line[..5][0] == line[0];
    }
  }

  lemma DeclarationPieces(key: string, text: string)
    requires ':' !in key && ':' !in text
    ensures ':' in key + ":" + text
    ensures SplitOn(key + ":" + text, ':') == [key, text]
  {
    var line := key + ":" + text;
    FindAfterFree(key, text, ':');
    assert line[|key|] == ':';
    assert line[..|key|] == key && line[|key| + 1..] == text;
  }

  lemma StripWord(w: string)
    requires NoSpace(w)
    ensures Strip(w) == w
  {
  }

  /** `str(n)` has no whitespace and no colon. */
  lemma DecimalWord(n: int)
    ensures NoSpace(Decimal(n)) && ':' !in Decimal(n)
  {
    var digits := Numeral(if n < 0 then -n else n, 10);
    assert forall k :: 0 <= k < |digits| ==> DigitValue(digits[k]) < 10;
    assert forall k :: 0 <= k < |digits| ==> '0' <= digits[k] <= '9';
    if n < 0 {
      assert Decimal(n) == "-" + digits;
      assert forall k :: 1 <= k < |Decimal(n)| ==> Decimal(n)[k] == digits[k - 1];
    }
  }

  /** Inside the data section a line with two or more colons fails to
      unpack into a label and a value. */
  lemma TwoColons(lines: seq<string>, line: string)
    requires ScanData(lines).Ok? && ScanData(lines).value.inData && !IsMarker(line)
    requires multiset(line)[':'] >= 2
    ensures ScanData(lines + [line]) == Err(MalformedDeclaration(|lines|, line))
  {
    ScanDataSnoc(lines, line);
    SplitOnCount(line, ':');
    assert ':' in multiset(line);
  }

  /** Inside the data section a line without a colon is dropped. */
  lemma NoColon(lines: seq<string>, line: string)
    requires ScanData(lines).Ok? && ScanData(lines).value.inData && !IsMarker(line)
    requires ':' !in line
    ensures ScanData(lines + [line]) == ScanData(lines)
  {
    ScanDataSnoc(lines, line);
  }

  // ---- create_label_table ----

  /** The variables of `create_label_table` after some lines: the label
      table and the program lines without their labels. */
  datatype LabelScan = LabelScan(labels: map<string, nat>, program: seq<string>)

  /** `line.split(':', 1)`, for a line holding a colon. */
  function SplitFirst(line: string): (r: (string, string))
    requires ':' in line
    ensures line == r.0 + ":" + r.1 && ':' !in r.0
  {
    var i := Find(line, ':');
    assert line == line[..i] + [line[i]] + line[i + 1..];
    (line[..i], line[i + 1..])
  }

  /** The label a line defines: the stripped text before its first colon,
      when that is not blank. */
  function LabelOf(line: string): Option<string> {
    if ':' in line && Strip(SplitFirst(line).0) != [] then Some(Strip(SplitFirst(line).0)) else None
  }

  /** The code of a line: after the first colon, stripped, when it has one. */
  function CodeOf(line: string): string {
    if ':' in line then Strip(SplitFirst(line).1) else line
  }

  /** Every label names an instruction or the end of the program, and no
      program line is blank. */
  predicate WellFormed(s: LabelScan) {
    && (forall key :: key in s.labels ==> s.labels[key] <= |s.program|)
    && (forall k :: 0 <= k < |s.program| ==> s.program[k] != [])
  }

  /** The effect of one line: its label, if any, is mapped to the index the
      next instruction takes, and its code, if any, is that instruction. */
  function LabelStep(s: LabelScan, line: string): (r: LabelScan)
    ensures WellFormed(s) ==> WellFormed(r)
    ensures r.program == s.program || r.program == s.program + [CodeOf(line)]
  {
    var labels := match LabelOf(line)
      case Some(key) => s.labels[key := |s.program|]
      case None => s.labels;
    var code := CodeOf(line);
    LabelsBelow(s.labels, LabelOf(line), |s.program|);
    if code != [] then LabelScan(labels, s.program + [code]) else LabelScan(labels, s.program)
  }

  lemma LabelsBelow(labels: map<string, nat>, key: Option<string>, n: nat)
    ensures var updated := match key case Some(k) => labels[k := n] case None => labels;
      (forall name :: name in labels ==> labels[name] <= n) ==>
        forall name :: name in updated ==> updated[name] <= n
  {
  }

  /** The scan of `create_label_table` over `lines`, from state `s`. */
  function RunLabels(s: LabelScan, lines: seq<string>): (r: LabelScan)
    ensures WellFormed(s) ==> WellFormed(r)
    ensures |s.program| <= |r.program| <= |s.program| + |lines|
    ensures r.program[..|s.program|] == s.program
  {
    if lines == [] then s
    else LabelStep(RunLabels(s, lines[..|lines| - 1]), lines[|lines| - 1])
  }

  /** What `create_label_table` returns for `lines`. */
  function LabelTable(lines: seq<string>): (r: LabelScan)
    ensures WellFormed(r) && |r.program| <= |lines|
  {
    RunLabels(LabelScan(map[], []), lines)
  }

  method CreateLabelTable(lines: seq<string>) returns (labels: map<string, nat>, out: seq<string>)
    ensures LabelScan(labels, out) == LabelTable(lines)
  {
    labels := map[];
    out := [];
    var instructionCount: nat := 0;
    for i := 0 to |lines|
      invariant instructionCount == |out|
      invariant LabelScan(labels, out) == LabelTable(lines[..i])
    {
      var line := lines[i];
      assert lines[..i + 1][..i] == lines[..i];
      if ':' in line {
        var pieces := SplitFirst(line);
        var key := Strip(pieces.0);
        if key != [] {
          labels := labels[key := instructionCount];
        }
        line := Strip(pieces.1);
      }
      if line != [] {
        out := out + [line];
        instructionCount := instructionCount + 1;
      }
    }
    assert lines[..|lines|] == lines;
  }

  /** Scanning a concatenation is scanning its parts in turn. */
  lemma {:induction false} RunLabelsConcat(s: LabelScan, a: seq<string>, b: seq<string>)
    ensures RunLabels(s, a + b) == RunLabels(RunLabels(s, a), b)
    decreases |b|
  {
    if b == [] {
      assert a + b == a;
    } else {
      var init := b[..|b| - 1];
      assert (a + b)[..|a + b| - 1] == a + init;
      assert (a + b)[|a + b| - 1] == b[|b| - 1];
      RunLabelsConcat(s, a, init);
    }
  }

  /** The program lines do not depend on the labels found so far. */
  lemma {:induction false} RunLabelsProgram(s: LabelScan, lines: seq<string>)
    ensures RunLabels(s, lines).program == s.program + RunLabels(LabelScan(map[], []), lines).program
    decreases |lines|
  {
    if lines != [] {
      RunLabelsProgram(s, lines[..|lines| - 1]);
    }
  }

  /** A later line that defines no `name` leaves its address alone. */
  lemma {:induction false} RunLabelsKeeps(s: LabelScan, lines: seq<string>, name: string)
    requires name in s.labels
    requires forall k :: 0 <= k < |lines| ==> LabelOf(lines[k]) != Some(name)
    ensures name in RunLabels(s, lines).labels && RunLabels(s, lines).labels[name] == s.labels[name]
    decreases |lines|
  {
    if lines != [] {
      RunLabelsKeeps(s, lines[..|lines| - 1], name);
    }
  }

  /** A line `name: rest` maps `name` to the number of instructions before
      it: the index of the instruction on the same line, or, for a bare
      `name:`, of the next instruction. The program is the instructions of
      the lines before it followed by those of the line and after. */
  lemma LabelledLine(pre: seq<string>, name: string, rest: string, post: seq<string>)
    requires IsWord(name) && ':' !in name
    requires forall k :: 0 <= k < |post| ==> LabelOf(post[k]) != Some(name)
    ensures var t := LabelTable(pre + [name + ":" + rest] + post);
      && name in t.labels
      && t.labels[name] == |LabelTable(pre).program|
      && t.program == LabelTable(pre).program + LabelTable([name + ":" + rest] + post).program
  {
    var line := name + ":" + rest;
    var start := LabelScan(map[], []);
    var before := LabelTable(pre);
    LabelOfNamed(name, rest);
    var mid := LabelStep(before, line);
    assert pre + [line] + post == pre + ([line] + post);
    RunLabelsConcat(start, pre, [line] + post);
    RunLabelsConcat(before, [line], post);
    RunLabelsOne(before, line);
    RunLabelsKeeps(mid, post, name);
    RunLabelsProgram(before, [line] + post);
  }

  lemma RunLabelsOne(s: LabelScan, line: string)
    ensures RunLabels(s, [line]) == LabelStep(s, line)
  {
    assert [line][..0] == [];
  }

  /** `name: rest` defines `name`. */
  lemma LabelOfNamed(name: string, rest: string)
    requires IsWord(name) && ':' !in name
    ensures LabelOf(name + ":" + rest) == Some(name)
  {
    var line := name + ":" + rest;
    assert line[|name|] == ':';
    FindAfterFree(name, rest, ':');
    assert line[..|name|] == name;
    StripWord(name);
  }
}
