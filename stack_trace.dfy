/** The code-snippet extractor of `utils/stackTrace.js`: drop runtime and library frames from
    a stack trace, take the first remaining frame, read its source file and render the lines
    within four of the failing line, each as `"\n     <n> | <code>"`. Any failure gives `""`.

    What lies outside this file becomes a parameter: the `stacktrace-parser` grammar is
    `parse`, a function from the filtered trace to its frames in top-to-bottom order, and the
    file system is `files`, the text of every readable path. */
module StackTrace {
  import opened Wrappers
  import opened Seqs
  import opened Text

  /** One call site as the parser reports it. */
  datatype Frame = Frame(file: string, lineNumber: int, column: int)

  /** One `{line_number, code}` record of the snippet. */
  datatype CodeLine = CodeLine(lineNumber: nat, code: string)

  /** The record `formatStackTrace` builds. */
  datatype FormattedStack = FormattedStack(filePath: string, errorLineNumber: int, codeSnippet: seq<CodeLine>)

  /** Substrings marking a line of the trace as runtime or dependency noise. */
  const DENY_LIST: seq<string> := [
    "node_modules",
    "(node.js:",
    "(timers.js:",
    "(events.js:",
    "(util.js:",
    "(net.js:",
    "(internal/process/",
    "internal/modules/cjs/loader.js",
    "internal/modules/cjs/helpers.js",
    "internal/timers.js",
    "_http_client.js:",
    "process._tickCallback",
    "node:internal/"
  ]

  /** Some entry of `texts` occurs literally in `line`. */
  predicate IsNoise(line: string, texts: seq<string>) {
    exists k :: 0 <= k < |texts| && Includes(line, texts[k])
  }

  /** `contains(str, text)` with `text` an array: the entries are tried in order and the first
      hit returns `true`; when none hits, the call falls through to `str.includes(text)`, which
      turns the array into its comma-joined string. */
  method Contains(str: string, texts: seq<string>) returns (found: bool)
    ensures found <==> |texts| == 0 || IsNoise(str, texts)
  {
    for i := 0 to |texts|
      invariant forall k :: 0 <= k < i ==> !Includes(str, texts[k])
    {
      if Includes(str, texts[i]) {
        return true;
      }
    }
    found := Includes(str, Join(texts, ','));
    CoercedListMatch(str, texts);
  }

  /** The fall-through test on the comma-joined list adds no match for a non-empty list and
      matches every string for an empty one. */
  lemma CoercedListMatch(str: string, texts: seq<string>)
    ensures |texts| == 0 ==> Includes(str, Join(texts, ','))
    ensures |texts| > 0 && Includes(str, Join(texts, ',')) ==> Includes(str, texts[0])
  {
    if |texts| == 0 {
      assert OccursAt("", str, 0);
    } else {
      var joined := Join(texts, ',');
      JoinStartsWithFirst(texts, ',');
      OccursAtStart(texts[0], joined);
      if Includes(str, joined) {
        SubstringTransitive(texts[0], joined, str);
      }
    }
  }

  lemma JoinStartsWithFirst(parts: seq<string>, sep: char)
    requires |parts| > 0
    ensures parts[0] <= Join(parts, sep)
  {
    if |parts| > 1 {
      var rest := [sep] + Join(parts[1..], sep);
      assert Join(parts, sep) == parts[0] + rest;
      assert (parts[0] + rest)[..|parts[0]|] == parts[0];
    }
  }

  /** A line `stackTraceFilter` keeps. */
  predicate Kept(line: string) {
    !IsNoise(line, DENY_LIST)
  }

  /** The trace with its noise lines removed: the specification of `filterStackTrace`. */
  function FilteredTrace(stackTrace: string): (r: string) {
    Join(Filter(Split(stackTrace, '\n'), Kept), '\n')
  }

  /** `stackTraceFilter`: push every line that `contains` no deny-list entry, then join. */
  method StackTraceFilter(parts: seq<string>) returns (stack: string)
    ensures stack == Join(Filter(parts, Kept), '\n')
  {
    var list: seq<string> := [];
    for i := 0 to |parts|
      invariant list == Filter(parts[..i], Kept)
    {
      var noise := Contains(parts[i], DENY_LIST);
      if !noise {
        list := list + [parts[i]];
      }
      assert parts[..i + 1] == parts[..i] + [parts[i]];
      FilterSnoc(parts[..i], parts[i], Kept);
    }
    assert parts[..|parts|] == parts;
    stack := Join(list, '\n');
  }

  /** `filterStackTrace`: split on `'\n'` and filter. */
  method FilterStackTrace(stackTrace: string) returns (filtered: string)
    ensures filtered == FilteredTrace(stackTrace)
  {
    var sections := Split(stackTrace, '\n');
    filtered := StackTraceFilter(sections);
  }

  /** The filtered trace is exactly the input's non-noise lines, in their original order: the
      input lines read at strictly increasing positions `idx`, a position being read iff its
      line is not noise. Of `N` lines with `K` noise lines, `N - K` remain; and when some
      remain, splitting the filtered trace again gives exactly them. */
  lemma FilterKeepsQuietLines(stackTrace: string) returns (idx: seq<nat>)
    ensures var lines := Split(stackTrace, '\n');
            var kept := Filter(lines, Kept);
            |idx| == |kept| &&
            (forall j :: 0 <= j < |idx| ==> idx[j] < |lines| && kept[j] == lines[idx[j]]) &&
            (forall j, k :: 0 <= j < k < |idx| ==> idx[j] < idx[k]) &&
            (forall i :: 0 <= i < |lines| ==> (!IsNoise(lines[i], DENY_LIST) <==> i in idx)) &&
            |kept| == |lines| - Dropped(lines, Kept) &&
            (|kept| > 0 ==> Split(FilteredTrace(stackTrace), '\n') == kept) &&
            (|kept| == 0 ==> FilteredTrace(stackTrace) == "")
  {
    var lines := Split(stackTrace, '\n');
    idx := FilterSelects(lines, Kept);
    FilterLength(lines, Kept);
    KeptLinesHaveNoNewline(lines);
    if |Filter(lines, Kept)| > 0 {
      SplitJoin(Filter(lines, Kept), '\n');
    }
  }

  lemma KeptLinesHaveNoNewline(lines: seq<string>)
    requires forall i :: 0 <= i < |lines| ==> '\n' !in lines[i]
    ensures forall i :: 0 <= i < |Filter(lines, Kept)| ==> '\n' !in Filter(lines, Kept)[i]
  {
    var kept := Filter(lines, Kept);
    forall i | 0 <= i < |kept|
      ensures '\n' !in kept[i]
    {
      assert kept[i] in kept;
      var j :| 0 <= j < |lines| && lines[j] == kept[i];
    }
  }

  /** The empty line is never noise: no deny-list entry is empty. */
  lemma EmptyLineKept()
    ensures Kept("")
  {
    forall k | 0 <= k < |DENY_LIST|
      ensures !Includes("", DENY_LIST[k])
    {
      assert |DENY_LIST[k]| > 0;
    }
  }

  /** Filtering an already filtered trace changes nothing. */
  lemma FilterIdempotentTrace(stackTrace: string)
    ensures FilteredTrace(FilteredTrace(stackTrace)) == FilteredTrace(stackTrace)
  {
    var kept := Filter(Split(stackTrace, '\n'), Kept);
    var _ := FilterKeepsQuietLines(stackTrace);
    if |kept| > 0 {
      FilterIdempotent(Split(stackTrace, '\n'), Kept);
    } else {
      EmptyLineKept();
      assert Split("", '\n') == [""];
      assert Filter([""], Kept) == [""];
    }
  }

  /** A trace made only of noise lines filters to the empty string. */
  lemma NoiseOnlyTraceFiltersToEmpty(stackTrace: string)
    requires forall i :: 0 <= i < |Split(stackTrace, '\n')| ==> IsNoise(Split(stackTrace, '\n')[i], DENY_LIST)
    ensures FilteredTrace(stackTrace) == ""
  {
    FilterNone(Split(stackTrace, '\n'), Kept);
  }

  /** The inclusive range four lines either side of the error line. */
  predicate InWindow(lineNumber: int, errorLine: int) {
    errorLine - 4 <= lineNumber <= errorLine + 4
  }

  /** The reference window: every 1-based line number of the file within four of `errorLine`,
      ascending, each with its line verbatim. */
  function Window(lines: seq<string>, errorLine: int): (r: seq<CodeLine>) {
    var first := if errorLine - 4 < 1 then 1 else errorLine - 4;
    var last := if errorLine + 4 > |lines| then |lines| else errorLine + 4;
    if last < first then []
    else seq(last - first + 1, k requires 0 <= k < last - first + 1 => CodeLine(first + k, lines[first + k - 1]))
  }

  /** Everything the window promises: at most nine records, each within four lines of the
      error line and inside the file, carrying its own line verbatim, strictly ascending, and
      every line of the file in range present; the error line itself when it is in the file. */
  lemma WindowBounds(lines: seq<string>, errorLine: int)
    ensures var window := Window(lines, errorLine);
            |window| <= 9 &&
            (forall j :: 0 <= j < |window| ==>
               InWindow(window[j].lineNumber, errorLine) && 1 <= window[j].lineNumber <= |lines| &&
               window[j].code == lines[window[j].lineNumber - 1]) &&
            (forall j, k :: 0 <= j < k < |window| ==> window[j].lineNumber < window[k].lineNumber) &&
            (forall n :: 1 <= n <= |lines| && InWindow(n, errorLine) ==>
               exists j :: 0 <= j < |window| && window[j].lineNumber == n) &&
            (1 <= errorLine <= |lines| ==> CodeLine(errorLine, lines[errorLine - 1]) in window)
  {
    var window := Window(lines, errorLine);
    var first := if errorLine - 4 < 1 then 1 else errorLine - 4;
    forall n | 1 <= n <= |lines| && InWindow(n, errorLine)
      ensures exists j :: 0 <= j < |window| && window[j].lineNumber == n
    {
      assert window[n - first].lineNumber == n;
    }
    if 1 <= errorLine <= |lines| {
      assert window[errorLine - first] == CodeLine(errorLine, lines[errorLine - 1]);
    }
  }

  /** One more line of the file extends the window exactly when its number is in range. */
  lemma WindowStep(lines: seq<string>, i: nat, errorLine: int)
    requires i < |lines|
    ensures Window(lines[..i + 1], errorLine) ==
            Window(lines[..i], errorLine) + (if InWindow(i + 1, errorLine) then [CodeLine(i + 1, lines[i])] else [])
  {
    var a, b := Window(lines[..i], errorLine), Window(lines[..i + 1], errorLine);
    var first := if errorLine - 4 < 1 then 1 else errorLine - 4;
    if InWindow(i + 1, errorLine) {
      assert |b| == |a| + 1;
      forall k | 0 <= k < |b|
        ensures b[k] == (a + [CodeLine(i + 1, lines[i])])[k]
      {
        assert b[k] == CodeLine(first + k, lines[first + k - 1]);
      }
    } else if i + 1 > errorLine + 4 {
      assert |b| == |a|;
      forall k | 0 <= k < |b|
        ensures b[k] == a[k]
      {
        assert b[k] == CodeLine(first + k, lines[first + k - 1]);
      }
    }
  }

  /** `formatStackTrace`: copy the frame's path and line number, and push a record for every
      line of the file whose 1-based number is within four of the frame's line. */
  method FormatStackTrace(errorLinesOfFile: seq<string>, parsedStack: Frame) returns (result: FormattedStack)
    ensures result.filePath == parsedStack.file
    ensures result.errorLineNumber == parsedStack.lineNumber
    ensures result.codeSnippet == Window(errorLinesOfFile, parsedStack.lineNumber)
  {
    var codeSnippet: seq<CodeLine> := [];
    for lineIndex := 0 to |errorLinesOfFile|
      invariant codeSnippet == Window(errorLinesOfFile[..lineIndex], parsedStack.lineNumber)
    {
      var currentLine := lineIndex + 1;
      if currentLine <= parsedStack.lineNumber + 4 && currentLine >= parsedStack.lineNumber - 4 {
        codeSnippet := codeSnippet + [CodeLine(currentLine, errorLinesOfFile[lineIndex])];
      }
      WindowStep(errorLinesOfFile, lineIndex, parsedStack.lineNumber);
    }
    assert errorLinesOfFile[..|errorLinesOfFile|] == errorLinesOfFile;
    result := FormattedStack(parsedStack.file, parsedStack.lineNumber, codeSnippet);
  }

  /** One record as the snippet shows it, without its leading newline. */
  function Row(record: CodeLine): (r: string) {
    "     " + Decimal(record.lineNumber) + " | " + record.code
  }

  /** The records rendered one after another, each as a newline followed by its row. */
  function Rendered(records: seq<CodeLine>): (r: string) {
    if |records| == 0 then ""
    else Rendered(records[..|records| - 1]) + "\n" + Row(records[|records| - 1])
  }

  /** The rows of the records, in order. */
  function Rows(records: seq<CodeLine>): (rows: seq<string>)
    ensures |rows| == |records|
    ensures forall j :: 0 <= j < |records| ==> rows[j] == Row(records[j])
  {
    seq(|records|, j requires 0 <= j < |records| => Row(records[j]))
  }

  /** The test the reducer of `beautifyStackTrace` applies to each record. */
  function Shown(errorLine: int): (r: CodeLine -> bool) {
    (record: CodeLine) => record.lineNumber == errorLine || InWindow(record.lineNumber, errorLine)
  }

  /** The reducer of `beautifyStackTrace`: append every record that passes its test. */
  method RenderSnippet(formattedStack: FormattedStack) returns (desiredLines: string)
    ensures desiredLines == Rendered(Filter(formattedStack.codeSnippet, Shown(formattedStack.errorLineNumber)))
  {
    var snippet, errorLine := formattedStack.codeSnippet, formattedStack.errorLineNumber;
    desiredLines := "";
    for i := 0 to |snippet|
      invariant desiredLines == Rendered(Filter(snippet[..i], Shown(errorLine)))
    {
      var newLine := snippet[i];
      var currentLine := newLine.lineNumber;
      RenderStep(snippet, i, Shown(errorLine));
      if currentLine == errorLine || (currentLine <= errorLine + 4 && currentLine >= errorLine - 4) {
        AppendRow(desiredLines, newLine);
        desiredLines := desiredLines + "\n     " + Decimal(currentLine) + " | " + newLine.code;
      }
    }
    assert snippet[..|snippet|] == snippet;
  }

  lemma RenderStep(records: seq<CodeLine>, i: nat, p: CodeLine -> bool)
    requires i < |records|
    ensures Rendered(Filter(records[..i + 1], p)) ==
            Rendered(Filter(records[..i], p)) + (if p(records[i]) then "\n" + Row(records[i]) else "")
  {
    var before := Filter(records[..i], p);
    assert records[..i + 1] == records[..i] + [records[i]];
    FilterSnoc(records[..i], records[i], p);
    if p(records[i]) {
      RenderedSnoc(before, records[i]);
    } else {
      assert before + [] == before;
      assert Rendered(before) + "" == Rendered(before);
    }
  }

  lemma RenderedSnoc(records: seq<CodeLine>, record: CodeLine)
    ensures Rendered(records + [record]) == Rendered(records) + ("\n" + Row(record))
  {
    var after := records + [record];
    assert after[..|records|] == records && after[|records|] == record;
  }

  lemma AppendRow(prefix: string, record: CodeLine)
    ensures prefix + "\n     " + Decimal(record.lineNumber) + " | " + record.code == prefix + ("\n" + Row(record))
  {
  }

  /** The reducer's test never drops a record of the window. */
  lemma ShownWindow(lines: seq<string>, errorLine: int)
    ensures Filter(Window(lines, errorLine), Shown(errorLine)) == Window(lines, errorLine)
  {
    WindowBounds(lines, errorLine);
    FilterAll(Window(lines, errorLine), Shown(errorLine));
  }

  /** Rendering is joining the rows with a leading newline. */
  lemma {:induction false} RenderedIsJoin(records: seq<CodeLine>)
    ensures Rendered(records) == Join([""] + Rows(records), '\n')
  {
    if |records| > 0 {
      var init := records[..|records| - 1];
      RenderedIsJoin(init);
      assert Rows(records) == Rows(init) + [Row(records[|records| - 1])];
      assert [""] + Rows(records) == ([""] + Rows(init)) + [Row(records[|records| - 1])];
      JoinSnoc([""] + Rows(init), Row(records[|records| - 1]), '\n');
    }
  }

  lemma {:induction false} JoinSnoc(parts: seq<string>, last: string, sep: char)
    requires |parts| >= 1
    ensures Join(parts + [last], sep) == Join(parts, sep) + [sep] + last
  {
    if |parts| > 1 {
      assert (parts + [last])[1..] == parts[1..] + [last];
      JoinSnoc(parts[1..], last, sep);
    } else {
      assert (parts + [last])[1..] == [last];
    }
  }

  /** A rendered snippet puts each record on a line of its own: split on `'\n'`, it is an empty
      first piece followed by the rows of the records, in order. */
  lemma RenderedRows(records: seq<CodeLine>)
    requires forall j :: 0 <= j < |records| ==> '\n' !in records[j].code
    ensures Split(Rendered(records), '\n') == [""] + Rows(records)
  {
    RenderedIsJoin(records);
    var parts := [""] + Rows(records);
    forall i | 0 <= i < |parts|
      ensures '\n' !in parts[i]
    {
      if i > 0 {
        RowHasNoNewline(records[i - 1]);
      }
    }
    SplitJoin(parts, '\n');
  }

  lemma RowHasNoNewline(record: CodeLine)
    requires '\n' !in record.code
    ensures '\n' !in Row(record)
  {
    var d := Decimal(record.lineNumber);
    assert '\n' !in d by {
      forall m | 0 <= m < |d|
        ensures d[m] != '\n'
      {
        assert '0' <= d[m] <= '9';
      }
    }
  }

  /** The extraction with its failures explicit: `None` where the `try` block of
      `beautifyStackTrace` throws, namely when the parser finds no frame (reading a field of
      the missing frame 0) or when the frame's file cannot be read. */
  function Extract(errorStack: string, parse: string -> seq<Frame>, files: map<string, string>): (r: Option<string>) {
    var parsedStacks := parse(FilteredTrace(errorStack));
    if |parsedStacks| == 0 then None
    else if parsedStacks[0].file !in files then None
    else Some(Rendered(Window(SplitLines(files[parsedStacks[0].file]), parsedStacks[0].lineNumber)))
  }

  /** `beautifyStackTrace`: filter, parse, take frame 0, read and split its file, build the
      window and render it; every failure is caught and gives `""`. */
  method BeautifyStackTrace(errorStack: string, parse: string -> seq<Frame>, files: map<string, string>)
    returns (snippet: string)
    ensures snippet == Extract(errorStack, parse, files).GetOr("")
    ensures Extract(errorStack, parse, files) == None ==> snippet == ""
  {
    var filtered := FilterStackTrace(errorStack);
    var parsedStacks := parse(filtered);
    if |parsedStacks| == 0 {
      return "";
    }
    var parsedStack := parsedStacks[0];
    if parsedStack.file !in files {
      return "";
    }
    var file := files[parsedStack.file];
    var errorLinesOfFile := SplitLines(file);
    var formattedStack := FormatStackTrace(errorLinesOfFile, parsedStack);
    snippet := RenderSnippet(formattedStack);
    ShownWindow(errorLinesOfFile, parsedStack.lineNumber);
  }

  /** The extraction fails exactly when the parser finds no frame in the filtered trace or
      the first frame's file cannot be read. */
  lemma ExtractFailsExactly(errorStack: string, parse: string -> seq<Frame>, files: map<string, string>)
    ensures var frames := parse(FilteredTrace(errorStack));
            Extract(errorStack, parse, files) == None <==> |frames| == 0 || frames[0].file !in files
  {
  }

  /** A trace made only of noise yields no snippet, given a parser that finds no frame in the
      empty string. */
  lemma NoiseOnlyTraceGivesNothing(errorStack: string, parse: string -> seq<Frame>, files: map<string, string>)
    requires forall i :: 0 <= i < |Split(errorStack, '\n')| ==> IsNoise(Split(errorStack, '\n')[i], DENY_LIST)
    requires parse("") == []
    ensures Extract(errorStack, parse, files) == None
  {
    NoiseOnlyTraceFiltersToEmpty(errorStack);
  }

  lemma WindowCodes(lines: seq<string>, errorLine: int)
    requires forall i :: 0 <= i < |lines| ==> '\n' !in lines[i]
    ensures forall j :: 0 <= j < |Window(lines, errorLine)| ==> '\n' !in Window(lines, errorLine)[j].code
  {
    var window := Window(lines, errorLine);
    var first := if errorLine - 4 < 1 then 1 else errorLine - 4;
    forall j | 0 <= j < |window|
      ensures '\n' !in window[j].code
    {
      assert window[j].code == lines[first + j - 1];
    }
  }

  /** A successful extraction shows the window of frame 0 line by line: split on `'\n'` it is
      an empty piece followed by the row `"     <n> | <code>"` of each record of the window
      of frame 0's line in its file, in order (`WindowBounds` says which records those are). */
  lemma ExtractShowsWindow(errorStack: string, parse: string -> seq<Frame>, files: map<string, string>)
    requires Extract(errorStack, parse, files).Some?
    ensures var frame := parse(FilteredTrace(errorStack))[0];
            var window := Window(SplitLines(files[frame.file]), frame.lineNumber);
            Split(Extract(errorStack, parse, files).value, '\n') == [""] + Rows(window)
  {
    var frame := parse(FilteredTrace(errorStack))[0];
    var lines := SplitLines(files[frame.file]);
    var window := Window(lines, frame.lineNumber);
    WindowCodes(lines, frame.lineNumber);
    RenderedRows(window);
    assert Extract(errorStack, parse, files).value == Rendered(window);
  }
}
