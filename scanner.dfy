/**
 * The per-file scan of gogrep's `searchFile` (gogrep/main.go): a file is read line by
 * line with `bufio.Reader.ReadString('\n')`, every complete line is run through the
 * compiled pattern, and the records the goroutine would send on the results channel
 * are appended, in order, to the sequence the method returns.
 */
module Scanner {
  import opened Wrappers
  import opened Text

  /** The command-line options of `grepOptions`. */
  datatype Options = Options(
    caseInsensitive: bool,
    invertMatch: bool,
    lineNumbers: bool,
    onlyMatch: bool,
    countMatches: bool,
    matchWholeWords: bool,
    recursive: bool,
    concurrency: int)

  /** A compiled regular expression, seen only through `FindAllString(s, -1)`. */
  type Matcher = string -> seq<string>

  /**
   * A read error that `ReadString` reports on its call after `after` complete lines
   * have been handed back (unless end of file comes first).
   */
  datatype ReadFailure = ReadFailure(after: nat, message: string)

  /** What opening a path yields: an open error, or content that may fail part way. */
  datatype Source =
    | Unopenable(message: string)
    | Readable(content: string, failure: Option<ReadFailure>)

  /** Whether the read failure is reached before end of file, given the file's complete lines. */
  predicate FailsWithin(failure: Option<ReadFailure>, lines: seq<string>)
  {
    failure.Some? && failure.value.after <= |lines|
  }

  // ---------------------------------------------------------------------------
  // Records, formatted as the `fmt.Sprintf` calls of searchFile format them.

  function OpenError(path: string, message: string): string
  {
    "Error opening file " + path + ": " + message
  }

  function ReadError(path: string, message: string): string
  {
    "Error reading file " + path + ": " + message
  }

  function CountRecord(path: string, count: nat): string
  {
    path + ":" + Decimal(count)
  }

  // ---------------------------------------------------------------------------
  // The specification of a scan.

  /** The selection rule: a line is kept when it has a match, or none under -v. */
  predicate Selected(re: Matcher, invert: bool, line: string)
  {
    (invert && |re(line)| == 0) || (!invert && |re(line)| > 0)
  }

  /** The record for selected line number `n`: -n wins over -o, which wins over the plain line. */
  function Render(path: string, options: Options, re: Matcher, n: nat, line: string): string
  {
    if options.lineNumbers then path + ":" + Decimal(n) + ":" + line
    else if options.onlyMatch then path + ":" + Join(re(line), " ")
    else path + ":" + line
  }

  /** The per-line records for `lines`, the last of which is line number |lines|. */
  function Emitted(path: string, options: Options, re: Matcher, lines: seq<string>): seq<string>
    decreases |lines|
  {
    if lines == [] then []
    else
      var n := |lines|;
      var line := lines[n - 1];
      Emitted(path, options, re, lines[..n - 1])
        + (if Selected(re, options.invertMatch, line) && !options.countMatches
           then [Render(path, options, re, n, line)] else [])
  }

  /** How many of `lines` the selection rule keeps. */
  function SelectedCount(re: Matcher, invert: bool, lines: seq<string>): nat
    decreases |lines|
  {
    if lines == [] then 0
    else
      SelectedCount(re, invert, lines[..|lines| - 1])
        + (if Selected(re, invert, lines[|lines| - 1]) then 1 else 0)
  }

  /** Scanning one more line appends that line's record, if any, and counts it if selected. */
  lemma ScanStep(path: string, options: Options, re: Matcher, done: seq<string>, line: string)
    ensures Emitted(path, options, re, done + [line]) == Emitted(path, options, re, done)
      + (if Selected(re, options.invertMatch, line) && !options.countMatches
         then [Render(path, options, re, |done| + 1, line)] else [])
    ensures SelectedCount(re, options.invertMatch, done + [line])
      == SelectedCount(re, options.invertMatch, done) + (if Selected(re, options.invertMatch, line) then 1 else 0)
  {
    assert (done + [line])[..|done|] == done;
  }

  /** The complete lines the scan gets to before a read failure stops it. */
  function Scanned(content: string, failure: Option<ReadFailure>): seq<string>
  {
    var lines := Lines(content);
    if FailsWithin(failure, lines) then lines[..failure.value.after] else lines
  }

  /** Everything searchFile sends for one file, in the order it sends it. */
  function FileRecords(path: string, src: Source, options: Options, re: Matcher): seq<string>
  {
    match src
    case Unopenable(message) => [OpenError(path, message)]
    case Readable(content, failure) =>
      var scanned := Scanned(content, failure);
      Emitted(path, options, re, scanned)
        + (if FailsWithin(failure, Lines(content)) then [ReadError(path, failure.value.message)] else [])
        + (if options.countMatches
           then [CountRecord(path, SelectedCount(re, options.invertMatch, scanned))] else [])
  }

  // ---------------------------------------------------------------------------
  // The reader and the scan loop.

  datatype ReadStatus = Line | Eof | Failed(message: string)

  /** A `bufio.Reader` over a file's content, read with `ReadString('\n')`. */
  class LineReader {
    const content: string
    const failure: Option<ReadFailure>
    var pos: nat
    /** Complete lines handed back so far. */
    var count: nat

    ghost predicate Valid()
      reads this
    {
      pos <= |content|
    }

    constructor (content: string, failure: Option<ReadFailure>)
      ensures Valid() && this.content == content && this.failure == failure
      ensures pos == 0 && count == 0
    {
      this.content := content;
      this.failure := failure;
      pos := 0;
      count := 0;
    }

    /**
     * Reads up to and including the next '\n'. Without one, the rest of the content
     * comes back with Eof; the injected failure comes back with Failed instead.
     */
    method ReadString() returns (line: string, status: ReadStatus)
      requires Valid()
      modifies this
      ensures Valid()
      ensures status.Failed? <==> failure.Some? && failure.value.after == old(count)
      ensures status.Failed? ==> status.message == failure.value.message && pos == old(pos)
      ensures status.Line? ==> old(pos) < pos && line == content[old(pos)..pos]
      ensures status.Line? ==> count == old(count) + 1 && Lines(content[old(pos)..]) == [line] + Lines(content[pos..])
      ensures status.Eof? ==> Lines(content[old(pos)..]) == [] && line == content[old(pos)..]
      ensures !status.Line? ==> count == old(count)
      ensures status.Eof? ==> pos == |content|
      ensures status.Failed? ==> line == ""
    {
      if failure.Some? && failure.value.after == count {
        return "", Failed(failure.value.message);
      }
      var start := pos;
      var i := NextNewline(content, start);
      if i == |content| {
        EndOfContent(content, start);
        line, status := content[start..], Eof;
        pos := |content|;
      } else {
        LinesFrom(content, start, i);
        line, status := content[start..i + 1], Line;
        pos, count := i + 1, count + 1;
        assert Lines(content[start..]) == [line] + Lines(content[pos..]);
      }
    }
  }

  /** The position of the first '\n' at or after `from`, or |s| when there is none. */
  method NextNewline(s: string, from: nat) returns (i: nat)
    requires from <= |s|
    ensures from <= i <= |s| && '\n' !in s[from..i]
    ensures i < |s| ==> s[i] == '\n'
  {
    i := from;
    while i < |s| && s[i] != '\n'
      invariant from <= i <= |s|
      invariant '\n' !in s[from..i]
    {
      assert s[from..i + 1] == s[from..i] + [s[i]];
      i := i + 1;
    }
  }

  /** With no '\n' left after `pos`, no line remains. */
  lemma EndOfContent(content: string, pos: nat)
    requires pos <= |content| && '\n' !in content[pos..|content|]
    ensures Lines(content[pos..]) == []
  {
    assert content[pos..] == content[pos..|content|];
    NoLinesWithoutNewline(content[pos..]);
  }

  /** A read failure due after the lines read so far stops the scan there. */
  lemma ScannedAtFailure(content: string, failure: Option<ReadFailure>, done: seq<string>, rest: seq<string>)
    requires Lines(content) == done + rest
    requires failure.Some? && failure.value.after == |done|
    ensures FailsWithin(failure, Lines(content)) && Scanned(content, failure) == done
  {
    assert (done + rest)[..|done|] == done;
  }

  /** End of file reached before the read failure: every line was scanned. */
  lemma ScannedAtEnd(content: string, failure: Option<ReadFailure>, done: seq<string>)
    requires Lines(content) == done
    requires failure.Some? ==> failure.value.after > |done|
    ensures !FailsWithin(failure, Lines(content)) && Scanned(content, failure) == done
  {
  }

  /**
   * searchFile: open the file, read complete lines until end of file or a read error,
   * send one record per selected line (or count them under -c), and under -c send the
   * count last.
   */
  method SearchFile(path: string, src: Source, options: Options, re: Matcher) returns (results: seq<string>)
    ensures results == FileRecords(path, src, options, re)
    ensures src.Unopenable? ==> results == [OpenError(path, src.message)]
    ensures src.Readable? && options.countMatches ==>
      results[|results| - 1] == CountRecord(path, SelectedCount(re, options.invertMatch, Scanned(src.content, src.failure)))
  {
    results := [];
    if src.Unopenable? {
      results := results + [OpenError(path, src.message)];
      return;
    }
    var reader := new LineReader(src.content, src.failure);
    var matchCount;
    ghost var done, rest, failed;
    results, matchCount, done, rest, failed := ScanLines(path, reader, options, re);
    if failed {
      ScannedAtFailure(src.content, src.failure, done, rest);
    } else {
      ScannedAtEnd(src.content, src.failure, done);
    }
    RecordsAfterScan(path, src.content, src.failure, options, re, done, failed);
    if options.countMatches {
      results := results + [CountRecord(path, matchCount)];
    }
  }

  /**
   * The read loop of searchFile: the records it sends, the -c counter, and, as ghost
   * results, the lines it got through, the lines left and whether a read error ended it.
   */
  method ScanLines(path: string, reader: LineReader, options: Options, re: Matcher)
    returns (results: seq<string>, matchCount: nat, ghost done: seq<string>, ghost rest: seq<string>, ghost failed: bool)
    requires reader.Valid() && reader.pos == 0 && reader.count == 0
    modifies reader
    ensures Lines(reader.content) == done + rest
    ensures failed ==> reader.failure.Some? && reader.failure.value.after == |done|
    ensures !failed ==> rest == [] && (reader.failure.Some? ==> reader.failure.value.after > |done|)
    ensures results == Emitted(path, options, re, done)
      + (if failed then [ReadError(path, reader.failure.value.message)] else [])
    ensures matchCount == if options.countMatches then SelectedCount(re, options.invertMatch, done) else 0
  {
    results := [];
    var lineNumber := 0;
    matchCount := 0;
    done, failed := [], false;
    assert reader.content[0..] == reader.content;
    while true
      invariant reader.Valid()
      invariant Lines(reader.content) == done + Lines(reader.content[reader.pos..])
      invariant lineNumber == reader.count == |done|
      invariant reader.failure.Some? ==> reader.failure.value.after >= |done|
      invariant results == Emitted(path, options, re, done)
      invariant matchCount == if options.countMatches then SelectedCount(re, options.invertMatch, done) else 0
      decreases |reader.content| - reader.pos
    {
      var line, status := reader.ReadString();
      if status.Failed? {
        results := results + [ReadError(path, status.message)];
        failed := true;
        rest := Lines(reader.content[reader.pos..]);
        break;
      }
      if status.Eof? {
        rest := [];
        assert Lines(reader.content) == done + rest;
        break;
      }
      AppendAssoc(done, [line], Lines(reader.content[reader.pos..]));
      ScanStep(path, options, re, done, line);
      done := done + [line];
      lineNumber := lineNumber + 1;
      var matches := re(line);
      if (options.invertMatch && |matches| == 0) || (!options.invertMatch && |matches| > 0) {
        assert Selected(re, options.invertMatch, line);
        if options.countMatches {
          matchCount := matchCount + 1;
          continue;
        }
        var output: string;
        if options.lineNumbers {
          output := path + ":" + Decimal(lineNumber) + ":" + line;
        } else if options.onlyMatch {
          output := path + ":" + Join(matches, " ");
        } else {
          output := path + ":" + line;
        }
        assert output == Render(path, options, re, lineNumber, line);
        results := results + [output];
      } else {
        assert !Selected(re, options.invertMatch, line);
      }
    }
  }

  /** The records of a readable file, given the lines the scan got through and whether it failed. */
  lemma RecordsAfterScan(path: string, content: string, failure: Option<ReadFailure>, options: Options, re: Matcher,
                         done: seq<string>, failed: bool)
    requires Scanned(content, failure) == done && (failed <==> FailsWithin(failure, Lines(content)))
    ensures FileRecords(path, Readable(content, failure), options, re)
      == Emitted(path, options, re, done)
        + (if failed then [ReadError(path, failure.value.message)] else [])
        + (if options.countMatches then [CountRecord(path, SelectedCount(re, options.invertMatch, done))] else [])
  {
  }

  // ---------------------------------------------------------------------------
  // A second description of the scan: number every line, keep the selected ones,
  // render each kept line.

  datatype NumberedLine = NumberedLine(number: nat, text: string)

  /** Every complete line with its 1-based line number. */
  function Numbered(lines: seq<string>): seq<NumberedLine>
  {
    seq(|lines|, i requires 0 <= i < |lines| => NumberedLine(i + 1, lines[i]))
  }

  /** The numbered lines the selection rule keeps, in file order. */
  function Kept(re: Matcher, invert: bool, ls: seq<NumberedLine>): seq<NumberedLine>
  {
    if ls == [] then []
    else (if Selected(re, invert, ls[0].text) then [ls[0]] else []) + Kept(re, invert, ls[1..])
  }

  function RenderAll(path: string, options: Options, re: Matcher, ls: seq<NumberedLine>): seq<string>
  {
    seq(|ls|, i requires 0 <= i < |ls| => Render(path, options, re, ls[i].number, ls[i].text))
  }

  lemma {:induction false} KeptAppend(re: Matcher, invert: bool, a: seq<NumberedLine>, b: seq<NumberedLine>)
    ensures Kept(re, invert, a + b) == Kept(re, invert, a) + Kept(re, invert, b)
    decreases |a|
  {
    if a != [] {
      assert (a + b)[0] == a[0] && (a + b)[1..] == a[1..] + b;
      KeptAppend(re, invert, a[1..], b);
      AppendAssoc(if Selected(re, invert, a[0].text) then [a[0]] else [], Kept(re, invert, a[1..]), Kept(re, invert, b));
    } else {
      assert a + b == b;
    }
  }

  lemma NumberedSnoc(lines: seq<string>, line: string)
    ensures Numbered(lines + [line]) == Numbered(lines) + [NumberedLine(|lines| + 1, line)]
  {
  }

  lemma RenderAllAppend(path: string, options: Options, re: Matcher, a: seq<NumberedLine>, b: seq<NumberedLine>)
    ensures RenderAll(path, options, re, a + b) == RenderAll(path, options, re, a) + RenderAll(path, options, re, b)
  {
  }

  /**
   * Outside count mode the scan sends exactly one record per selected line, in line
   * order, each rendered with that line's 1-based number (line numbers advance on
   * every complete line, selected or not).
   */
  lemma {:induction false} EmittedIsRenderedSelection(path: string, options: Options, re: Matcher, lines: seq<string>)
    requires !options.countMatches
    ensures Emitted(path, options, re, lines)
      == RenderAll(path, options, re, Kept(re, options.invertMatch, Numbered(lines)))
    decreases |lines|
  {
    if lines != [] {
      var n := |lines|;
      var init, last := lines[..n - 1], lines[n - 1];
      assert lines == init + [last];
      EmittedIsRenderedSelection(path, options, re, init);
      NumberedSnoc(init, last);
      var single := NumberedLine(n, last);
      KeptAppend(re, options.invertMatch, Numbered(init), [single]);
      assert Kept(re, options.invertMatch, [single])
        == if Selected(re, options.invertMatch, last) then [single] else [];
      RenderAllAppend(path, options, re, Kept(re, options.invertMatch, Numbered(init)),
        Kept(re, options.invertMatch, [single]));
    }
  }

  /** The count the scan keeps is the number of lines the selection rule keeps. */
  lemma {:induction false} SelectedCountIsKept(re: Matcher, invert: bool, lines: seq<string>)
    ensures SelectedCount(re, invert, lines) == |Kept(re, invert, Numbered(lines))|
    decreases |lines|
  {
    if lines != [] {
      var n := |lines|;
      var init, last := lines[..n - 1], lines[n - 1];
      assert lines == init + [last];
      SelectedCountIsKept(re, invert, init);
      NumberedSnoc(init, last);
      KeptAppend(re, invert, Numbered(init), [NumberedLine(n, last)]);
    }
  }

  /** Every complete line is selected in exactly one of the two modes, -v or not. */
  lemma {:induction false} InvertComplements(re: Matcher, lines: seq<string>)
    ensures SelectedCount(re, true, lines) + SelectedCount(re, false, lines) == |lines|
    decreases |lines|
  {
    if lines != [] {
      InvertComplements(re, lines[..|lines| - 1]);
    }
  }

  /** In count mode no per-line record is sent. */
  lemma {:induction false} CountModeSendsNoLineRecords(path: string, options: Options, re: Matcher, lines: seq<string>)
    requires options.countMatches
    ensures Emitted(path, options, re, lines) == []
    decreases |lines|
  {
    if lines != [] {
      CountModeSendsNoLineRecords(path, options, re, lines[..|lines| - 1]);
    }
  }

  /**
   * Count mode sends one record `path:N`, where N is the number of records the
   * same scan sends without -c (zero included), when no read error intervenes.
   */
  lemma CountIsDefaultModeRecordCount(path: string, content: string, failure: Option<ReadFailure>, options: Options, re: Matcher)
    requires !FailsWithin(failure, Lines(content))
    ensures FileRecords(path, Readable(content, failure), options.(countMatches := true), re)
      == [CountRecord(path, |FileRecords(path, Readable(content, failure), options.(countMatches := false), re)|)]
  {
    var lines := Lines(content);
    var counting, listing := options.(countMatches := true), options.(countMatches := false);
    CountModeSendsNoLineRecords(path, counting, re, lines);
    EmittedIsRenderedSelection(path, listing, re, lines);
    SelectedCountIsKept(re, options.invertMatch, lines);
  }

  /** With -n the record is `path:n:line` whether or not -o is also given. */
  lemma {:induction false} LineNumbersOverrideOnlyMatch(path: string, options: Options, re: Matcher, lines: seq<string>)
    requires options.lineNumbers
    ensures Emitted(path, options.(onlyMatch := true), re, lines) == Emitted(path, options.(onlyMatch := false), re, lines)
    decreases |lines|
  {
    if lines != [] {
      LineNumbersOverrideOnlyMatch(path, options, re, lines[..|lines| - 1]);
    }
  }

  /** The records for the first k lines are a prefix of the records for all of them. */
  lemma {:induction false} EmittedPrefix(path: string, options: Options, re: Matcher, lines: seq<string>, k: nat)
    requires k <= |lines|
    ensures Emitted(path, options, re, lines[..k]) <= Emitted(path, options, re, lines)
    decreases |lines|
  {
    if k < |lines| {
      var init := lines[..|lines| - 1];
      assert lines[..k] == init[..k];
      EmittedPrefix(path, options, re, init, k);
    } else {
      assert lines[..k] == lines;
    }
  }

  /**
   * A read error ends the scan with one error record; the records sent before it
   * are those an error-free read of the same content starts with, and under -c the
   * count of the lines read so far still follows the error record.
   */
  lemma ReadErrorKeepsEarlierRecords(path: string, content: string, failure: ReadFailure, options: Options, re: Matcher)
    requires failure.after <= |Lines(content)|
    ensures var r := FileRecords(path, Readable(content, Some(failure)), options, re);
      !options.countMatches ==>
        |r| > 0 && r[|r| - 1] == ReadError(path, failure.message)
        && r[..|r| - 1] <= FileRecords(path, Readable(content, None), options, re)
    ensures options.countMatches ==>
      FileRecords(path, Readable(content, Some(failure)), options, re)
        == [ReadError(path, failure.message),
            CountRecord(path, SelectedCount(re, options.invertMatch, Lines(content)[..failure.after]))]
  {
    var lines := Lines(content);
    var scanned := lines[..failure.after];
    if options.countMatches {
      CountModeSendsNoLineRecords(path, options, re, scanned);
    } else {
      var r := FileRecords(path, Readable(content, Some(failure)), options, re);
      assert r == Emitted(path, options, re, scanned) + [ReadError(path, failure.message)];
      assert r[..|r| - 1] == Emitted(path, options, re, scanned);
      EmittedPrefix(path, options, re, lines, failure.after);
    }
  }

  /**
   * Text after the last '\n' is never scanned: appending an unterminated tail to a
   * file changes nothing the scan sends.
   */
  lemma TrailingTextIgnored(path: string, body: string, tail: string, failure: Option<ReadFailure>, options: Options, re: Matcher)
    requires body == [] || body[|body| - 1] == '\n'
    requires '\n' !in tail
    ensures FileRecords(path, Readable(body + tail, failure), options, re)
      == FileRecords(path, Readable(body, failure), options, re)
  {
    LinesAppend(body, tail);
    NoLinesWithoutNewline(tail);
    assert Lines(body + tail) == Lines(body);
  }
}
