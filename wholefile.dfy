/**
 * gogrep's alternative entry point `main2` (gogrep/main2.go): it refuses an empty
 * pattern, compiles the pattern (with `(?i)` under -i), walks the root with a callback
 * that skips nested directories unless -r is given and starts a task for every regular
 * file, and each task reads the whole file and prints its path when the pattern
 * matches the content as one string.
 */
module WholeFile {
  import opened Wrappers
  import opened Text
  import opened Scanner
  import opened FileTree
  import Grep

  /** The source `main2` hands `regexp.Compile`. */
  function CompiledSource(pattern: string, caseInsensitive: bool): string
  {
    if caseInsensitive then "(?i)" + pattern else pattern
  }

  /** main2's decoration is main's without -w. */
  lemma SameDecorationAsMain(pattern: string, caseInsensitive: bool)
    ensures CompiledSource(pattern, caseInsensitive) == Grep.Decorate(pattern, caseInsensitive, false)
    ensures caseInsensitive ==> CompiledSource(pattern, caseInsensitive)[4..] == pattern
  {
  }

  /** What `os.ReadFile` returns: the whole content, or the error that stopped it. */
  datatype ReadResult = Data(content: string) | ReadFailed(message: string)

  function ReadFile(src: Source): ReadResult
  {
    match src
    case Unopenable(message) => ReadFailed(message)
    case Readable(content, failure) =>
      if FailsWithin(failure, Lines(content)) then ReadFailed(failure.value.message) else Data(content)
  }

  /** A line a task prints: the path on standard output, or an error on standard error. */
  datatype Report = Matched(path: string) | ErrorLine(text: string)

  /** One task: `MatchString` is true exactly when `FindAllString` finds something. */
  function ReportFor(scan: Scan, re: Matcher): seq<Report>
  {
    match ReadFile(scan.source)
    case ReadFailed(message) => [ErrorLine("Error reading file " + scan.path + ": " + message + "\n")]
    case Data(content) => if |re(content)| > 0 then [Matched(scan.path)] else []
  }

  function Reports(scans: seq<Scan>, re: Matcher): seq<Report>
    decreases |scans|
  {
    if scans == [] then [] else ReportFor(scans[0], re) + Reports(scans[1..], re)
  }

  /** How a run of main2 ends. */
  datatype Run =
    | NoPattern
    | BadPattern(source: string)
    | Searched(source: string, scans: seq<Scan>, reports: seq<Report>)

  /**
   * main2 with its flags: `compile` stands for `regexp.Compile`. The error the walk
   * returns is dropped, as main2 drops it.
   */
  function Main2(pattern: string, rootDir: string, root: Node, recursive: bool, caseInsensitive: bool,
                 compile: string -> Option<Matcher>): Run
  {
    if pattern == "" then NoPattern
    else
      var source := CompiledSource(pattern, caseInsensitive);
      match compile(source)
      case None => BadPattern(source)
      case Some(re) =>
        var scans := Walk(RegularOnly(recursive, rootDir), rootDir, root).scans;
        Searched(source, scans, Reports(scans, re))
  }

  /**
   * An empty pattern, and only an empty pattern, is refused before anything is
   * compiled or walked; a pattern that does not compile ends the run before the walk.
   */
  lemma EmptyPatternRefused(pattern: string, rootDir: string, root: Node, recursive: bool, caseInsensitive: bool,
                            compile: string -> Option<Matcher>)
    ensures Main2(pattern, rootDir, root, recursive, caseInsensitive, compile) == NoPattern <==> pattern == ""
    ensures pattern != "" && compile(CompiledSource(pattern, caseInsensitive)).None? ==>
      Main2(pattern, rootDir, root, recursive, caseInsensitive, compile) == BadPattern(CompiledSource(pattern, caseInsensitive))
  {
  }

  /** Whether a task for `scan` reads the file in full and the pattern matches all of it. */
  predicate ContentMatches(scan: Scan, re: Matcher)
  {
    ReadFile(scan.source).Data? && |re(ReadFile(scan.source).content)| > 0
  }

  /** The reports list `Matched(p)` exactly for the files read in full whose whole content matches. */
  lemma {:induction false} MatchedIffWholeContentMatches(scans: seq<Scan>, re: Matcher, path: string)
    ensures Matched(path) in Reports(scans, re) <==>
      exists i :: 0 <= i < |scans| && scans[i].path == path && ContentMatches(scans[i], re)
    decreases |scans|
  {
    if scans != [] {
      MatchedIffWholeContentMatches(scans[1..], re, path);
      if exists i :: 0 <= i < |scans| && scans[i].path == path && ContentMatches(scans[i], re) {
        var i :| 0 <= i < |scans| && scans[i].path == path && ContentMatches(scans[i], re);
        if i > 0 {
          assert scans[1..][i - 1] == scans[i];
        }
      }
      if Matched(path) in Reports(scans[1..], re) {
        var j :| 0 <= j < |scans[1..]| && scans[1..][j].path == path && ContentMatches(scans[1..][j], re);
        assert scans[j + 1] == scans[1..][j];
      }
    }
  }

  /** A matcher that finds "a\nb" in exactly one string: the content "a\nb\n". */
  function SpanningMatcher(s: string): seq<string>
  {
    if s == "a\nb\n" then ["a\nb"] else []
  }

  /**
   * main2 tests the content as one string, not line by line: with a pattern that
   * spans a line break, main2 reports the file while searchFile sends no record
   * for it.
   */
  lemma WholeContentIsNotLineByLine(options: Options)
    requires !options.invertMatch && !options.countMatches
    ensures ReportFor(Scan("f", Readable("a\nb\n", None)), SpanningMatcher) == [Matched("f")]
    ensures FileRecords("f", Readable("a\nb\n", None), options, SpanningMatcher) == []
  {
    var lines := TwoLines();
    assert lines[..1] == [lines[0]];
    assert Emitted("f", options, SpanningMatcher, lines[..1]) == [];
  }

  /** The example content holds two complete lines. */
  lemma TwoLines() returns (lines: seq<string>)
    ensures lines == Lines("a\nb\n") == ["a\n", "b\n"]
  {
    var first, second := "a\n", "b\n";
    assert first + second == "a\nb\n";
    LinesAppend(first, second);
    SingleLine(first);
    SingleLine(second);
    lines := [first, second];
  }
}
