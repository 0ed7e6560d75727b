# gogrep, modelled in Dafny

gogrep is a small grep clone written in Go. `main` decorates the pattern (`(?i)` for
-i, `\b…\b` for -w). It stats every target. For a file it starts a `searchFile`
goroutine. For a directory under -r it starts a `searchDirectory` goroutine, whose
`filepath.Walk` starts a `searchFile` for every non-directory it meets. `searchFile`
reads the file with `bufio.Reader.ReadString('\n')` and sends one record per selected
line on a shared results channel: `path:line`, `path:n:line` under -n, or the matches
joined by spaces under -o. Under -c it sends only a final `path:N`. `main2` is a
second entry point. It refuses an empty pattern and walks one root. Without -r it
skips nested directories. It reads every regular file whole and prints the path when
the pattern matches the content as a single string.

The model keeps every sequential decision and drops the concurrency. Each task is
described by what it sends, and a file's records are an ordered sequence.

- `text.dfy` (`Text`): the helpers standing in for `bufio`, `fmt` and `strings`.
  `Lines` gives the `'\n'`-terminated pieces `ReadString` returns without error.
  `Trailer` is the unterminated rest. `Decimal` is `%d`. `Join`/`Split` are
  `strings.Join`/`strings.Split`.
- `scanner.dfy` (`Scanner`): `searchFile`. `LineReader` is a class standing for
  `bufio.Reader`. `SearchFile` opens the file and runs the read loop `ScanLines`. It is proved
  equal to the specification `FileRecords`. The lemmas compare that specification with a second
  description: number every line, keep the selected ones, render each kept one.
- `filetree.dfy` (`FileTree`): the file tree and `filepath.Walk`. Both walk callbacks
  are values of `Callback`: `SearchDirectory` is main.go's, `RegularOnly` is main2's.
  The walk is proved to follow the tree's pre-order up to the first fault.
- `grep.dfy` (`Grep`): `main`'s pattern decoration, its default target, the dispatch
  loop, and the error record `searchDirectory` sends.
- `wholefile.dfy` (`WholeFile`): `main2`.
- `wrappers.dfy` (`Wrappers`): `Option`.

The regular-expression engine is a parameter. A `Matcher` is a function from a string
to the list of matches `FindAllString(s, -1)` returns. `MatchString(s)` is taken to be
"that list is non-empty". A file is a `Source`: it either cannot be opened, or it has
content and may carry a `ReadFailure`. A `ReadFailure(k, msg)` makes the call of
`ReadString` after `k` complete lines fail, unless end of file comes first.
`os.ReadFile` fails under the same condition. A tree `Node` carries a `fault`: the
error `filepath.Walk` hands the callback at that entry, either a failed `Lstat` or a
directory that cannot be listed. A target's `os.Stat` result is a `Lookup`.

Behaviours of the code that are easy to miss, which the model follows:
- The final unterminated line of a file is never scanned, because `ReadString`
  returns it together with `io.EOF` and the loop breaks (gogrep/main.go:46-48).
  `TrailingTextIgnored` states this.
- Without -r, `main` searches nothing in a directory target. It does not walk its
  direct children (gogrep/main.go:142-148). Only `main2` has a non-recursive walk.
- A walk error ends the whole walk at the first fault; sibling entries are not
  visited. `main.go` reports it once as "Error walking directory". `main2` drops it.
- A stat failure of a command-line target is printed directly with `Printf`. It is
  not sent on the results channel.

## Model

| member | source | states |
|---|---|---|
| Text.IndexOf | gogrep/main.go:41 | the result is the first position of the delimiter, or there is none in the text |
| Text.LinesAreTerminated | gogrep/main.go:41-48 | every line `ReadString` hands back ends in its own `'\n'` and holds no other |
| Text.LinesRoundTrip | gogrep/main.go:40-48 | the lines followed by the unterminated trailer give back the whole content, so nothing but the trailer is left unscanned |
| Text.LinesAppend | gogrep/main.go:40-48 | the lines of a `'\n'`-terminated text followed by more text are the lines of each part |
| Text.Decimal | gogrep/main.go:61 | `%d` renders a number as non-empty digits with no leading zero |
| Text.DecimalRoundTrip | gogrep/main.go:72 | the rendered number reads back as the same number |
| Text.SplitJoin | gogrep/main.go:63 | joining matches with a separator none of them contains can be undone by splitting |
| Scanner.LineReader.constructor | gogrep/main.go:36 | a fresh reader starts at the beginning of the content with no line handed back |
| Scanner.LineReader.ReadString | gogrep/main.go:41-48 | one call hands back the next `'\n'`-terminated line and moves past it, or the rest of the content with EOF and moves to the end, or "" with the injected error on the call after `k` lines, moving nowhere |
| Scanner.ScanLines | gogrep/main.go:40-69 | the read loop stops at end of file or at the first read error; it sends one record per selected line in order, then the read-error record; the -c counter equals the number of selected lines read |
| Scanner.SearchFile | gogrep/main.go:26-74 | the scan loop sends exactly `FileRecords`: one open-error record only when the file cannot be opened; otherwise the selected lines' records in order, one read-error record if the read fails, then the count under -c |
| Scanner.EmittedIsRenderedSelection | gogrep/main.go:50-67 | outside -c the records are the kept lines rendered in file order, each line numbered from 1 on every complete line, selected or not |
| Scanner.SelectedCountIsKept | gogrep/main.go:53-56 | the -c counter equals the number of lines the selection rule keeps |
| Scanner.InvertComplements | gogrep/main.go:53 | every complete line is selected under exactly one of -v and no -v |
| Scanner.CountModeSendsNoLineRecords | gogrep/main.go:54-57 | under -c no per-line record is sent |
| Scanner.CountIsDefaultModeRecordCount | gogrep/main.go:50-73 | under -c, without a read error, the only record is `path:N`, where N is the number of records the same scan sends without -c, zero included |
| Scanner.LineNumbersOverrideOnlyMatch | gogrep/main.go:59-66 | with -n the records are the same whether -o is set or not |
| Scanner.EmittedPrefix | gogrep/main.go:40-69 | the records for the first k lines are a prefix of the records for all lines |
| Scanner.ReadErrorKeepsEarlierRecords | gogrep/main.go:40-73 | a read error ends the scan with one error record; the earlier records are a prefix of an error-free read's records; under -c the count of the lines read so far follows the error |
| Scanner.TrailingTextIgnored | gogrep/main.go:46-48 | appending unterminated text to a file changes nothing the scan sends |
| FileTree.Decide | gogrep/main2.go:43-54 | a callback starts a task exactly for a fault-free entry it wants (any non-directory for main.go's, a regular file for main2's); it returns the error exactly at a faulty entry, and SkipDir only for a nested directory under main2 without -r |
| FileTree.FirstFault | gogrep/main.go:80-82 | the status a walk stopping at the first fault returns is never SkipDir, and is an error exactly when some entry holds a fault |
| FileTree.ReachedAppend | gogrep/main.go:79-89 | the entries reached before the first fault in a concatenation are all of the first part plus those of the second, or only those of the first part when it holds a fault |
| FileTree.WalkNodeFollowsPreorder | gogrep/main.go:79-89 | a callback that never skips dispatches every wanted entry in pre-order up to the first fault, and the walk returns that fault |
| FileTree.WalkChildrenFollowPreorder | gogrep/main.go:79-89 | the same for the loop over a directory's entries |
| FileTree.WalkFollowsPreorder | gogrep/main.go:79-93 | `searchDirectory`'s walk, or main2's with -r, dispatches every wanted file at any depth before the first fault; on a tree without faults it dispatches all of them and returns nil |
| FileTree.ShallowChildren | gogrep/main2.go:48-50 | without -r each nested directory answers SkipDir and the loop moves on to its next sibling |
| FileTree.ShallowWalk | gogrep/main2.go:43-56 | without -r the root is not skipped; the tasks are the regular files directly in the root, up to the first faulty entry, or the root itself when it is a regular file |
| Grep.DecorationKeepsPattern | gogrep/main.go:114-119 | the compiled source is the raw pattern, after `(?i)` under -i, the whole enclosed in `\b` under -w, and nothing else is added |
| Grep.Targets | gogrep/main.go:127-130 | there is always a target: the command-line paths, or "." when none is given |
| Grep.Dispatch | gogrep/main.go:135-149 | the loop starts exactly the tasks `Tasks` lists and prints exactly the stat notices `Notices` lists |
| Grep.WalkErrorRecord | gogrep/main.go:91-93 | the first fault a directory walk meets yields exactly one "Error walking directory" record; files dispatched before it stay dispatched |
| Grep.NonRecursiveSearchesFileTargets | gogrep/main.go:142-148 | without -r exactly the targets that are not directories are searched: directory targets and targets that cannot be stat'ed get nothing |
| Grep.RecursiveSearchesEveryFile | gogrep/main.go:135-149 | with -r and fault-free trees, every non-directory at any depth under a directory target is searched, and so is every file target |
| WholeFile.SameDecorationAsMain | gogrep/main2.go:30-34 | with -i the compiled source is `(?i)` followed by the pattern, otherwise the pattern unchanged; this is main's decoration without -w |
| WholeFile.EmptyPatternRefused | gogrep/main2.go:22-39 | the run is refused before any compilation or walk exactly when the pattern is empty; a pattern that does not compile ends the run before the walk |
| WholeFile.MatchedIffWholeContentMatches | gogrep/main2.go:56-69 | a path is printed iff some task read that file in full and the pattern matches the whole content |
| WholeFile.WholeContentIsNotLineByLine | gogrep/main2.go:60-69 | a pattern that spans a line break makes main2 print the file while `searchFile` sends nothing for it |

## Left out

- Goroutines, `sync.WaitGroup`, the buffered results channel and its close after
  `Wait`, and -j. Each task is modelled on its own; the order in which records from
  different tasks arrive is not modelled.
- The unsynchronised `count++` of main2 and its final "Found %d matches" line. The
  counter is a data race, so it has no sequential meaning.
- The regular-expression engine: `FindAllString`, `MatchString`, `\b` and `(?i)` are
  not interpreted. main.go's `regexp.Compile` and its error exit are not modelled.
  main2's compile step is the parameter `compile`.
- Flag parsing, the usage message and `os.Exit`, and printing to the terminal.
- `os.Open`, `bufio`, `os.Stat`, `os.Lstat` and `os.ReadFile` on a real file system.
  Content is a string, errors are opaque messages, and the tree is a datatype.
- `filepath.Walk` sorts each directory's entries by name. The model walks them in
  the order the tree lists them.
- `filepath.Join` cleans paths. The model joins with "/" and does not clean.
- A top-level target that is a symbolic link to a directory is not modelled. `os.Stat`
  follows the link, but the walk's `Lstat` of the root does not.
- A read error whose message is the text "EOF" without being `io.EOF` is not
  modelled. The code would treat it as neither EOF nor an error. Every injected
  `ReadFailure` is a genuine error.
- The partial data `ReadString` returns together with a read error is not modelled.
  The code discards it. The model's reader returns "" in that case.
