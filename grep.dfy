/**
 * gogrep's `main` (gogrep/main.go): the pattern decoration for -i and -w, the default
 * target, and the loop that stats every target and starts a `searchFile` or a
 * `searchDirectory` task for it. The goroutines, the wait group and the results
 * channel are not modelled: each task is described by what it sends.
 */
module Grep {
  import opened Text
  import opened Scanner
  import opened FileTree

  // ---------------------------------------------------------------------------
  // The pattern.

  /** The source handed to `regexp.Compile`: `(?i)` for -i, then `\b…\b` around it all for -w. */
  function Decorate(pattern: string, caseInsensitive: bool, wholeWords: bool): string
  {
    var p := if caseInsensitive then "(?i)" + pattern else pattern;
    if wholeWords then "\\b" + p + "\\b" else p
  }

  /** How many characters Decorate puts in front of the pattern. */
  function PrefixLength(caseInsensitive: bool, wholeWords: bool): nat
  {
    (if caseInsensitive then 4 else 0) + (if wholeWords then 2 else 0)
  }

  /**
   * The raw pattern sits intact inside its decoration: `\b` opens and closes the
   * source under -w, `(?i)` comes first inside it under -i, and nothing else is added.
   */
  lemma DecorationKeepsPattern(pattern: string, caseInsensitive: bool, wholeWords: bool)
    ensures var r := Decorate(pattern, caseInsensitive, wholeWords);
      var k := PrefixLength(caseInsensitive, wholeWords);
      |r| == |pattern| + k + (if wholeWords then 2 else 0)
      && r[k..k + |pattern|] == pattern
      && (wholeWords ==> r[..2] == "\\b" && r[|r| - 2..] == "\\b")
      && (caseInsensitive ==> r[k - 4..k] == "(?i)")
  {
    var r := Decorate(pattern, caseInsensitive, wholeWords);
    var p := if caseInsensitive then "(?i)" + pattern else pattern;
    if wholeWords {
      assert r == "\\b" + p + "\\b";
      assert r[2..2 + |p|] == p;
    }
  }

  /** The targets: the command-line paths, or "." when there are none. */
  function Targets(args: seq<string>): (paths: seq<string>)
    ensures |paths| > 0
    ensures args != [] ==> paths == args
    ensures args == [] ==> paths == ["."]
  {
    if |args| == 0 then ["."] else args
  }

  // ---------------------------------------------------------------------------
  // Dispatch.

  /** What `os.Stat` says of a target. */
  datatype Lookup = StatFailed(message: string) | Found(node: Node)

  datatype Target = Target(path: string, lookup: Lookup)

  /** A task `main` starts: `searchFile` on a file, or `searchDirectory` on a directory. */
  datatype Task = FileTask(path: string, source: Source) | DirectoryTask(path: string, root: Node)

  /** The notice printed, outside the results channel, for a target that cannot be stat'ed. */
  function AccessError(path: string, message: string): string
  {
    "Error accessing path " + path + ": " + message + "\n"
  }

  /** The task for one target, if any: directories only with -r, everything else always. */
  function Route(t: Target, recursive: bool): seq<Task>
  {
    match t.lookup
    case StatFailed(_) => []
    case Found(n) =>
      if n.Dir? && recursive then [DirectoryTask(t.path, n)]
      else if !n.Dir? then [FileTask(t.path, n.source)]
      else []
  }

  /** The tasks started for the targets, in order. */
  function Tasks(targets: seq<Target>, recursive: bool): seq<Task>
    decreases |targets|
  {
    if targets == [] then []
    else Tasks(targets[..|targets| - 1], recursive) + Route(targets[|targets| - 1], recursive)
  }

  /** The notices printed for the targets, in order. */
  function Notices(targets: seq<Target>): seq<string>
    decreases |targets|
  {
    if targets == [] then []
    else
      var t := targets[|targets| - 1];
      Notices(targets[..|targets| - 1])
        + (if t.lookup.StatFailed? then [AccessError(t.path, t.lookup.message)] else [])
  }

  /** The dispatch loop of `main` over the targets. */
  method Dispatch(targets: seq<Target>, recursive: bool) returns (tasks: seq<Task>, notices: seq<string>)
    ensures tasks == Tasks(targets, recursive)
    ensures notices == Notices(targets)
  {
    tasks, notices := [], [];
    for i := 0 to |targets|
      invariant tasks == Tasks(targets[..i], recursive)
      invariant notices == Notices(targets[..i])
    {
      assert targets[..i + 1][..i] == targets[..i];
      var file := targets[i];
      if file.lookup.StatFailed? {
        notices := notices + [AccessError(file.path, file.lookup.message)];
        continue;
      }
      var info := file.lookup.node;
      if info.Dir? && recursive {
        tasks := tasks + [DirectoryTask(file.path, info)];
      } else if !info.Dir? {
        tasks := tasks + [FileTask(file.path, info.source)];
      }
    }
    assert targets[..|targets|] == targets;
  }

  // ---------------------------------------------------------------------------
  // What the tasks do.

  function WalkError(directory: string, message: string): string
  {
    "Error walking directory " + directory + ": " + message
  }

  /** The records `searchDirectory` itself sends: one for the error the walk returns, if any. */
  function DirectoryRecords(directory: string, root: Node): seq<string>
  {
    match Walk(SearchDirectory, directory, root).status
    case Abort(message) => [WalkError(directory, message)]
    case _ => []
  }

  /** The files a task starts a `searchFile` on: itself, or every file its walk dispatches. */
  function TaskScans(task: Task): seq<Scan>
  {
    match task
    case FileTask(path, source) => [Scan(path, source)]
    case DirectoryTask(path, root) => Walk(SearchDirectory, path, root).scans
  }

  /** All files searched, task by task. */
  function Searched(tasks: seq<Task>): seq<Scan>
    decreases |tasks|
  {
    if tasks == [] then []
    else Searched(tasks[..|tasks| - 1]) + TaskScans(tasks[|tasks| - 1])
  }

  /**
   * The first fault a directory walk meets ends it with exactly one
   * "Error walking directory" record; the files dispatched before it stay dispatched.
   */
  lemma WalkErrorRecord(directory: string, root: Node)
    ensures FirstFault(Preorder(directory, root)).Abort? ==>
      DirectoryRecords(directory, root) == [WalkError(directory, FirstFault(Preorder(directory, root)).message)]
    ensures FirstFault(Preorder(directory, root)) == Continue ==> DirectoryRecords(directory, root) == []
    ensures TaskScans(DirectoryTask(directory, root))
      == Dispatched(SearchDirectory, Reached(Preorder(directory, root)))
  {
    WalkFollowsPreorder(SearchDirectory, directory, root);
  }

  lemma {:induction false} SearchedAppend(a: seq<Task>, b: seq<Task>)
    ensures Searched(a + b) == Searched(a) + Searched(b)
    decreases |b|
  {
    if b == [] {
      assert a + b == a;
    } else {
      var init := b[..|b| - 1];
      assert (a + b)[..|a + b| - 1] == a + init;
      SearchedAppend(a, init);
      AppendAssoc(Searched(a), Searched(init), TaskScans(b[|b| - 1]));
    }
  }

  /** The targets that are not directories, as the files searched for them. */
  function FileTargets(targets: seq<Target>): seq<Scan>
    decreases |targets|
  {
    if targets == [] then []
    else
      var t := targets[|targets| - 1];
      FileTargets(targets[..|targets| - 1])
        + (if t.lookup.Found? && !t.lookup.node.Dir? then [Scan(t.path, t.lookup.node.source)] else [])
  }

  /**
   * Without -r, exactly the targets that are not directories are searched, in
   * order: a directory target gets nothing, a target that cannot be stat'ed gets
   * nothing.
   */
  lemma {:induction false} NonRecursiveSearchesFileTargets(targets: seq<Target>)
    ensures Searched(Tasks(targets, false)) == FileTargets(targets)
    decreases |targets|
  {
    if targets != [] {
      var init, last := targets[..|targets| - 1], targets[|targets| - 1];
      NonRecursiveSearchesFileTargets(init);
      SearchedAppend(Tasks(init, false), Route(last, false));
      FileRoute(last);
    }
  }

  /** Without -r a target yields at most its own file task, and is searched as that file. */
  lemma FileRoute(t: Target)
    ensures Searched(Route(t, false))
      == if t.lookup.Found? && !t.lookup.node.Dir? then [Scan(t.path, t.lookup.node.source)] else []
  {
    if t.lookup.Found? && !t.lookup.node.Dir? {
      var task := FileTask(t.path, t.lookup.node.source);
      assert Route(t, false) == [task];
      SearchedSingle([task]);
    } else {
      assert Route(t, false) == [];
    }
  }

  /** The files searched for at most one task are those of that task. */
  lemma SearchedSingle(r: seq<Task>)
    requires |r| <= 1
    ensures Searched(r) == if r == [] then [] else TaskScans(r[0])
  {
    if r != [] {
      assert r[..0] == [];
    }
  }

  /** What -r searches for a target: every non-directory at any depth of a directory, or the target itself. */
  function EveryFile(targets: seq<Target>): seq<Scan>
    decreases |targets|
  {
    if targets == [] then []
    else
      var t := targets[|targets| - 1];
      EveryFile(targets[..|targets| - 1])
        + match t.lookup
          case StatFailed(_) => []
          case Found(n) =>
            if n.Dir? then Dispatched(SearchDirectory, Preorder(t.path, n)) else [Scan(t.path, n.source)]
  }

  /** No directory target holds a fault anywhere in its tree. */
  predicate TreesFaultless(targets: seq<Target>)
  {
    forall i :: 0 <= i < |targets| && targets[i].lookup.Found? && targets[i].lookup.node.Dir? ==>
      FirstFault(Preorder(targets[i].path, targets[i].lookup.node)) == Continue
  }

  /**
   * With -r and no faults in the trees, every file that is not a directory, at any
   * depth under a directory target, is searched, and so is every other target.
   */
  lemma {:induction false} RecursiveSearchesEveryFile(targets: seq<Target>)
    requires TreesFaultless(targets)
    ensures Searched(Tasks(targets, true)) == EveryFile(targets)
    decreases |targets|
  {
    if targets != [] {
      var init, last := targets[..|targets| - 1], targets[|targets| - 1];
      assert TreesFaultless(init) by {
        forall i | 0 <= i < |init| ensures init[i] == targets[i] { }
      }
      RecursiveSearchesEveryFile(init);
      SearchedAppend(Tasks(init, true), Route(last, true));
      SearchedSingle(Route(last, true));
      if last.lookup.Found? && last.lookup.node.Dir? {
        WalkFollowsPreorder(SearchDirectory, last.path, last.lookup.node);
      }
    }
  }
}
