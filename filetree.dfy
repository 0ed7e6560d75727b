/**
 * The directory walk: `filepath.Walk` over an abstract file tree, driven by one of the
 * two callbacks gogrep passes to it, `searchDirectory`'s (gogrep/main.go) or
 * `main2`'s (gogrep/main2.go). The walk's result is the sequence of files the
 * callback hands a search task, and the error the walk returns.
 */
module FileTree {
  import opened Wrappers
  import opened Scanner
  import opened Text

  /**
   * A file-system entry. `fault` is the error the walk hands the callback on reaching
   * the entry: a failed `Lstat`, or for a directory a failure to list its entries.
   * A `Special` entry is neither a directory nor a regular file (a symbolic link, a
   * device, a pipe); opening it still yields a `Source`.
   */
  datatype Node =
    | Dir(name: string, fault: Option<string>, children: seq<Node>)
    | Regular(name: string, fault: Option<string>, source: Source)
    | Special(name: string, fault: Option<string>, source: Source)

  /** `filepath.Join(dir, name)`, without the lexical cleaning. */
  function ChildPath(dir: string, name: string): string
  {
    dir + "/" + name
  }

  /** A search task the walk starts: one file to scan. */
  datatype Scan = Scan(path: string, source: Source)

  /** What the callback, or the walk, returns: nil, `filepath.SkipDir`, or an error. */
  datatype Status = Continue | SkipDir | Abort(message: string)

  /** One callback invocation: whether it starts a search task, and what it returns. */
  datatype Action = Action(dispatch: bool, status: Status)

  /** The two callbacks gogrep gives `filepath.Walk`. */
  datatype Callback =
    | SearchDirectory
    | RegularOnly(recursive: bool, root: string)

  /** The callback's decision at `path` (gogrep/main.go:79-89, gogrep/main2.go:43-54). */
  function Decide(cb: Callback, path: string, n: Node): (a: Action)
    ensures a.dispatch <==> n.fault.None? && Wanted(cb, n)
    ensures n.fault.Some? <==> a.status.Abort?
    ensures a.status == SkipDir ==> n.Dir? && cb.RegularOnly? && !cb.recursive && path != cb.root
  {
    if n.fault.Some? then Action(false, Abort(n.fault.value))
    else
      match cb
      case SearchDirectory => Action(!n.Dir?, Continue)
      case RegularOnly(recursive, root) =>
        if n.Dir? && !recursive && path != root then Action(false, SkipDir)
        else Action(n.Regular?, Continue)
  }

  /** The outcome of walking an entry or a run of entries. */
  datatype Visit = Visit(scans: seq<Scan>, status: Status)

  /**
   * `walk(path, info, fn)`: call the callback on the entry; a directory without a
   * fault whose callback returned nil is then walked entry by entry.
   */
  function WalkNode(cb: Callback, path: string, n: Node): Visit
    decreases n, 1
  {
    var a := Decide(cb, path, n);
    var own := if a.dispatch then [Scan(path, n.source)] else [];
    if n.Dir? && n.fault.None? && a.status == Continue then
      var v := WalkChildren(cb, path, n, 0);
      Visit(own + v.scans, v.status)
    else
      Visit(own, a.status)
  }

  /**
   * The loop over a directory's entries from the `i`-th on: a SkipDir from a
   * directory (or from an entry whose Lstat failed) moves on to the next entry; any
   * other non-nil status ends the loop and is returned.
   */
  function WalkChildren(cb: Callback, dir: string, parent: Node, i: nat): Visit
    requires parent.Dir? && i <= |parent.children|
    decreases parent, 0, |parent.children| - i
  {
    if i == |parent.children| then Visit([], Continue)
    else
      var c := parent.children[i];
      var v := WalkNode(cb, ChildPath(dir, c.name), c);
      if v.status == Continue || (v.status == SkipDir && (c.Dir? || c.fault.Some?)) then
        var rest := WalkChildren(cb, dir, parent, i + 1);
        Visit(v.scans + rest.scans, rest.status)
      else
        v
  }

  /** `filepath.Walk(root, fn)`: a SkipDir that reaches the top is nil. */
  function Walk(cb: Callback, root: string, n: Node): Visit
  {
    var v := WalkNode(cb, root, n);
    if v.status == SkipDir then Visit(v.scans, Continue) else v
  }

  // ---------------------------------------------------------------------------
  // The tree listed in walk order, as a reference for what a walk visits.

  /** An entry the walk reaches, with the path it passes to the callback. */
  datatype Entry = Entry(path: string, node: Node)

  /** Every entry of the tree, each directory before its contents, entries in order. */
  function Preorder(path: string, n: Node): seq<Entry>
    decreases n, 1
  {
    [Entry(path, n)] + (if n.Dir? then PreorderChildren(path, n, 0) else [])
  }

  function PreorderChildren(dir: string, parent: Node, i: nat): seq<Entry>
    requires parent.Dir? && i <= |parent.children|
    decreases parent, 0, |parent.children| - i
  {
    if i == |parent.children| then []
    else
      var c := parent.children[i];
      Preorder(ChildPath(dir, c.name), c) + PreorderChildren(dir, parent, i + 1)
  }

  /** The direct entries of a directory from the `i`-th on. */
  function DirectChildren(dir: string, parent: Node, i: nat): seq<Entry>
    requires parent.Dir? && i <= |parent.children|
    decreases |parent.children| - i
  {
    if i == |parent.children| then []
    else
      var c := parent.children[i];
      [Entry(ChildPath(dir, c.name), c)] + DirectChildren(dir, parent, i + 1)
  }

  /** The entries before the first one with a fault. */
  function Reached(es: seq<Entry>): seq<Entry>
  {
    if es == [] || es[0].node.fault.Some? then [] else [es[0]] + Reached(es[1..])
  }

  /** The first fault among the entries, as the status a walk stopping there returns. */
  function FirstFault(es: seq<Entry>): (s: Status)
    ensures s != SkipDir
    ensures s.Abort? <==> exists i :: 0 <= i < |es| && es[i].node.fault.Some?
  {
    if es == [] then Continue
    else if es[0].node.fault.Some? then Abort(es[0].node.fault.value)
    else
      var s := FirstFault(es[1..]);
      assert s.Abort? ==> exists i :: 0 <= i < |es| && es[i].node.fault.Some? by {
        if s.Abort? {
          var j :| 0 <= j < |es[1..]| && es[1..][j].node.fault.Some?;
          assert es[j + 1] == es[1..][j];
        }
      }
      assert (exists i :: 0 <= i < |es| && es[i].node.fault.Some?) ==> s.Abort? by {
        if exists i :: 0 <= i < |es| && es[i].node.fault.Some? {
          var i :| 0 <= i < |es| && es[i].node.fault.Some?;
          assert i > 0 && es[1..][i - 1] == es[i];
        }
      }
      s
  }

  /** Whether the callback starts a search task for a fault-free entry. */
  predicate Wanted(cb: Callback, n: Node)
  {
    !n.Dir? && (cb.SearchDirectory? || n.Regular?)
  }

  /** The search tasks for the wanted entries, in order. */
  function Dispatched(cb: Callback, es: seq<Entry>): seq<Scan>
  {
    if es == [] then []
    else
      (if Wanted(cb, es[0].node) then [Scan(es[0].path, es[0].node.source)] else [])
        + Dispatched(cb, es[1..])
  }

  /** Whether the callback never answers SkipDir: main.go's, or main2's with -r. */
  predicate NeverSkips(cb: Callback)
  {
    cb.SearchDirectory? || cb.recursive
  }

  lemma {:induction false} ReachedAppend(a: seq<Entry>, b: seq<Entry>)
    ensures FirstFault(a) == Continue ==>
      Reached(a + b) == a + Reached(b) && FirstFault(a + b) == FirstFault(b)
    ensures FirstFault(a) != Continue ==>
      Reached(a + b) == Reached(a) && FirstFault(a + b) == FirstFault(a)
    decreases |a|
  {
    if a == [] {
      assert a + b == b;
    } else {
      assert (a + b)[0] == a[0] && (a + b)[1..] == a[1..] + b;
      ReachedAppend(a[1..], b);
      if FirstFault(a) == Continue {
        AppendAssoc([a[0]], a[1..], Reached(b));
        assert [a[0]] + a[1..] == a;
      }
    }
  }

  lemma {:induction false} FaultlessReachesAll(es: seq<Entry>)
    requires FirstFault(es) == Continue
    ensures Reached(es) == es
    decreases |es|
  {
    if es != [] {
      FaultlessReachesAll(es[1..]);
      assert es == [es[0]] + es[1..];
    }
  }

  lemma {:induction false} DispatchedAppend(cb: Callback, a: seq<Entry>, b: seq<Entry>)
    ensures Dispatched(cb, a + b) == Dispatched(cb, a) + Dispatched(cb, b)
    decreases |a|
  {
    if a == [] {
      assert a + b == b;
    } else {
      assert (a + b)[0] == a[0] && (a + b)[1..] == a[1..] + b;
      DispatchedAppend(cb, a[1..], b);
      var own := if Wanted(cb, a[0].node) then [Scan(a[0].path, a[0].node.source)] else [];
      AppendAssoc(own, Dispatched(cb, a[1..]), Dispatched(cb, b));
    }
  }

  /**
   * With a callback that never skips, the walk visits the tree in walk order up to
   * the first fault, starts a task for every wanted entry it passes, and returns
   * that fault, if any.
   */
  lemma {:induction false} WalkNodeFollowsPreorder(cb: Callback, path: string, n: Node)
    requires NeverSkips(cb)
    ensures WalkNode(cb, path, n)
      == Visit(Dispatched(cb, Reached(Preorder(path, n))), FirstFault(Preorder(path, n)))
    decreases n, 1
  {
    var es := Preorder(path, n);
    var e := Entry(path, n);
    if n.fault.None? && n.Dir? {
      var rest := PreorderChildren(path, n, 0);
      WalkChildrenFollowPreorder(cb, path, n, 0);
      assert es == [e] + rest;
      assert Reached(es) == [e] + Reached(rest);
      assert Dispatched(cb, Reached(es)) == Dispatched(cb, Reached(rest));
    } else if n.fault.None? {
      assert es == [e];
    }
  }

  lemma {:induction false} WalkChildrenFollowPreorder(cb: Callback, dir: string, parent: Node, i: nat)
    requires NeverSkips(cb) && parent.Dir? && i <= |parent.children|
    ensures WalkChildren(cb, dir, parent, i)
      == Visit(Dispatched(cb, Reached(PreorderChildren(dir, parent, i))), FirstFault(PreorderChildren(dir, parent, i)))
    decreases parent, 0, |parent.children| - i
  {
    if i < |parent.children| {
      var c := parent.children[i];
      var p := ChildPath(dir, c.name);
      var a, b := Preorder(p, c), PreorderChildren(dir, parent, i + 1);
      WalkNodeFollowsPreorder(cb, p, c);
      ReachedAppend(a, b);
      if FirstFault(a) == Continue {
        WalkChildrenFollowPreorder(cb, dir, parent, i + 1);
        FaultlessReachesAll(a);
        DispatchedAppend(cb, a, Reached(b));
      }
    }
  }

  /**
   * `searchDirectory`'s walk, and main2's walk under -r: every wanted entry at any
   * depth up to the first fault gets a task, and the walk returns that fault; on a
   * tree without faults every wanted entry gets one and the walk returns nil.
   */
  lemma WalkFollowsPreorder(cb: Callback, root: string, n: Node)
    requires NeverSkips(cb)
    ensures Walk(cb, root, n) == Visit(Dispatched(cb, Reached(Preorder(root, n))), FirstFault(Preorder(root, n)))
    ensures FirstFault(Preorder(root, n)) == Continue ==>
      Walk(cb, root, n) == Visit(Dispatched(cb, Preorder(root, n)), Continue)
  {
    WalkNodeFollowsPreorder(cb, root, n);
    var es := Preorder(root, n);
    if FirstFault(es) == Continue {
      FaultlessReachesAll(es);
    }
  }

  lemma {:induction false} ShallowChildren(root: string, parent: Node, i: nat)
    requires parent.Dir? && i <= |parent.children|
    ensures var es := DirectChildren(root, parent, i);
      WalkChildren(RegularOnly(false, root), root, parent, i)
        == Visit(Dispatched(RegularOnly(false, root), Reached(es)), FirstFault(es))
    decreases |parent.children| - i
  {
    if i < |parent.children| {
      var c := parent.children[i];
      var p := ChildPath(root, c.name);
      assert |p| > |root|;
      if c.fault.None? {
        ShallowChildren(root, parent, i + 1);
      }
    }
  }

  /**
   * main2's walk without -r: a root directory is not skipped, every other directory
   * is, so the tasks are those for the regular files directly in the root, up to the
   * first faulty entry there, whose fault the walk returns; a root that is itself a
   * regular file gets the only task.
   */
  lemma ShallowWalk(root: string, n: Node)
    ensures var cb := RegularOnly(false, root);
      n.Dir? && n.fault.None? ==>
        var es := DirectChildren(root, n, 0);
        Walk(cb, root, n) == Visit(Dispatched(cb, Reached(es)), FirstFault(es))
    ensures !n.Dir? ==>
      Walk(RegularOnly(false, root), root, n)
        == Visit(if n.Regular? && n.fault.None? then [Scan(root, n.source)] else [], FirstFault([Entry(root, n)]))
    ensures n.Dir? && n.fault.Some? ==> Walk(RegularOnly(false, root), root, n) == Visit([], Abort(n.fault.value))
  {
    if n.Dir? && n.fault.None? {
      ShallowChildren(root, n, 0);
      var v := WalkChildren(RegularOnly(false, root), root, n, 0);
      assert [] + v.scans == v.scans;
    }
  }
}
