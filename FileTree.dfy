/** A snapshot of the filesystem the catalog reads: `stat`, `os.scandir` and
    `os.walk` answered from a tree of nodes instead of the disk. */
module FileTree {
  import opened PyText

  /** A regular file with its size and modification time, or a directory with its
      entries in the order `os.scandir` lists them. */
  datatype Node = File(size: nat, mtime: int) | Dir(entries: seq<Entry>, mtime: int)

  datatype Entry = Entry(name: string, node: Node)

  /** The node an entry name leads to; a directory holds each name once, and the
      first entry with the name is the one taken. */
  function Child(entries: seq<Entry>, name: string): (r: Option<Node>)
    ensures r.None? <==> forall k :: 0 <= k < |entries| ==> entries[k].name != name
    ensures r.Some? ==> exists k :: 0 <= k < |entries| && entries[k] == Entry(name, r.value)
  {
    if entries == [] then None
    else if entries[0].name == name then Some(entries[0].node)
    else Child(entries[1..], name)
  }

  /** The node reached by following path components from `n`; empty and `.`
      components stay where they are. */
  function Lookup(n: Node, parts: seq<string>): Option<Node>
    decreases |parts|
  {
    if parts == [] then Some(n)
    else if parts[0] == "" || parts[0] == "." then Lookup(n, parts[1..])
    else match n
      case File(_, _) => None
      case Dir(entries, _) =>
        match Child(entries, parts[0])
        case None => None
        case Some(c) => Lookup(c, parts[1..])
  }

  /** What `stat(path)` finds, `None` where it raises `FileNotFoundError`. */
  function Resolve(root: Node, path: string): Option<Node>
  {
    Lookup(root, Split(path, '/'))
  }

  // ---------------------------------------------------------------- os.walk

  /** One triple `os.walk` yields: a directory's path, the names of its
      subdirectories and the names of its other entries. */
  datatype Step = Step(root: string, dirs: seq<string>, files: seq<string>)

  function DirNames(entries: seq<Entry>): (r: seq<string>)
    ensures |r| <= |entries|
    ensures forall k :: 0 <= k < |entries| && entries[k].node.Dir? ==> entries[k].name in r
    ensures forall x :: x in r ==> exists k :: 0 <= k < |entries| && entries[k].node.Dir? && entries[k].name == x
  {
    if entries == [] then []
    else (if entries[0].node.Dir? then [entries[0].name] else []) + DirNames(entries[1..])
  }

  function FileNames(entries: seq<Entry>): (r: seq<string>)
    ensures |r| <= |entries|
    ensures forall k :: 0 <= k < |entries| && entries[k].node.File? ==> entries[k].name in r
    ensures forall x :: x in r ==> exists k :: 0 <= k < |entries| && entries[k].node.File? && entries[k].name == x
  {
    if entries == [] then []
    else (if entries[0].node.File? then [entries[0].name] else []) + FileNames(entries[1..])
  }

  /** `os.walk(top)`, top-down: the directory itself, then each subdirectory's walk in
      scandir order. A path that is not a directory yields nothing. */
  function Walk(top: string, n: Node): seq<Step>
    decreases n, 1, 0
  {
    match n
    case File(_, _) => []
    case Dir(entries, _) => [Step(top, DirNames(entries), FileNames(entries))] + WalkFrom(top, n, 0)
  }

  /** The walks of the subdirectories of `n` from the `i`-th entry on. */
  function WalkFrom(top: string, n: Node, i: nat): seq<Step>
    requires n.Dir? && i <= |n.entries|
    decreases n, 0, |n.entries| - i
  {
    if i == |n.entries| then []
    else
      var e := n.entries[i];
      (if e.node.Dir? then Walk(Join(top, e.name), e.node) else []) + WalkFrom(top, n, i + 1)
  }

  /** The number of directories in a tree, `n` included. */
  function DirCount(n: Node): nat
    decreases n, 1, 0
  {
    match n
    case File(_, _) => 0
    case Dir(entries, _) => 1 + DirCountFrom(n, 0)
  }

  function DirCountFrom(n: Node, i: nat): nat
    requires n.Dir? && i <= |n.entries|
    decreases n, 0, |n.entries| - i
  {
    if i == |n.entries| then 0 else DirCount(n.entries[i].node) + DirCountFrom(n, i + 1)
  }

  /** The walk has exactly one step per directory of the tree. */
  lemma {:induction false} WalkVisitsEachDir(top: string, n: Node)
    ensures |Walk(top, n)| == DirCount(n)
    decreases n, 1, 0
  {
    if n.Dir? {
      WalkFromVisits(top, n, 0);
    }
  }

  lemma {:induction false} WalkFromVisits(top: string, n: Node, i: nat)
    requires n.Dir? && i <= |n.entries|
    ensures |WalkFrom(top, n, i)| == DirCountFrom(n, i)
    decreases n, 0, |n.entries| - i
  {
    if i < |n.entries| {
      var e := n.entries[i];
      if e.node.Dir? {
        WalkVisitsEachDir(Join(top, e.name), e.node);
      }
      WalkFromVisits(top, n, i + 1);
    }
  }

  /** The first triple describes `top` itself: its subdirectories and its files. */
  lemma WalkStartsAtTop(top: string, n: Node)
    requires n.Dir?
    ensures |Walk(top, n)| > 0
    ensures Walk(top, n)[0] == Step(top, DirNames(n.entries), FileNames(n.entries))
  {
  }

  /** The path and the node reached from `top` by entering, at each level, the
      subdirectory at the given entry index; `None` when an index does not name a
      subdirectory. */
  function Descend(top: string, n: Node, path: seq<nat>): Option<(string, Node)>
    decreases |path|
  {
    if path == [] then Some((top, n))
    else if n.Dir? && path[0] < |n.entries| && n.entries[path[0]].node.Dir? then
      Descend(Join(top, n.entries[path[0]].name), n.entries[path[0]].node, path[1..])
    else None
  }

  /** The step `os.walk` yields for directory `d` at `path`. */
  function StepOf(path: string, d: Node): Step
    requires d.Dir?
  {
    Step(path, DirNames(d.entries), FileNames(d.entries))
  }

  /** `s` is the step of the directory that `path` reaches from `top`. */
  predicate StepAt(top: string, n: Node, path: seq<nat>, s: Step)
  {
    && Descend(top, n, path).Some?
    && Descend(top, n, path).value.1.Dir?
    && s == StepOf(Descend(top, n, path).value.0, Descend(top, n, path).value.1)
  }

  /** Every directory the tree holds below `top` is walked, with its own listing. */
  lemma {:induction false} WalkReachesEachDir(top: string, n: Node, path: seq<nat>)
    requires Descend(top, n, path).Some? && Descend(top, n, path).value.1.Dir?
    ensures StepOf(Descend(top, n, path).value.0, Descend(top, n, path).value.1) in Walk(top, n)
    decreases |path|
  {
    if path != [] {
      var j := path[0];
      var e := n.entries[j];
      WalkReachesEachDir(Join(top, e.name), e.node, path[1..]);
      WalkFromHolds(top, n, 0, j);
    }
  }

  /** The walk of the `j`-th subdirectory is part of the walks from entry `i <= j` on. */
  lemma {:induction false} WalkFromHolds(top: string, n: Node, i: nat, j: nat)
    requires n.Dir? && i <= j < |n.entries| && n.entries[j].node.Dir?
    ensures forall s :: s in Walk(Join(top, n.entries[j].name), n.entries[j].node) ==> s in WalkFrom(top, n, i)
    decreases j - i
  {
    if i < j {
      WalkFromHolds(top, n, i + 1, j);
    }
  }

  /** Every step of the walk is the listing of a directory the tree holds below `top`. */
  lemma {:induction false} WalkStepsAreDirs(top: string, n: Node, s: Step)
    requires s in Walk(top, n)
    ensures exists path :: StepAt(top, n, path, s)
    decreases n, 1, 0
  {
    if s == Walk(top, n)[0] {
      assert StepAt(top, n, [], s);
    } else {
      WalkFromSteps(top, n, 0, s);
    }
  }

  lemma {:induction false} WalkFromSteps(top: string, n: Node, i: nat, s: Step)
    requires n.Dir? && i <= |n.entries| && s in WalkFrom(top, n, i)
    ensures exists path :: StepAt(top, n, path, s)
    decreases n, 0, |n.entries| - i
  {
    var e := n.entries[i];
    if e.node.Dir? && s in Walk(Join(top, e.name), e.node) {
      WalkStepsAreDirs(Join(top, e.name), e.node, s);
      var rest :| StepAt(Join(top, e.name), e.node, rest, s);
      assert ([i] + rest)[1..] == rest;
      assert StepAt(top, n, [i] + rest, s);
    } else {
      WalkFromSteps(top, n, i + 1, s);
    }
  }
}
