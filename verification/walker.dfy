/** The tree walker (`scan_directory`'s collection loop): an explicit-stack
    traversal that collects every regular file larger than 1024 bytes.

    The filesystem is a finite tree. Each node records what the walk's
    filesystem calls report for it, including the ways they can fail. */
module Walker {
  import opened Io

  /** Files of at most this many bytes are skipped. */
  const MIN_SIZE: nat := 1024

  datatype Node =
    | Dir(entries: seq<Entry>)  // `is_dir()`, and `read_dir` lists these entries
    | Unlistable                // `is_dir()`, but `read_dir` fails
    | File(size: nat)           // `is_file()`, and `fs::metadata` reports this length
    | Unstattable               // `is_file()`, but the second `fs::metadata` fails
    | Special                   // neither: a socket, a fifo, a dangling link

  datatype Entry =
    | Entry(name: string, node: Node)
    | BadEntry                  // the directory iterator yields an error

  /** Paths collected below a node that the walk reaches at path `p`,
      in recursive depth-first order. */
  function Collected(p: Path, n: Node): seq<Path>
    decreases n
  {
    match n
    case Dir(es) => CollectedFrom(p, es)
    case File(size) => if size > MIN_SIZE then [p] else []
    case _ => []
  }

  /** Paths collected from the entries `es` of the directory at `p`. */
  function CollectedFrom(p: Path, es: seq<Entry>): seq<Path>
    decreases es
  {
    if es == [] then []
    else
      EntryCollected(p, es[0]) + CollectedFrom(p, es[1..])
  }

  function EntryCollected(p: Path, e: Entry): seq<Path>
    decreases e
  {
    match e
    case BadEntry => []
    case Entry(name, child) => Collected(p + [name], child)
  }

  /** Every call the walk propagates with `?` below `n` succeeds: `read_dir`
      of each directory, each entry of each listing, and the size lookup of
      each regular file. */
  predicate Listable(n: Node)
    decreases n
  {
    match n
    case Dir(es) => EntriesListable(es)
    case Unlistable => false
    case Unstattable => false
    case _ => true
  }

  predicate EntriesListable(es: seq<Entry>)
    decreases es
  {
    es == [] ||
    (EntryListable(es[0]) && EntriesListable(es[1..]))
  }

  predicate EntryListable(e: Entry)
    decreases e
  {
    e.Entry? && Listable(e.node)
  }

  /** The walk of a root succeeds iff the root is a directory and every call
      the walk propagates below it succeeds (`read_dir` of anything but a
      directory fails). */
  predicate WalkSucceeds(root: Node)
  {
    root.Dir? && Listable(root)
  }

  /** A termination measure: the number of nodes and entries. */
  function Size(n: Node): nat
    decreases n
  {
    match n
    case Dir(es) => 1 + EntriesSize(es)
    case _ => 1
  }

  function EntriesSize(es: seq<Entry>): nat
    decreases es
  {
    if es == [] then 0
    else
      EntrySize(es[0]) + EntriesSize(es[1..])
  }

  function EntrySize(e: Entry): nat
    decreases e
  {
    match e
    case BadEntry => 1
    case Entry(_, child) => 1 + Size(child)
  }

  /** The directories waiting on the stack: what the walk will still collect
      from them, whether they can all be walked, and their size. */
  function Pending(stack: seq<(Path, Node)>): multiset<Path>
  {
    if stack == [] then multiset{}
    else Pending(stack[..|stack| - 1]) + multiset(Collected(stack[|stack| - 1].0, stack[|stack| - 1].1))
  }

  predicate StackListable(stack: seq<(Path, Node)>)
  {
    stack == [] || (StackListable(stack[..|stack| - 1]) && WalkSucceeds(stack[|stack| - 1].1))
  }

  function StackSize(stack: seq<(Path, Node)>): nat
  {
    if stack == [] then 0 else StackSize(stack[..|stack| - 1]) + Size(stack[|stack| - 1].1)
  }

  /** Pushing a directory onto the stack. */
  lemma PushPending(stack: seq<(Path, Node)>, top: (Path, Node))
    ensures Pending(stack + [top]) == Pending(stack) + multiset(Collected(top.0, top.1))
    ensures StackSize(stack + [top]) == StackSize(stack) + Size(top.1)
    ensures StackListable(stack + [top]) <==> StackListable(stack) && WalkSucceeds(top.1)
  {
    assert (stack + [top])[..|stack|] == stack;
  }

  /** One entry of a directory listing: a subdirectory goes on the stack,
      a regular file over 1024 bytes onto the collected paths, anything else
      is skipped; a bad entry or a file whose metadata cannot be read is an
      error. */
  method VisitEntry(dir: Path, e: Entry, stack0: seq<(Path, Node)>, paths0: seq<Path>)
    returns (err: Option<IoError>, stack: seq<(Path, Node)>, paths: seq<Path>)
    ensures err.Some? ==> !EntryListable(e)
    ensures err.Some? ==> e.BadEntry? || e.node.Unstattable?
    ensures err.None? ==>
      && multiset(paths) + Pending(stack) == multiset(paths0) + Pending(stack0) + multiset(EntryCollected(dir, e))
      && (StackListable(stack) <==> StackListable(stack0) && EntryListable(e))
      && StackSize(stack) <= StackSize(stack0) + EntrySize(e)
  {
    stack, paths := stack0, paths0;
    if e.BadEntry? {
      return Some(ReadFailed), stack, paths;
    }
    var path := dir + [e.name];
    var child := e.node;
    if child.Dir? || child.Unlistable? {
      PushPending(stack, (path, child));
      stack := stack + [(path, child)];
    } else if child.File? {
      if child.size > MIN_SIZE {
        paths := paths + [path];
      }
    } else if child.Unstattable? {
      return Some(NotFound), stack, paths;
    }
    return None, stack, paths;
  }

  /** The inner `for entry in fs::read_dir(current_dir)?` loop over one
      directory listing. */
  method ListEntries(dir: Path, es: seq<Entry>, stack0: seq<(Path, Node)>, paths0: seq<Path>)
    returns (err: Option<IoError>, stack: seq<(Path, Node)>, paths: seq<Path>)
    ensures err.Some? ==> !EntriesListable(es)
    ensures err.Some? ==> exists i :: 0 <= i < |es| && (es[i].BadEntry? || es[i].node.Unstattable?)
    ensures err.None? ==>
      && multiset(paths) + Pending(stack) == multiset(paths0) + Pending(stack0) + multiset(CollectedFrom(dir, es))
      && (StackListable(stack) <==> StackListable(stack0) && EntriesListable(es))
      && StackSize(stack) <= StackSize(stack0) + EntriesSize(es)
  {
    stack, paths := stack0, paths0;
    var rest := es;
    while rest != []
      invariant multiset(paths) + Pending(stack) + multiset(CollectedFrom(dir, rest))
                == multiset(paths0) + Pending(stack0) + multiset(CollectedFrom(dir, es))
      invariant StackListable(stack) && EntriesListable(rest) <==> StackListable(stack0) && EntriesListable(es)
      invariant EntriesListable(es) ==> EntriesListable(rest)
      invariant |rest| <= |es| && rest == es[|es| - |rest|..]
      invariant StackSize(stack) + EntriesSize(rest) <= StackSize(stack0) + EntriesSize(es)
      decreases |rest|
    {
      err, stack, paths := VisitEntry(dir, rest[0], stack, paths);
      if err.Some? {
        return;
      }
      rest := rest[1..];
    }
    return None, stack, paths;
  }

  /** The collection loop of `scan_directory`: pop a directory, list it,
      push its subdirectories, keep its regular files over 1024 bytes. Every
      error propagated with `?` (`read_dir`, a bad entry, the size lookup of
      a regular file) aborts the walk; an entry whose `is_dir`/`is_file`
      metadata lookup fails is skipped. */
  method Walk(rootPath: Path, root: Node) returns (r: Result<seq<Path>>)
    ensures r.Ok? <==> WalkSucceeds(root)
    ensures r.Ok? ==> multiset(r.value) == multiset(Collected(rootPath, root))
  {
    var paths: seq<Path> := [];
    var stack: seq<(Path, Node)> := [];
    PushPending(stack, (rootPath, root));
    stack := stack + [(rootPath, root)];

    while stack != []
      invariant multiset(paths) + Pending(stack) == multiset(Collected(rootPath, root))
      invariant StackListable(stack) <==> WalkSucceeds(root)
      decreases StackSize(stack)
    {
      var top := |stack| - 1;
      var (dir, node) := stack[top];
      var below := stack[..top];
      if !node.Dir? {
        return Err(NotFound);
      }
      var err;
      err, stack, paths := ListEntries(dir, node.entries, below, paths);
      if err.Some? {
        return Err(err.value);
      }
    }
    return Ok(paths);
  }
}

/** What the walk collects, stated against the tree itself. */
module WalkerFacts {
  import opened Io
  import opened Walker

  /** `n` leads, by the entry names `rel`, to the node `target`. */
  predicate HasAt(n: Node, rel: seq<string>, target: Node)
    decreases n, rel
  {
    if rel == [] then n == target
    else n.Dir? && HasIn(n.entries, rel, target)
  }

  /** Some entry of `es` is named `rel[0]` and leads on by `rel[1..]`. */
  predicate HasIn(es: seq<Entry>, rel: seq<string>, target: Node)
    requires rel != []
    decreases es, rel
  {
    es != [] &&
    ((es[0].Entry? && es[0].name == rel[0] && HasAt(es[0].node, rel[1..], target)) ||
     HasIn(es[1..], rel, target))
  }

  /** No directory holds two entries of the same name, at any depth. */
  predicate UniqueNames(n: Node)
    decreases n
  {
    n.Dir? ==> EntriesUnique(n.entries)
  }

  predicate EntriesUnique(es: seq<Entry>)
    decreases es
  {
    es == [] ||
    ((es[0].Entry? ==> es[0].name !in Names(es[1..]) && UniqueNames(es[0].node)) &&
     EntriesUnique(es[1..]))
  }

  function Names(es: seq<Entry>): set<string>
  {
    set i | 0 <= i < |es| && es[i].Entry? :: es[i].name
  }

  /** Everything collected below `p` lies below `p`; below a directory
      listing it lies below one of the listed names. */
  lemma {:induction false} CollectedBelow(p: Path, n: Node)
    ensures forall q | q in Collected(p, n) :: |q| >= |p| && q[..|p|] == p
    ensures n.Dir? ==> forall q | q in Collected(p, n) :: |q| > |p| && q[|p|] in Names(n.entries)
    decreases n
  {
    if n.Dir? {
      CollectedFromBelow(p, n.entries);
    }
  }

  lemma {:induction false} CollectedFromBelow(p: Path, es: seq<Entry>)
    ensures forall q | q in CollectedFrom(p, es) :: |q| > |p| && q[..|p|] == p && q[|p|] in Names(es)
    decreases es
  {
    if es != [] {
      CollectedFromBelow(p, es[1..]);
      assert Names(es[1..]) <= Names(es) by {
        forall x | x in Names(es[1..]) ensures x in Names(es) {
          var i :| 0 <= i < |es[1..]| && es[1..][i].Entry? && es[1..][i].name == x;
          assert es[i + 1] == es[1..][i];
        }
      }
      if es[0].Entry? {
        var name := es[0].name;
        CollectedBelow(p + [name], es[0].node);
        forall q | q in EntryCollected(p, es[0])
          ensures |q| > |p| && q[..|p|] == p && q[|p|] in Names(es)
        {
          assert q[..|p| + 1] == p + [name];
          assert q[..|p|] == q[..|p| + 1][..|p|];
          assert q[|p|] == q[..|p| + 1][|p|];
          assert es[0].Entry? && es[0].name == name;
        }
      }
    }
  }

  /** The walk's size filter, stated on the tree: below `p`, the path
      `p + rel` is collected iff `rel` leads to a regular file of more than
      1024 bytes. */
  lemma {:induction false} CollectedExactly(p: Path, n: Node, rel: seq<string>)
    ensures p + rel in Collected(p, n) <==> exists s :: s > MIN_SIZE && HasAt(n, rel, File(s))
    decreases n, 1
  {
    match n
    case Dir(es) =>
      if rel == [] {
        CollectedFromBelow(p, es);
        assert p + rel == p;
      } else {
        CollectedFromExactly(p, es, rel);
      }
    case File(size) =>
      if p + rel == p {
        assert |rel| == 0;
      }
    case _ =>
  }

  lemma {:induction false} CollectedFromExactly(p: Path, es: seq<Entry>, rel: seq<string>)
    requires rel != []
    ensures p + rel in CollectedFrom(p, es) <==> exists s :: s > MIN_SIZE && HasIn(es, rel, File(s))
    decreases es, 0
  {
    if es != [] {
      CollectedFromExactly(p, es[1..], rel);
      var q := p + rel;
      if es[0].Entry? {
        var name := es[0].name;
        CollectedBelow(p + [name], es[0].node);
        if q in Collected(p + [name], es[0].node) {
          assert q[..|p| + 1] == p + [name];
          assert rel[0] == q[|p|] == name;
        }
        if rel[0] == name {
          assert q == (p + [name]) + rel[1..];
          CollectedExactly(p + [name], es[0].node, rel[1..]);
        }
      }
    }
  }

  /** With unique names, the path `rel` leads to at most one node. */
  lemma {:induction false} PathDeterminesNode(n: Node, rel: seq<string>, a: Node, b: Node)
    requires UniqueNames(n) && HasAt(n, rel, a) && HasAt(n, rel, b)
    ensures a == b
    decreases n, rel
  {
    if rel != [] {
      EntryDeterminesNode(n.entries, rel, a, b);
    }
  }

  lemma {:induction false} EntryDeterminesNode(es: seq<Entry>, rel: seq<string>, a: Node, b: Node)
    requires rel != [] && EntriesUnique(es) && HasIn(es, rel, a) && HasIn(es, rel, b)
    ensures a == b
    decreases es, rel
  {
    var e := es[0];
    var first := e.Entry? && e.name == rel[0];
    if first {
      if HasIn(es[1..], rel, a) {
        FirstNameListed(es[1..], rel, a);
      }
      if HasIn(es[1..], rel, b) {
        FirstNameListed(es[1..], rel, b);
      }
      PathDeterminesNode(e.node, rel[1..], a, b);
    } else {
      EntryDeterminesNode(es[1..], rel, a, b);
    }
  }

  /** A path through a listing starts with one of its names. */
  lemma {:induction false} FirstNameListed(es: seq<Entry>, rel: seq<string>, t: Node)
    requires rel != [] && HasIn(es, rel, t)
    ensures rel[0] in Names(es)
    decreases es
  {
    if !(es[0].Entry? && es[0].name == rel[0]) {
      FirstNameListed(es[1..], rel, t);
      var i :| 0 <= i < |es[1..]| && es[1..][i].Entry? && es[1..][i].name == rel[0];
      assert es[i + 1] == es[1..][i];
    }
  }

  /** Directories are never collected: in a tree with unique names, the
      path of a directory is not among the collected paths. */
  lemma DirectoriesNotCollected(p: Path, root: Node, rel: seq<string>, d: Node)
    requires UniqueNames(root) && HasAt(root, rel, d) && !d.File?
    ensures p + rel !in Collected(p, root)
  {
    CollectedExactly(p, root, rel);
    if p + rel in Collected(p, root) {
      var s :| s > MIN_SIZE && HasAt(root, rel, File(s));
      PathDeterminesNode(root, rel, d, File(s));
    }
  }

  /** Each qualifying file is collected exactly once, when names are unique. */
  lemma {:induction false} CollectedOnce(p: Path, n: Node)
    requires UniqueNames(n)
    ensures forall q :: multiset(Collected(p, n))[q] <= 1
    decreases n, 1
  {
    if n.Dir? {
      CollectedFromOnce(p, n.entries);
    }
  }

  lemma {:induction false} CollectedFromOnce(p: Path, es: seq<Entry>)
    requires EntriesUnique(es)
    ensures forall q :: multiset(CollectedFrom(p, es))[q] <= 1
    decreases es, 0
  {
    if es != [] {
      CollectedFromOnce(p, es[1..]);
      var rest := CollectedFrom(p, es[1..]);
      if es[0].Entry? {
        var name := es[0].name;
        var first := Collected(p + [name], es[0].node);
        CollectedOnce(p + [name], es[0].node);
        CollectedBelow(p + [name], es[0].node);
        CollectedFromBelow(p, es[1..]);
      }
    }
  }

  /** The size boundary: a 1024-byte file is skipped, a 1025-byte one kept. */
  lemma SizeBoundary(p: Path)
    ensures Collected(p, Dir([Entry("a", File(1024)), Entry("b", File(1025))])) == [p + ["b"]]
  {
  }
}
