/** The recursive count of a directory tree (src/advfs_tool.c): a depth-first walk
    with a visited set, a depth limit and a path limit. */
module Count {
  import opened Ods
  import opened DirBlock
  import opened Filesets
  import opened Dir
  import DirLookup

  const MAX_DEPTH: nat := 64
  const MAX_PATH: nat := 4096

  const DOT: byte := 0x2E

  /** The part of a stat record the count looks at. */
  datatype NodeStat = NodeStat(ino: uint32, mode: uint32, size: uint64)

  /** A fileset as the count sees it: directory listings and stat records by tag. */
  datatype Tree = Tree(list: uint32 -> Result<seq<Event>>, stat: uint32 -> Result<NodeStat>)

  /** read_dir_entries: the live entries of a directory, or an error. */
  function ListDir(disk: Disk, fs: Fileset, clone: Option<uint32>, tag: uint32): Result<seq<Event>> {
    var h := Hear(DirLookup.CollectSink(), [], DirStream(disk, fs, clone, tag));
    if h.err.Some? then Err(h.err.value) else Ok(h.seen)
  }

  function TreeOf(disk: Disk, fs: Fileset, clone: Option<uint32>, stat: uint32 -> Result<NodeStat>): Tree {
    Tree((tag: uint32) => ListDir(disk, fs, clone, tag), stat)
  }

  function Listing(t: Tree, d: uint32): Result<seq<Event>> { t.list(d) }

  datatype Kind = Skipped | Bad | Dir | File(size: uint64) | Link | Special

  /** stat_tag_checked and the file type; "." and ".." are not looked at. */
  function KindOf(t: Tree, e: Event): Kind {
    if e.name == [DOT] || e.name == [DOT, DOT] then Skipped
    else
      match t.stat(e.tag.num)
      case Err(_) => Bad
      case Ok(st) =>
        if st.ino != 0 && st.ino != e.tag.num then Bad
        else
          var ftype := st.mode / 0x1000 % 16;
          if ftype == 4 then Dir else if ftype == 8 then File(st.size) else if ftype == 10 then Link else Special
  }

  datatype Tally = Tally(files: nat, dirs: nat, symlinks: nat, other: nat, errors: nat, size: nat) {
    function Plus(that: Tally): Tally {
      Tally(files + that.files, dirs + that.dirs, symlinks + that.symlinks, other + that.other,
            errors + that.errors, size + that.size)
    }
  }

  function Nothing(): Tally { Tally(0, 0, 0, 0, 0, 0) }

  function OneError(): Tally { Nothing().(errors := 1) }

  /** What one entry adds to the counters by itself. */
  function Own(k: Kind): Tally {
    match k
    case Skipped => Nothing()
    case Bad => OneError()
    case Dir => Nothing().(dirs := 1)
    case File(n) => Nothing().(files := 1, size := n)
    case Link => Nothing().(symlinks := 1)
    case Special => Nothing().(other := 1)
  }

  // ---- the walk as a function of its state ----

  datatype State = State(tally: Tally, visited: seq<uint32>)

  function Bump(s: State, extra: Tally): State {
    s.(tally := s.tally.Plus(extra))
  }

  /** Expanding directory d, reached by a path of pathLen characters. */
  function CountDir(t: Tree, d: uint32, pathLen: nat, depth: nat, s: State): State
    requires depth <= MAX_DEPTH + 1
    decreases MAX_DEPTH + 1 - depth, 2, 0
  {
    if depth > MAX_DEPTH || d in s.visited then Bump(s, OneError())
    else
      var s' := s.(visited := s.visited + [d]);
      match Listing(t, d)
      case Err(_) => Bump(s', OneError())
      case Ok(es) => CountEntries(t, es, pathLen, depth, s')
  }

  function CountEntries(t: Tree, es: seq<Event>, pathLen: nat, depth: nat, s: State): State
    requires depth <= MAX_DEPTH
    decreases MAX_DEPTH + 1 - depth, 1, |es|
  {
    if es == [] then s
    else CountEntries(t, es[1..], pathLen, depth, CountEntry(t, es[0], pathLen, depth, s))
  }

  function CountEntry(t: Tree, e: Event, pathLen: nat, depth: nat, s: State): State
    requires depth <= MAX_DEPTH
    decreases MAX_DEPTH + 1 - depth, 0, 0
  {
    var s' := Bump(s, Own(KindOf(t, e)));
    if !KindOf(t, e).Dir? then s'
    else if pathLen + 1 + |e.name| < MAX_PATH then CountDir(t, e.tag.num, pathLen + 1 + |e.name|, depth + 1, s')
    else Bump(s', OneError())
  }

  // ---- the walk ----

  class Walk {
    var files: nat
    var dirs: nat
    var symlinks: nat
    var other: nat
    var errors: nat
    var totalSize: uint64
    var visited: seq<uint32>
    ghost var bytes: nat  // the total before wrapping

    constructor ()
      ensures Valid() && Now() == State(Nothing(), [])
    {
      files, dirs, symlinks, other, errors, totalSize := 0, 0, 0, 0, 0, 0;
      visited, bytes := [], 0;
    }

    ghost predicate Valid()
      reads this
    {
      totalSize == bytes % TWO_64
    }

    ghost function Now(): State
      reads this
    {
      State(Tally(files, dirs, symlinks, other, errors, bytes), visited)
    }

    method VisitedContains(tag: uint32) returns (found: bool)
      ensures found == (tag in visited)
    {
      var i := 0;
      while i < |visited|
        invariant 0 <= i <= |visited|
        invariant tag !in visited[..i]
      {
        if visited[i] == tag {
          return true;
        }
        i := i + 1;
      }
      return false;
    }

    /** Counters for one entry. */
    method Tick(k: Kind)
      requires Valid()
      modifies this
      ensures Valid() && Now() == Bump(old(Now()), Own(k))
    {
      match k
      case Skipped =>
      case Bad => errors := errors + 1;
      case Dir => dirs := dirs + 1;
      case File(n) =>
        files := files + 1;
        totalSize := (totalSize + n) % TWO_64;
        bytes := bytes + n;
      case Link => symlinks := symlinks + 1;
      case Special => other := other + 1;
    }

    /** count_recursive. */
    method CountRecursive(t: Tree, d: uint32, pathLen: nat, depth: nat)
      requires Valid() && depth <= MAX_DEPTH + 1
      modifies this
      ensures Valid() && Now() == CountDir(t, d, pathLen, depth, old(Now()))
      decreases MAX_DEPTH + 1 - depth, 2, 0
    {
      if depth > MAX_DEPTH {
        Tick(Bad);
        return;
      }
      var seen := VisitedContains(d);
      if seen {
        Tick(Bad);
        return;
      }
      visited := visited + [d];
      var list := Listing(t, d);
      if list.Err? {
        Tick(Bad);
        return;
      }
      CountList(t, list.value, pathLen, depth);
    }

    method CountList(t: Tree, es: seq<Event>, pathLen: nat, depth: nat)
      requires Valid() && depth <= MAX_DEPTH
      modifies this
      ensures Valid() && Now() == CountEntries(t, es, pathLen, depth, old(Now()))
      decreases MAX_DEPTH + 1 - depth, 1, |es|
    {
      ghost var result := CountEntries(t, es, pathLen, depth, Now());
      var i := 0;
      while i < |es|
        invariant 0 <= i <= |es|
        invariant Valid() && result == CountEntries(t, es[i..], pathLen, depth, Now())
      {
        assert es[i..][0] == es[i] && es[i..][1..] == es[i + 1..];
        CountOne(t, es[i], pathLen, depth);
        i := i + 1;
      }
    }

    method CountOne(t: Tree, e: Event, pathLen: nat, depth: nat)
      requires Valid() && depth <= MAX_DEPTH
      modifies this
      ensures Valid() && Now() == CountEntry(t, e, pathLen, depth, old(Now()))
      decreases MAX_DEPTH + 1 - depth, 0, 0
    {
      Tick(KindOf(t, e));
      if KindOf(t, e).Dir? {
        if pathLen + 1 + |e.name| < MAX_PATH {
          CountRecursive(t, e.tag.num, pathLen + 1 + |e.name|, depth + 1);
        } else {
          Tick(Bad);
        }
      }
    }
  }
}
