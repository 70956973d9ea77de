/** What a recursive count is worth: on every directory graph, cyclic ones included,
    its counters are exact for the directories it expanded, and a count without
    errors has expanded exactly the reachable ones. */
module CountExact {
  import opened Ods
  import opened DirBlock
  import opened Dir
  import opened Filesets
  import DirLookup
  import opened Count

  // ---- sums over directories ----

  function OwnOf(t: Tree, es: seq<Event>): Tally {
    if es == [] then Nothing() else Own(KindOf(t, es[0])).Plus(OwnOf(t, es[1..]))
  }

  /** What directory d contributes by itself: its entries, or one error. */
  function OwnDir(t: Tree, d: uint32): Tally {
    match Listing(t, d)
    case Err(_) => OneError()
    case Ok(es) => OwnOf(t, es)
  }

  function Sum(t: Tree, ds: seq<uint32>): Tally {
    if ds == [] then Nothing() else Sum(t, ds[..|ds| - 1]).Plus(OwnDir(t, ds[|ds| - 1]))
  }

  lemma {:induction false} SumAppend(t: Tree, ds: seq<uint32>, d: uint32)
    ensures Sum(t, ds + [d]) == Sum(t, ds).Plus(OwnDir(t, d))
  {
    assert (ds + [d])[..|ds|] == ds;
  }

  /** Counters of s' exceed those of s by `extra` and by what the directories expanded
      in between contribute; every directory entry or call not expanded is an error. */
  predicate Accounts(t: Tree, s: State, s': State, extra: Tally, pending: nat) {
    var a, b := Sum(t, s.visited), Sum(t, s'.visited);
    && s'.tally.files + a.files == s.tally.files + b.files + extra.files
    && s'.tally.dirs + a.dirs == s.tally.dirs + b.dirs + extra.dirs
    && s'.tally.symlinks + a.symlinks == s.tally.symlinks + b.symlinks + extra.symlinks
    && s'.tally.other + a.other == s.tally.other + b.other + extra.other
    && s'.tally.size + a.size == s.tally.size + b.size + extra.size
    && s'.tally.errors + a.errors + a.dirs + |s'.visited|
       == s.tally.errors + b.errors + b.dirs + |s.visited| + extra.errors + pending
    && s'.tally.errors + a.errors >= s.tally.errors + b.errors + extra.errors
  }

  lemma {:induction false} Chain(t: Tree, s0: State, s1: State, s2: State, x: Tally, p: nat, y: Tally, q: nat)
    requires Accounts(t, s0, s1, x, p) && Accounts(t, s1, s2, y, q)
    ensures Accounts(t, s0, s2, x.Plus(y), p + q)
  {
  }

  lemma {:induction false} BumpAccounts(t: Tree, s: State, extra: Tally)
    ensures Accounts(t, s, Bump(s, extra), extra, 0)
  {
  }

  lemma {:induction false} DeadEnd(t: Tree, s: State)
    ensures Accounts(t, s, Bump(s, OneError()), Nothing(), 1)
  {
  }

  lemma {:induction false} ThenOneMore(t: Tree, s0: State, s1: State, s2: State, x: Tally)
    requires Accounts(t, s0, s1, x, 0) && Accounts(t, s1, s2, Nothing(), 1)
    ensures Accounts(t, s0, s2, x, 1)
  {
    Chain(t, s0, s1, s2, x, 0, Nothing(), 1);
  }

  /** Exact accounting of one expansion: it adds exactly its expanded directories' own
      entries; each directory entry met ends as an expansion or as an error. */
  lemma {:induction false} DirAccounts(t: Tree, d: uint32, pathLen: nat, depth: nat, s: State)
    requires depth <= MAX_DEPTH + 1
    ensures Accounts(t, s, CountDir(t, d, pathLen, depth, s), Nothing(), 1)
    decreases MAX_DEPTH + 1 - depth, 2, 0
  {
    if depth > MAX_DEPTH || d in s.visited {
      DeadEnd(t, s);
    } else {
      var s' := s.(visited := s.visited + [d]);
      SumAppend(t, s.visited, d);
      match Listing(t, d)
      case Err(_) =>
      case Ok(es) => EntriesAccount(t, es, pathLen, depth, s');
    }
  }

  lemma {:induction false} EntriesAccount(t: Tree, es: seq<Event>, pathLen: nat, depth: nat, s: State)
    requires depth <= MAX_DEPTH
    ensures Accounts(t, s, CountEntries(t, es, pathLen, depth, s), OwnOf(t, es), OwnOf(t, es).dirs)
    decreases MAX_DEPTH + 1 - depth, 1, |es|
  {
    if es != [] {
      var s' := CountEntry(t, es[0], pathLen, depth, s);
      var own := Own(KindOf(t, es[0]));
      EntryAccounts(t, es[0], pathLen, depth, s);
      EntriesAccount(t, es[1..], pathLen, depth, s');
      Chain(t, s, s', CountEntries(t, es, pathLen, depth, s), own, own.dirs, OwnOf(t, es[1..]), OwnOf(t, es[1..]).dirs);
    }
  }

  lemma {:induction false} EntryAccounts(t: Tree, e: Event, pathLen: nat, depth: nat, s: State)
    requires depth <= MAX_DEPTH
    ensures Accounts(t, s, CountEntry(t, e, pathLen, depth, s), Own(KindOf(t, e)), Own(KindOf(t, e)).dirs)
    decreases MAX_DEPTH + 1 - depth, 0, 1
  {
    var s' := CountEntry(t, e, pathLen, depth, s);
    if KindOf(t, e).Dir? {
      DirEntryAccounts(t, e, pathLen, depth, s);
    } else {
      assert s' == Bump(s, Own(KindOf(t, e)));
      PlainEntryAccounts(t, s, s', KindOf(t, e));
    }
  }

  lemma {:induction false} PlainEntryAccounts(t: Tree, s: State, s': State, k: Kind)
    requires !k.Dir? && s' == Bump(s, Own(k))
    ensures Accounts(t, s, s', Own(k), Own(k).dirs)
  {
    BumpAccounts(t, s, Own(k));
  }

  lemma {:induction false} DirEntryAccounts(t: Tree, e: Event, pathLen: nat, depth: nat, s: State)
    requires depth <= MAX_DEPTH && KindOf(t, e).Dir?
    ensures Accounts(t, s, CountEntry(t, e, pathLen, depth, s), Own(Dir), 1)
    decreases MAX_DEPTH + 1 - depth, 0, 0
  {
    if pathLen + 1 + |e.name| < MAX_PATH {
      ShortPath(t, e.tag.num, pathLen + 1 + |e.name|, depth + 1, s, Bump(s, Own(Dir)));
    } else {
      LongPath(t, s, Bump(s, Own(Dir)));
    }
  }

  lemma {:induction false} LongPath(t: Tree, s: State, s': State)
    requires s' == Bump(s, Own(Dir))
    ensures Accounts(t, s, Bump(s', OneError()), Own(Dir), 1)
  {
    DeadEnd(t, s');
    TickThenOneMore(t, s, s', Bump(s', OneError()));
  }

  lemma {:induction false} ShortPath(t: Tree, d: uint32, pathLen: nat, depth: nat, s: State, s': State)
    requires depth <= MAX_DEPTH + 1 && s' == Bump(s, Own(Dir))
    ensures Accounts(t, s, CountDir(t, d, pathLen, depth, s'), Own(Dir), 1)
    decreases MAX_DEPTH + 1 - depth, 3
  {
    DirAccounts(t, d, pathLen, depth, s');
    TickThenOneMore(t, s, s', CountDir(t, d, pathLen, depth, s'));
  }

  lemma {:induction false} TickThenOneMore(t: Tree, s: State, s': State, s'': State)
    requires s' == Bump(s, Own(Dir)) && Accounts(t, s', s'', Nothing(), 1)
    ensures Accounts(t, s, s'', Own(Dir), 1)
  {
    BumpAccounts(t, s, Own(Dir));
    ThenOneMore(t, s, s', s'', Own(Dir));
  }

  // ---- the visited list ----

  predicate NoDuplicates(ds: seq<uint32>) {
    forall i, j :: 0 <= i < j < |ds| ==> ds[i] != ds[j]
  }

  ghost predicate AllReached(t: Tree, root: uint32, ds: seq<uint32>) {
    forall i :: 0 <= i < |ds| ==> Reach(t, root, ds[i])
  }

  /** A chain of directories, each an entry of the one before. */
  predicate IsPath(t: Tree, p: seq<uint32>) {
    && p != []
    && forall i :: 0 < i < |p| ==> Step(t, p[i - 1], p[i])
  }

  predicate Step(t: Tree, d: uint32, c: uint32) {
    Listing(t, d).Ok? && exists e :: e in Listing(t, d).value && KindOf(t, e).Dir? && e.tag.num == c
  }

  ghost predicate Reach(t: Tree, root: uint32, d: uint32) {
    exists p :: IsPath(t, p) && p[0] == root && p[|p| - 1] == d
  }

  lemma {:induction false} ReachRoot(t: Tree, root: uint32)
    ensures Reach(t, root, root)
  {
    assert IsPath(t, [root]);
  }

  lemma {:induction false} ReachStep(t: Tree, root: uint32, d: uint32, c: uint32)
    requires Reach(t, root, d) && Step(t, d, c)
    ensures Reach(t, root, c)
  {
    var p :| IsPath(t, p) && p[0] == root && p[|p| - 1] == d;
    var q := p + [c];
    assert IsPath(t, q) && q[0] == root && q[|q| - 1] == c;
  }

  /** The visited list only grows, errors never decrease. */
  predicate Later(s: State, s': State) {
    s.visited <= s'.visited && s.tally.errors <= s'.tally.errors
  }

  /** What every step of the walk keeps. */
  ghost predicate Sound(t: Tree, root: uint32, s: State) {
    NoDuplicates(s.visited) && AllReached(t, root, s.visited)
  }

  lemma {:induction false} DirSound(t: Tree, root: uint32, d: uint32, pathLen: nat, depth: nat, s: State)
    requires depth <= MAX_DEPTH + 1 && Sound(t, root, s) && Reach(t, root, d)
    ensures Sound(t, root, CountDir(t, d, pathLen, depth, s)) && Later(s, CountDir(t, d, pathLen, depth, s))
    decreases MAX_DEPTH + 1 - depth, 2, 0
  {
    if depth <= MAX_DEPTH && d !in s.visited {
      var s' := s.(visited := s.visited + [d]);
      assert Sound(t, root, s');
      match Listing(t, d)
      case Err(_) =>
      case Ok(es) =>
        EntriesReached(t, root, d);
        EntriesSound(t, root, es, pathLen, depth, s');
    }
  }

  ghost predicate DirsReached(t: Tree, root: uint32, es: seq<Event>) {
    forall i :: 0 <= i < |es| ==> KindOf(t, es[i]).Dir? ==> Reach(t, root, es[i].tag.num)
  }

  lemma {:induction false} EntriesSound(t: Tree, root: uint32, es: seq<Event>, pathLen: nat, depth: nat, s: State)
    requires depth <= MAX_DEPTH && Sound(t, root, s) && DirsReached(t, root, es)
    ensures Sound(t, root, CountEntries(t, es, pathLen, depth, s)) && Later(s, CountEntries(t, es, pathLen, depth, s))
    decreases MAX_DEPTH + 1 - depth, 1, |es|
  {
    if es != [] {
      assert KindOf(t, es[0]).Dir? ==> Reach(t, root, es[0].tag.num);
      EntrySound(t, root, es[0], pathLen, depth, s);
      EntriesSound(t, root, es[1..], pathLen, depth, CountEntry(t, es[0], pathLen, depth, s));
    }
  }

  lemma {:induction false} EntrySound(t: Tree, root: uint32, e: Event, pathLen: nat, depth: nat, s: State)
    requires depth <= MAX_DEPTH && Sound(t, root, s)
    requires KindOf(t, e).Dir? ==> Reach(t, root, e.tag.num)
    ensures Sound(t, root, CountEntry(t, e, pathLen, depth, s)) && Later(s, CountEntry(t, e, pathLen, depth, s))
    decreases MAX_DEPTH + 1 - depth, 0, 0
  {
    if KindOf(t, e).Dir? && pathLen + 1 + |e.name| < MAX_PATH {
      DirSound(t, root, e.tag.num, pathLen + 1 + |e.name|, depth + 1, Bump(s, Own(KindOf(t, e))));
    }
  }

  // ---- without errors nothing is missed ----

  /** Every directory entry of every directory expanded since s has been expanded. */
  ghost predicate ClosedSince(t: Tree, s: State, s': State) {
    forall i: int, c: uint32 :: |s.visited| <= i < |s'.visited| && Step(t, s'.visited[i], c) ==> c in s'.visited
  }

  lemma {:induction false} ClosedChain(t: Tree, s: State, s1: State, s2: State)
    requires Later(s, s1) && Later(s1, s2) && ClosedSince(t, s, s1) && ClosedSince(t, s1, s2)
    ensures ClosedSince(t, s, s2)
  {
    forall i: int, c: uint32 | |s.visited| <= i < |s2.visited| && Step(t, s2.visited[i], c) ensures c in s2.visited {
      if i < |s1.visited| {
        var d := s1.visited[i];
        assert d == s2.visited[i] && Step(t, d, c);
        assert c in s1.visited;
        var j :| 0 <= j < |s1.visited| && s1.visited[j] == c;
        assert s2.visited[j] == c;
      }
    }
  }

  lemma {:induction false} DirClosed(t: Tree, root: uint32, d: uint32, pathLen: nat, depth: nat, s: State)
    requires depth <= MAX_DEPTH + 1 && Sound(t, root, s) && Reach(t, root, d)
    requires CountDir(t, d, pathLen, depth, s).tally.errors == s.tally.errors
    ensures var s' := CountDir(t, d, pathLen, depth, s); ClosedSince(t, s, s') && d in s'.visited
    decreases MAX_DEPTH + 1 - depth, 2, 0
  {
    var s1 := s.(visited := s.visited + [d]);
    var es := Listing(t, d).value;
    EntriesReached(t, root, d);
    assert Sound(t, root, s1);
    EntriesSound(t, root, es, pathLen, depth, s1);
    EntriesClosed(t, root, es, pathLen, depth, s1);
    var s' := CountDir(t, d, pathLen, depth, s);
    assert s'.visited[|s.visited|] == d;
    forall i: int, c: uint32 | |s.visited| <= i < |s'.visited| && Step(t, s'.visited[i], c) ensures c in s'.visited {
      if i == |s.visited| {
        var e :| e in es && KindOf(t, e).Dir? && e.tag.num == c;
      }
    }
  }

  lemma {:induction false} EntriesReached(t: Tree, root: uint32, d: uint32)
    requires Reach(t, root, d) && Listing(t, d).Ok?
    ensures DirsReached(t, root, Listing(t, d).value)
  {
    var es := Listing(t, d).value;
    forall i | 0 <= i < |es| ensures KindOf(t, es[i]).Dir? ==> Reach(t, root, es[i].tag.num) {
      if KindOf(t, es[i]).Dir? {
        assert es[i] in es;
        ReachStep(t, root, d, es[i].tag.num);
      }
    }
  }

  lemma {:induction false} EntriesClosed(t: Tree, root: uint32, es: seq<Event>, pathLen: nat, depth: nat, s: State)
    requires depth <= MAX_DEPTH && Sound(t, root, s) && DirsReached(t, root, es)
    requires CountEntries(t, es, pathLen, depth, s).tally.errors == s.tally.errors
    ensures var s' := CountEntries(t, es, pathLen, depth, s);
            ClosedSince(t, s, s') && forall e :: e in es && KindOf(t, e).Dir? ==> e.tag.num in s'.visited
    decreases MAX_DEPTH + 1 - depth, 1, |es|
  {
    if es != [] {
      var s1 := CountEntry(t, es[0], pathLen, depth, s);
      assert KindOf(t, es[0]).Dir? ==> Reach(t, root, es[0].tag.num);
      EntrySound(t, root, es[0], pathLen, depth, s);
      EntriesSound(t, root, es[1..], pathLen, depth, s1);
      EntryClosed(t, root, es[0], pathLen, depth, s);
      EntriesClosed(t, root, es[1..], pathLen, depth, s1);
      var s' := CountEntries(t, es, pathLen, depth, s);
      ClosedChain(t, s, s1, s');
      forall e | e in es && KindOf(t, e).Dir? ensures e.tag.num in s'.visited {
        assert e == es[0] || e in es[1..];
      }
    }
  }

  lemma {:induction false} EntryClosed(t: Tree, root: uint32, e: Event, pathLen: nat, depth: nat, s: State)
    requires depth <= MAX_DEPTH && Sound(t, root, s)
    requires KindOf(t, e).Dir? ==> Reach(t, root, e.tag.num)
    requires CountEntry(t, e, pathLen, depth, s).tally.errors == s.tally.errors
    ensures var s' := CountEntry(t, e, pathLen, depth, s);
            ClosedSince(t, s, s') && (KindOf(t, e).Dir? ==> e.tag.num in s'.visited)
    decreases MAX_DEPTH + 1 - depth, 0, 0
  {
    if KindOf(t, e).Dir? {
      DirClosed(t, root, e.tag.num, pathLen + 1 + |e.name|, depth + 1, Bump(s, Own(KindOf(t, e))));
    }
  }

  // ---- main results ----

  function Fresh(): State { State(Nothing(), []) }

  /** A count as the tool starts it: nothing visited, all counters zero. */
  predicate CountsFrom(t: Tree, root: uint32, pathLen: nat, r: State) {
    r == CountDir(t, root, pathLen, 0, Fresh())
  }

  predicate ExactFor(t: Tree, r: State) {
    var sum := Sum(t, r.visited);
    && r.tally == sum.(errors := r.tally.errors)
    && r.tally.errors + |r.visited| == sum.errors + sum.dirs + 1
    && r.tally.errors >= sum.errors
  }

  lemma {:induction false} FreshAccounts(t: Tree, s: State, r: State)
    requires s == Fresh() && Accounts(t, s, r, Nothing(), 1)
    ensures ExactFor(t, r)
  {
  }

  /** On any graph: only reachable directories are expanded, each once, and the
      counters are the exact sums over them. Errors are those of the expanded
      directories plus one for each directory entry (or the root) not expanded. */
  lemma {:induction false} CountIsExact(t: Tree, root: uint32, pathLen: nat, r: State)
    requires CountsFrom(t, root, pathLen, r)
    ensures NoDuplicates(r.visited) && AllReached(t, root, r.visited) && ExactFor(t, r)
  {
    ReachRoot(t, root);
    DirSound(t, root, root, pathLen, 0, Fresh());
    DirAccounts(t, root, pathLen, 0, Fresh());
    FreshAccounts(t, Fresh(), r);
  }

  /** The number of errors is zero exactly when every expanded directory was free of
      errors and every directory entry led to an expansion of its own. */
  lemma {:induction false} NoErrorsExactly(t: Tree, root: uint32, pathLen: nat, r: State)
    requires CountsFrom(t, root, pathLen, r)
    ensures r.tally.errors == 0 <==> Sum(t, r.visited).errors == 0 && |r.visited| == Sum(t, r.visited).dirs + 1
  {
    CountIsExact(t, root, pathLen, r);
  }

  lemma {:induction false} PathStaysInside(t: Tree, p: seq<uint32>, ds: seq<uint32>)
    requires IsPath(t, p) && p[0] in ds
    requires forall i: int, c: uint32 :: 0 <= i < |ds| && Step(t, ds[i], c) ==> c in ds
    ensures p[|p| - 1] in ds
    decreases |p|
  {
    if |p| > 1 {
      var q := p[..|p| - 1];
      PathStaysInside(t, q, ds);
      assert Step(t, q[|q| - 1], p[|p| - 1]);
    }
  }

  lemma {:induction false} NothingMissed(t: Tree, root: uint32, pathLen: nat, r: State)
    requires CountsFrom(t, root, pathLen, r) && r.tally.errors == 0
    ensures root in r.visited
    ensures forall i: int, c: uint32 :: 0 <= i < |r.visited| && Step(t, r.visited[i], c) ==> c in r.visited
  {
    ReachRoot(t, root);
    DirClosed(t, root, root, pathLen, 0, Fresh());
  }

  /** A count without errors is a certificate: it expanded every reachable directory
      exactly once, and there is one directory entry fewer than directories, so the
      reachable directories form a tree. */
  lemma {:induction false} NoErrorsCertify(t: Tree, root: uint32, pathLen: nat, r: State)
    requires CountsFrom(t, root, pathLen, r) && r.tally.errors == 0
    ensures NoDuplicates(r.visited) && r.tally == Sum(t, r.visited)
    ensures forall d: uint32 :: d in r.visited <==> Reach(t, root, d)
    ensures r.tally.dirs == |r.visited| - 1
  {
    CountIsExact(t, root, pathLen, r);
    NothingMissed(t, root, pathLen, r);
    forall d: uint32 ensures d in r.visited <==> Reach(t, root, d) {
      if Reach(t, root, d) {
        var p :| IsPath(t, p) && p[0] == root && p[|p| - 1] == d;
        PathStaysInside(t, p, r.visited);
      }
    }
  }

  // ---- on a disk ----

  lemma {:induction false} ErrorsAddUp(t: Tree, ds: seq<uint32>, d: uint32)
    requires d in ds
    ensures OwnDir(t, d).errors <= Sum(t, ds).errors
    decreases |ds|
  {
    var n := |ds| - 1;
    if d != ds[n] {
      assert d in ds[..n];
      ErrorsAddUp(t, ds[..n], d);
    }
  }

  /** For a fileset on a disk: a count without errors has read every reachable directory to
      its end, and has gone through all its live entries. */
  lemma {:induction false} CertifiesDisk(disk: Disk, fs: Fileset, clone: Option<uint32>,
                                         stat: uint32 -> Result<NodeStat>,
                                         t: Tree, root: uint32, pathLen: nat, r: State, d: uint32)
    requires t == TreeOf(disk, fs, clone, stat) && CountsFrom(t, root, pathLen, r) && r.tally.errors == 0
    requires Reach(t, root, d)
    ensures var s := DirStream(disk, fs, clone, d);
            s.err == None && Listing(t, d) == Ok(DirLookup.Lives(s.events))
  {
    NoErrorsCertify(t, root, pathLen, r);
    ErrorsAddUp(t, r.visited, d);
    var s := DirStream(disk, fs, clone, d);
    DirLookup.CollectHearsAll([], s.events);
    assert [] + DirLookup.Lives(s.events) == DirLookup.Lives(s.events);
  }
}
