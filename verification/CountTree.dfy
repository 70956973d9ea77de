/** Which directory trees a recursive count goes through without error (src/advfs_tool.c). */
module CountTree {
  import opened Ods
  import opened DirBlock
  import opened Count
  import opened CountExact

  // ---- ways through a directory tree ----

  /** The directory that a way leads to from d: the position of an entry in d's listing, one
      in that directory's, and so on. */
  function DirAt(t: Tree, d: uint32, way: seq<nat>): Option<uint32>
    decreases |way|, 1
  {
    if way == [] then Some(d)
    else if Listing(t, d).Err? then None
    else Below(t, Listing(t, d).value, way)
  }

  function Below(t: Tree, es: seq<Event>, way: seq<nat>): Option<uint32>
    requires way != []
    decreases |way|, 0
  {
    if way[0] < |es| && KindOf(t, es[way[0]]).Dir? then DirAt(t, es[way[0]].tag.num, way[1..]) else None
  }

  /** Length of the path printed for it, from one of `len` characters. */
  function LenAt(t: Tree, d: uint32, way: seq<nat>, len: nat): nat
    requires DirAt(t, d, way).Some?
    decreases |way|, 1
  {
    if way == [] then len else LenBelow(t, Listing(t, d).value, way, len)
  }

  function LenBelow(t: Tree, es: seq<Event>, way: seq<nat>, len: nat): nat
    requires way != [] && Below(t, es, way).Some?
    decreases |way|, 0
  {
    LenAt(t, es[way[0]].tag.num, way[1..], len + 1 + |es[way[0]].name|)
  }

  /** The directory can be listed, and each of its entries has its stat record. */
  predicate Listed(t: Tree, d: uint32) {
    Listing(t, d).Ok? && forall i :: 0 <= i < |Listing(t, d).value| ==> KindOf(t, Listing(t, d).value[i]) != Bad
  }

  /** If the way leads to a directory, that can be listed, lies no deeper than 64 and, except
      at the start, has a path shorter than 4096. */
  predicate Fine(t: Tree, d: uint32, way: seq<nat>, len: nat, depth: nat) {
    DirAt(t, d, way).Some? ==>
      && Listed(t, DirAt(t, d, way).value) && depth + |way| <= 64
      && (way != [] ==> LenAt(t, d, way, len) < 4096)
  }

  predicate FineBelow(t: Tree, es: seq<Event>, way: seq<nat>, len: nat, depth: nat)
    requires way != []
  {
    Below(t, es, way).Some? ==>
      Listed(t, Below(t, es, way).value) && depth + |way| <= 64 && LenBelow(t, es, way, len) < 4096
  }

  // ---- the walk only grows ----

  lemma {:induction false} DirGrows(t: Tree, d: uint32, len: nat, depth: nat, s: State)
    requires depth <= MAX_DEPTH + 1
    ensures Later(s, CountDir(t, d, len, depth, s))
    decreases MAX_DEPTH + 1 - depth, 2, 0
  {
    if depth <= MAX_DEPTH && d !in s.visited && Listing(t, d).Ok? {
      EntriesGrow(t, Listing(t, d).value, len, depth, s.(visited := s.visited + [d]));
    }
  }

  lemma {:induction false} EntriesGrow(t: Tree, es: seq<Event>, len: nat, depth: nat, s: State)
    requires depth <= MAX_DEPTH
    ensures Later(s, CountEntries(t, es, len, depth, s))
    decreases MAX_DEPTH + 1 - depth, 1, |es|
  {
    if es != [] {
      EntryGrows(t, es[0], len, depth, s);
      EntriesGrow(t, es[1..], len, depth, CountEntry(t, es[0], len, depth, s));
    }
  }

  lemma {:induction false} EntryGrows(t: Tree, e: Event, len: nat, depth: nat, s: State)
    requires depth <= MAX_DEPTH
    ensures Later(s, CountEntry(t, e, len, depth, s))
    decreases MAX_DEPTH + 1 - depth, 0, 0
  {
    if KindOf(t, e).Dir? && len + 1 + |e.name| < MAX_PATH {
      DirGrows(t, e.tag.num, len + 1 + |e.name|, depth + 1, Bump(s, Own(KindOf(t, e))));
    }
  }

  // ---- without errors every way is fine ----

  predicate DirClean(t: Tree, d: uint32, len: nat, depth: nat, s: State)
    requires depth <= MAX_DEPTH + 1
  {
    CountDir(t, d, len, depth, s).tally.errors == s.tally.errors
  }

  predicate EntriesClean(t: Tree, es: seq<Event>, len: nat, depth: nat, s: State)
    requires depth <= MAX_DEPTH
  {
    CountEntries(t, es, len, depth, s).tally.errors == s.tally.errors
  }

  /** A clean count of some entries is a clean count of the first and one of the rest. */
  lemma {:induction false} CleanSplits(t: Tree, es: seq<Event>, len: nat, depth: nat, s: State, next: State)
    requires depth <= MAX_DEPTH && es != [] && EntriesClean(t, es, len, depth, s)
    requires next == CountEntry(t, es[0], len, depth, s)
    ensures next.tally.errors == s.tally.errors && EntriesClean(t, es[1..], len, depth, next)
    ensures s.visited <= next.visited <= CountEntries(t, es, len, depth, s).visited
  {
    EntryGrows(t, es[0], len, depth, s);
    EntriesGrow(t, es[1..], len, depth, next);
  }

  /** A clean directory entry has a short path and a clean count of its own. */
  lemma {:induction false} CleanEntry(t: Tree, e: Event, len: nat, depth: nat, s: State, inside: State)
    requires depth <= MAX_DEPTH && KindOf(t, e).Dir? && inside == Bump(s, Own(KindOf(t, e)))
    requires CountEntry(t, e, len, depth, s).tally.errors == s.tally.errors
    ensures len + 1 + |e.name| < 4096 && DirClean(t, e.tag.num, len + 1 + |e.name|, depth + 1, inside)
    ensures CountEntry(t, e, len, depth, s) == CountDir(t, e.tag.num, len + 1 + |e.name|, depth + 1, inside)
    ensures inside.visited == s.visited
  {
  }

  /** A clean count has not met its directory before, and lists it cleanly. */
  lemma {:induction false} CleanDir(t: Tree, d: uint32, len: nat, depth: nat, s: State, inside: State)
    requires depth <= MAX_DEPTH + 1 && DirClean(t, d, len, depth, s) && inside == s.(visited := s.visited + [d])
    ensures depth <= 64 && d !in s.visited && Listing(t, d).Ok?
    ensures EntriesClean(t, Listing(t, d).value, len, depth, inside)
    ensures CountDir(t, d, len, depth, s) == CountEntries(t, Listing(t, d).value, len, depth, inside)
  {
  }

  lemma {:induction false} CleanKinds(t: Tree, es: seq<Event>, len: nat, depth: nat, s: State)
    requires depth <= MAX_DEPTH && EntriesClean(t, es, len, depth, s)
    ensures forall i :: 0 <= i < |es| ==> KindOf(t, es[i]) != Bad
    decreases |es|
  {
    if es != [] {
      var next := CountEntry(t, es[0], len, depth, s);
      CleanSplits(t, es, len, depth, s, next);
      CleanKinds(t, es[1..], len, depth, next);
      forall i | 0 <= i < |es| ensures KindOf(t, es[i]) != Bad {
        assert i > 0 ==> es[i] == es[1..][i - 1];
      }
    }
  }

  /** The directory a way leads to is new, and is visited in the end. */
  predicate NewDir(c: Option<uint32>, before: seq<uint32>, after: seq<uint32>) {
    c.Some? ==> c.value !in before && c.value in after
  }

  lemma {:induction false} NewLater(c: Option<uint32>, a: seq<uint32>, b: seq<uint32>, y: seq<uint32>, z: seq<uint32>)
    requires a <= b && y <= z && NewDir(c, b, y)
    ensures NewDir(c, a, z)
  {
  }

  lemma {:induction false} CleanWay(t: Tree, d: uint32, len: nat, depth: nat, s: State, way: seq<nat>)
    requires depth <= MAX_DEPTH + 1 && DirClean(t, d, len, depth, s)
    ensures Fine(t, d, way, len, depth)
    ensures NewDir(DirAt(t, d, way), s.visited, CountDir(t, d, len, depth, s).visited)
    decreases |way|, 1, 0
  {
    var inside := s.(visited := s.visited + [d]);
    CleanDir(t, d, len, depth, s, inside);
    var es := Listing(t, d).value;
    if way == [] {
      CleanKinds(t, es, len, depth, inside);
      EntriesGrow(t, es, len, depth, inside);
      assert CountEntries(t, es, len, depth, inside).visited[|s.visited|] == d;
    } else {
      CleanWayBelow(t, es, len, depth, inside, way);
      NewLater(Below(t, es, way), s.visited, inside.visited, CountEntries(t, es, len, depth, inside).visited,
               CountEntries(t, es, len, depth, inside).visited);
    }
  }

  lemma {:induction false} CleanWayBelow(t: Tree, es: seq<Event>, len: nat, depth: nat, s: State, way: seq<nat>)
    requires depth <= MAX_DEPTH && EntriesClean(t, es, len, depth, s) && way != []
    ensures FineBelow(t, es, way, len, depth)
    ensures NewDir(Below(t, es, way), s.visited, CountEntries(t, es, len, depth, s).visited)
    decreases |way|, 0, |es|
  {
    if Below(t, es, way).Some? {
      var next := CountEntry(t, es[0], len, depth, s);
      CleanSplits(t, es, len, depth, s, next);
      if way[0] == 0 {
        var inside := Bump(s, Own(KindOf(t, es[0])));
        CleanEntry(t, es[0], len, depth, s, inside);
        CleanWay(t, es[0].tag.num, len + 1 + |es[0].name|, depth + 1, inside, way[1..]);
      } else {
        LaterEntry(t, es, way, len);
        CleanWayBelow(t, es[1..], len, depth, next, [way[0] - 1] + way[1..]);
        NewLater(Below(t, es, way), s.visited, next.visited, CountEntries(t, es, len, depth, s).visited,
                 CountEntries(t, es, len, depth, s).visited);
      }
    }
  }

  /** A way that does not begin at the first entry is one below the others. */
  lemma {:induction false} LaterEntry(t: Tree, es: seq<Event>, way: seq<nat>, len: nat)
    requires way != [] && way[0] > 0 && es != []
    ensures Below(t, es, way) == Below(t, es[1..], [way[0] - 1] + way[1..])
    ensures Below(t, es, way).Some? ==> LenBelow(t, es, way, len) == LenBelow(t, es[1..], [way[0] - 1] + way[1..], len)
  {
    var rest := [way[0] - 1] + way[1..];
    assert rest[1..] == way[1..];
    if way[0] < |es| {
      assert es[1..][rest[0]] == es[way[0]];
    }
  }

  /** Two ways do not lead to one directory. */
  predicate Apart(a: Option<uint32>, b: Option<uint32>, v: seq<nat>, w: seq<nat>) {
    a.Some? && a == b ==> v == w
  }

  lemma {:induction false} CleanWaysPart(t: Tree, d: uint32, len: nat, depth: nat, s: State, v: seq<nat>, w: seq<nat>)
    requires depth <= MAX_DEPTH + 1 && DirClean(t, d, len, depth, s)
    ensures Apart(DirAt(t, d, v), DirAt(t, d, w), v, w)
    decreases |v|, 1, 0
  {
    var inside := s.(visited := s.visited + [d]);
    CleanDir(t, d, len, depth, s, inside);
    var es := Listing(t, d).value;
    if v != [] && w != [] {
      CleanPartBelow(t, es, len, depth, inside, v, w);
    } else {
      assert d in inside.visited;
      if v != [] {
        CleanWayBelow(t, es, len, depth, inside, v);
      }
      if w != [] {
        CleanWayBelow(t, es, len, depth, inside, w);
      }
    }
  }

  lemma {:induction false} CleanPartBelow(t: Tree, es: seq<Event>, len: nat, depth: nat, s: State, v: seq<nat>,
                                          w: seq<nat>)
    requires depth <= MAX_DEPTH && EntriesClean(t, es, len, depth, s) && v != [] && w != []
    ensures Apart(Below(t, es, v), Below(t, es, w), v, w)
    decreases |v|, 0, |es|
  {
    if Below(t, es, v).Some? && Below(t, es, w).Some? {
      var next := CountEntry(t, es[0], len, depth, s);
      CleanSplits(t, es, len, depth, s, next);
      if v[0] == 0 && w[0] == 0 {
        var inside := Bump(s, Own(KindOf(t, es[0])));
        CleanEntry(t, es[0], len, depth, s, inside);
        CleanWaysPart(t, es[0].tag.num, len + 1 + |es[0].name|, depth + 1, inside, v[1..], w[1..]);
        SameHead(v, w);
      } else if v[0] == 0 {
        CleanPartAcross(t, es, len, depth, s, next, v, w);
      } else if w[0] == 0 {
        CleanPartAcross(t, es, len, depth, s, next, w, v);
      } else {
        LaterEntry(t, es, v, len);
        LaterEntry(t, es, w, len);
        CleanPartBelow(t, es[1..], len, depth, next, [v[0] - 1] + v[1..], [w[0] - 1] + w[1..]);
        SameTail(v, w);
      }
    }
  }

  /** A way below the first entry and one below a later entry lead to different directories. */
  lemma {:induction false} CleanPartAcross(t: Tree, es: seq<Event>, len: nat, depth: nat, s: State, next: State,
                                           v: seq<nat>, w: seq<nat>)
    requires depth <= MAX_DEPTH && es != [] && EntriesClean(t, es, len, depth, s)
    requires next == CountEntry(t, es[0], len, depth, s) && v != [] && w != [] && v[0] == 0 < w[0]
    ensures Below(t, es, v).Some? ==> Below(t, es, v) != Below(t, es, w)
  {
    if Below(t, es, v).Some? {
      var inside := Bump(s, Own(KindOf(t, es[0])));
      CleanSplits(t, es, len, depth, s, next);
      CleanEntry(t, es[0], len, depth, s, inside);
      CleanWay(t, es[0].tag.num, len + 1 + |es[0].name|, depth + 1, inside, v[1..]);
      LaterEntry(t, es, w, len);
      CleanWayBelow(t, es[1..], len, depth, next, [w[0] - 1] + w[1..]);
    }
  }

  lemma {:induction false} SameHead(v: seq<nat>, w: seq<nat>)
    requires v != [] && w != [] && v[0] == w[0]
    ensures v == w <==> v[1..] == w[1..]
  {
    assert v == [v[0]] + v[1..] && w == [w[0]] + w[1..];
  }

  lemma {:induction false} SameTail(v: seq<nat>, w: seq<nat>)
    requires v != [] && w != [] && v[0] > 0 && w[0] > 0
    ensures [v[0] - 1] + v[1..] == [w[0] - 1] + w[1..] ==> v == w
  {
    var a, b := [v[0] - 1] + v[1..], [w[0] - 1] + w[1..];
    assert a[0] == v[0] - 1 && a[1..] == v[1..] && b[0] == w[0] - 1 && b[1..] == w[1..];
    if a == b {
      SameHead(v, w);
    }
  }

  // ---- fine ways that part are counted without error ----

  /** Every way from d is fine and leads to a directory of its own that is not among `seen`. */
  ghost predicate Walkable(t: Tree, d: uint32, len: nat, depth: nat, seen: seq<uint32>) {
    && (forall way :: Fine(t, d, way, len, depth) && !(DirAt(t, d, way).Some? && DirAt(t, d, way).value in seen))
    && forall v, w :: Apart(DirAt(t, d, v), DirAt(t, d, w), v, w)
  }

  ghost predicate WalkableBelow(t: Tree, es: seq<Event>, len: nat, depth: nat, seen: seq<uint32>) {
    && (forall i :: 0 <= i < |es| ==> KindOf(t, es[i]) != Bad)
    && (forall way :: way != [] ==>
          FineBelow(t, es, way, len, depth) && !(Below(t, es, way).Some? && Below(t, es, way).value in seen))
    && forall v, w :: v != [] && w != [] ==> Apart(Below(t, es, v), Below(t, es, w), v, w)
  }

  /** What was visited in between is what the ways lead to. */
  ghost predicate VisitsWays(t: Tree, d: uint32, before: seq<uint32>, after: seq<uint32>) {
    forall x :: x in after ==> x in before || exists way :: DirAt(t, d, way) == Some(x)
  }

  ghost predicate VisitsWaysBelow(t: Tree, es: seq<Event>, before: seq<uint32>, after: seq<uint32>) {
    forall x :: x in after ==> x in before || exists way :: way != [] && Below(t, es, way) == Some(x)
  }

  lemma {:induction false} WalkableDir(t: Tree, d: uint32, len: nat, depth: nat, seen: seq<uint32>)
    requires Walkable(t, d, len, depth, seen)
    ensures depth <= 64 && d !in seen && Listing(t, d).Ok?
    ensures WalkableBelow(t, Listing(t, d).value, len, depth, seen + [d])
  {
    var start: seq<nat> := [];
    assert Fine(t, d, start, len, depth) && DirAt(t, d, start) == Some(d);
    var es := Listing(t, d).value;
    forall way: seq<nat> | way != []
      ensures FineBelow(t, es, way, len, depth)
              && !(Below(t, es, way).Some? && Below(t, es, way).value in seen + [d])
    {
      assert Fine(t, d, way, len, depth) && DirAt(t, d, way) == Below(t, es, way);
      assert Apart(DirAt(t, d, way), DirAt(t, d, start), way, start);
    }
    forall v: seq<nat>, w: seq<nat> | v != [] && w != [] ensures Apart(Below(t, es, v), Below(t, es, w), v, w) {
      assert Apart(DirAt(t, d, v), DirAt(t, d, w), v, w);
    }
  }

  lemma {:induction false} FirstEntry(t: Tree, es: seq<Event>, way: seq<nat>, head: seq<nat>, len: nat)
    requires es != [] && KindOf(t, es[0]).Dir? && head == [0] + way
    ensures Below(t, es, head) == DirAt(t, es[0].tag.num, way)
    ensures Below(t, es, head).Some? ==>
              LenBelow(t, es, head, len) == LenAt(t, es[0].tag.num, way, len + 1 + |es[0].name|)
  {
    assert head[1..] == way;
  }

  lemma {:induction false} WalkableFirst(t: Tree, es: seq<Event>, len: nat, depth: nat, seen: seq<uint32>)
    requires WalkableBelow(t, es, len, depth, seen) && es != [] && KindOf(t, es[0]).Dir?
    ensures len + 1 + |es[0].name| < 4096
    ensures Walkable(t, es[0].tag.num, len + 1 + |es[0].name|, depth + 1, seen)
  {
    var d, sub := es[0].tag.num, len + 1 + |es[0].name|;
    FirstEntry(t, es, [], [0], len);
    assert FineBelow(t, es, [0], len, depth);
    forall way: seq<nat>
      ensures Fine(t, d, way, sub, depth + 1) && !(DirAt(t, d, way).Some? && DirAt(t, d, way).value in seen)
    {
      FirstEntry(t, es, way, [0] + way, len);
      assert FineBelow(t, es, [0] + way, len, depth);
    }
    forall v: seq<nat>, w: seq<nat> ensures Apart(DirAt(t, d, v), DirAt(t, d, w), v, w) {
      FirstEntry(t, es, v, [0] + v, len);
      FirstEntry(t, es, w, [0] + w, len);
      assert Apart(Below(t, es, [0] + v), Below(t, es, [0] + w), [0] + v, [0] + w);
      SameHead([0] + v, [0] + w);
      assert ([0] + v)[1..] == v && ([0] + w)[1..] == w;
    }
  }

  /** What the first entry adds to the visited directories. */
  ghost predicate VisitsFirst(t: Tree, e: Event, before: seq<uint32>, after: seq<uint32>) {
    if KindOf(t, e).Dir? then VisitsWays(t, e.tag.num, before, after) else after == before
  }

  function Shifted(way: seq<nat>): (later: seq<nat>)
    requires way != []
    ensures later != [] && later[0] > 0 && [later[0] - 1] + later[1..] == way
  {
    assert ([way[0] + 1] + way[1..])[1..] == way[1..];
    [way[0] + 1] + way[1..]
  }

  lemma {:induction false} HeadsPart(t: Tree, es: seq<Event>, len: nat, depth: nat, seen: seq<uint32>, v: seq<nat>,
                                     w: seq<nat>)
    requires WalkableBelow(t, es, len, depth, seen) && v != [] && w != [] && v[0] != w[0]
    ensures Below(t, es, v).Some? ==> Below(t, es, v) != Below(t, es, w)
  {
    assert Apart(Below(t, es, v), Below(t, es, w), v, w);
  }

  lemma {:induction false} RestIsNew(t: Tree, es: seq<Event>, len: nat, depth: nat, seen: seq<uint32>,
                                     seen': seq<uint32>, way: seq<nat>)
    requires WalkableBelow(t, es, len, depth, seen) && es != [] && VisitsFirst(t, es[0], seen, seen') && way != []
    ensures FineBelow(t, es[1..], way, len, depth)
    ensures !(Below(t, es[1..], way).Some? && Below(t, es[1..], way).value in seen')
  {
    var later := Shifted(way);
    LaterEntry(t, es, later, len);
    assert FineBelow(t, es, later, len, depth);
    if Below(t, es, later).Some? && Below(t, es, later).value in seen' {
      var x := Below(t, es, later).value;
      var u :| DirAt(t, es[0].tag.num, u) == Some(x);
      FirstEntry(t, es, u, [0] + u, len);
      HeadsPart(t, es, len, depth, seen, [0] + u, later);
    }
  }

  lemma {:induction false} WalkableRest(t: Tree, es: seq<Event>, len: nat, depth: nat, seen: seq<uint32>,
                                        seen': seq<uint32>)
    requires WalkableBelow(t, es, len, depth, seen) && es != [] && VisitsFirst(t, es[0], seen, seen')
    ensures WalkableBelow(t, es[1..], len, depth, seen')
  {
    forall way: seq<nat> | way != []
      ensures FineBelow(t, es[1..], way, len, depth)
              && !(Below(t, es[1..], way).Some? && Below(t, es[1..], way).value in seen')
    {
      RestIsNew(t, es, len, depth, seen, seen', way);
    }
    forall v: seq<nat>, w: seq<nat> | v != [] && w != []
      ensures Apart(Below(t, es[1..], v), Below(t, es[1..], w), v, w)
    {
      LaterEntry(t, es, Shifted(v), len);
      LaterEntry(t, es, Shifted(w), len);
      assert Apart(Below(t, es, Shifted(v)), Below(t, es, Shifted(w)), Shifted(v), Shifted(w));
    }
  }

  lemma {:induction false} VisitsOn(t: Tree, es: seq<Event>, a: seq<uint32>, b: seq<uint32>, c: seq<uint32>)
    requires es != [] && VisitsFirst(t, es[0], a, b) && VisitsWaysBelow(t, es[1..], b, c)
    ensures VisitsWaysBelow(t, es, a, c)
  {
    forall x | x in c && x !in a ensures exists way :: way != [] && Below(t, es, way) == Some(x) {
      if x in b {
        var u :| DirAt(t, es[0].tag.num, u) == Some(x);
        FirstEntry(t, es, u, [0] + u, 0);
        assert Below(t, es, [0] + u) == Some(x);
      } else {
        var way :| way != [] && Below(t, es[1..], way) == Some(x);
        LaterEntry(t, es, Shifted(way), 0);
        assert Below(t, es, Shifted(way)) == Some(x);
      }
    }
  }

  lemma {:induction false} VisitsDir(t: Tree, d: uint32, before: seq<uint32>, after: seq<uint32>)
    requires Listing(t, d).Ok? && VisitsWaysBelow(t, Listing(t, d).value, before + [d], after)
    ensures VisitsWays(t, d, before, after)
  {
    forall x | x in after && x !in before ensures exists way :: DirAt(t, d, way) == Some(x) {
      if x == d {
        assert DirAt(t, d, []) == Some(d);
      } else {
        var way :| way != [] && Below(t, Listing(t, d).value, way) == Some(x);
        assert DirAt(t, d, way) == Some(x);
      }
    }
  }

  lemma {:induction false} WalkableIsClean(t: Tree, d: uint32, len: nat, depth: nat, s: State)
    requires depth <= MAX_DEPTH + 1 && Walkable(t, d, len, depth, s.visited)
    ensures DirClean(t, d, len, depth, s) && VisitsWays(t, d, s.visited, CountDir(t, d, len, depth, s).visited)
    decreases MAX_DEPTH + 1 - depth, 2, 0
  {
    WalkableDir(t, d, len, depth, s.visited);
    WalkableEntries(t, Listing(t, d).value, len, depth, s.(visited := s.visited + [d]));
    VisitsDir(t, d, s.visited, CountDir(t, d, len, depth, s).visited);
  }

  lemma {:induction false} WalkableEntries(t: Tree, es: seq<Event>, len: nat, depth: nat, s: State)
    requires depth <= MAX_DEPTH && WalkableBelow(t, es, len, depth, s.visited)
    ensures EntriesClean(t, es, len, depth, s)
    ensures VisitsWaysBelow(t, es, s.visited, CountEntries(t, es, len, depth, s).visited)
    decreases MAX_DEPTH + 1 - depth, 1, |es|
  {
    if es != [] {
      var next := CountEntry(t, es[0], len, depth, s);
      WalkableEntry(t, es, len, depth, s, next);
      WalkableRest(t, es, len, depth, s.visited, next.visited);
      WalkableEntries(t, es[1..], len, depth, next);
      VisitsOn(t, es, s.visited, next.visited, CountEntries(t, es, len, depth, s).visited);
    }
  }

  lemma {:induction false} WalkableEntry(t: Tree, es: seq<Event>, len: nat, depth: nat, s: State, next: State)
    requires depth <= MAX_DEPTH && WalkableBelow(t, es, len, depth, s.visited) && es != []
    requires next == CountEntry(t, es[0], len, depth, s)
    ensures next.tally.errors == s.tally.errors && VisitsFirst(t, es[0], s.visited, next.visited)
    decreases MAX_DEPTH + 1 - depth, 0, 0
  {
    var inside := Bump(s, Own(KindOf(t, es[0])));
    if KindOf(t, es[0]).Dir? {
      WalkableFirst(t, es, len, depth, s.visited);
      WalkableIsClean(t, es[0].tag.num, len + 1 + |es[0].name|, depth + 1, inside);
    }
  }

  // ---- main result ----

  /** Every way from the root is fine, and no two lead to one directory. */
  ghost predicate IsFineTree(t: Tree, root: uint32, len: nat) {
    && (forall way :: Fine(t, root, way, len, 0))
    && forall v, w :: Apart(DirAt(t, root, v), DirAt(t, root, w), v, w)
  }

  lemma {:induction false} CleanIsFine(t: Tree, root: uint32, len: nat, depth: nat, s: State)
    requires depth == 0 && s == Fresh() && DirClean(t, root, len, depth, s)
    ensures IsFineTree(t, root, len)
  {
    forall way ensures Fine(t, root, way, len, 0) {
      CleanWay(t, root, len, depth, s, way);
    }
    forall v, w ensures Apart(DirAt(t, root, v), DirAt(t, root, w), v, w) {
      CleanWaysPart(t, root, len, depth, s, v, w);
    }
  }

  lemma {:induction false} FineIsClean(t: Tree, root: uint32, len: nat, depth: nat, s: State)
    requires depth == 0 && s == Fresh() && IsFineTree(t, root, len)
    ensures DirClean(t, root, len, depth, s)
  {
    assert Walkable(t, root, len, depth, s.visited);
    WalkableIsClean(t, root, len, depth, s);
  }

  /** A count reports no error exactly if the directories below the root form a tree, at most
      64 deep and with paths shorter than 4096, all listed and with their entries' stat records. */
  lemma {:induction false} NoErrorsForTrees(t: Tree, root: uint32, len: nat, r: State)
    requires CountsFrom(t, root, len, r)
    ensures r.tally.errors == 0 <==> IsFineTree(t, root, len)
  {
    var depth := 0;
    assert r.tally.errors == 0 <==> DirClean(t, root, len, depth, Fresh());
    if r.tally.errors == 0 {
      CleanIsFine(t, root, len, depth, Fresh());
    }
    if IsFineTree(t, root, len) {
      FineIsClean(t, root, len, depth, Fresh());
    }
  }
}
