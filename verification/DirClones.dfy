/** Looking up a name in a clone's directory: the mount, which reads the clone's own
    pages only (src/fuse_ops.c), against the tool, which falls back to the original
    fileset page by page (src/advfs_tool.c, src/dir.c). */
module DirClones {
  import opened Ods
  import opened Extents
  import opened DirBlock
  import opened Filesets
  import opened Dir
  import opened DirLookup
  import FileData

  // ---- lookups, page by page ----

  /** A page, none, or the error it fails with. */
  type Choice = Result<Option<Page>>

  /** The tag under which a page holds a name, if it does. */
  function TagIn(c: Choice, name: seq<byte>): Option<Tag> {
    if c.Ok? && c.value.Some? then FirstNamed(Lives(BlockEvents(c.value.value)), name) else None
  }

  /** Index of the first page that holds the name, or the number of pages. */
  function Holder(cs: seq<Choice>, name: seq<byte>): (i: nat)
    ensures i <= |cs| && (i < |cs| ==> TagIn(cs[i], name).Some?)
    ensures forall k :: 0 <= k < i ==> TagIn(cs[k], name) == None
  {
    if cs == [] || TagIn(cs[0], name).Some? then 0 else 1 + Holder(cs[1..], name)
  }

  /** Index of the first unreadable page, or the number of pages. */
  function Unreadable(cs: seq<Choice>): (i: nat)
    ensures i <= |cs| && (i < |cs| ==> cs[i].Err?)
    ensures forall k :: 0 <= k < i ==> cs[k].Ok?
  {
    if cs == [] || cs[0].Err? then 0 else 1 + Unreadable(cs[1..])
  }

  lemma {:induction false} WantedConcat(sink: Sink, a: seq<Event>, b: seq<Event>)
    ensures Wanted(sink, a + b) == Wanted(sink, a) + Wanted(sink, b)
    decreases |a|
  {
    if a == [] {
      assert a + b == b;
    } else {
      assert (a + b)[0] == a[0] && (a + b)[1..] == a[1..] + b;
      WantedConcat(sink, a[1..], b);
    }
  }

  lemma {:induction false} NamedConcat(a: seq<Event>, b: seq<Event>, name: seq<byte>)
    ensures FirstNamed(a + b, name) == if FirstNamed(a, name).Some? then FirstNamed(a, name) else FirstNamed(b, name)
    decreases |a|
  {
    if a == [] {
      assert a + b == b;
    } else {
      assert (a + b)[0] == a[0] && (a + b)[1..] == a[1..] + b;
      NamedConcat(a[1..], b, name);
    }
  }

  lemma {:induction false} NamedBefore(c: Choice, rest: Stream, name: seq<byte>)
    requires c.Ok?
    ensures FirstNamed(Lives(Before(c, rest).events), name)
            == if TagIn(c, name).Some? then TagIn(c, name) else FirstNamed(Lives(rest.events), name)
  {
    if c.value.Some? {
      var es := BlockEvents(c.value.value);
      WantedConcat(CollectSink(), es, rest.events);
      NamedConcat(Lives(es), Lives(rest.events), name);
    }
  }

  /** A stream's first match and error, from its pages. */
  lemma {:induction false} JoinFinds(cs: seq<Choice>, name: seq<byte>)
    ensures var h, u := Holder(cs, name), Unreadable(cs);
            && FirstNamed(Lives(Join(cs).events), name) == (if h < u then TagIn(cs[h], name) else None)
            && Join(cs).err == (if u < |cs| then Some(cs[u].errno) else None)
    decreases |cs|
  {
    if cs != [] && cs[0].Ok? {
      JoinFinds(cs[1..], name);
      NamedBefore(cs[0], Join(cs[1..]), name);
    }
  }

  /** The early-stop lookup: the first page that holds the name or cannot be read decides. */
  lemma {:induction false} StoppingByPages(cs: seq<Choice>, name: seq<byte>)
    ensures var h, u := Holder(cs, name), Unreadable(cs);
            ByStopping(Join(cs), name)
            == if h < u then Ok(TagIn(cs[h], name).value) else if u < |cs| then Err(cs[u].errno) else Err(ENOENT)
  {
    JoinFinds(cs, name);
    StoppingFinds(Join(cs), name);
  }

  /** The collecting lookup: any unreadable page decides, else the first that holds the name. */
  lemma {:induction false} CollectingByPages(cs: seq<Choice>, name: seq<byte>)
    ensures var h, u := Holder(cs, name), Unreadable(cs);
            ByCollecting(Join(cs), name)
            == if u < |cs| then Err(cs[u].errno) else if h < |cs| then Ok(TagIn(cs[h], name).value) else Err(ENOENT)
  {
    JoinFinds(cs, name);
    CollectingFinds(Join(cs), name);
  }

  // ---- the mount and the tool ----

  /** The pages the mount reads: the clone's own. */
  function OwnPages(m: Maps): seq<Choice> {
    Choices(Maps(m.store, m.own, []), 0, PageTotal(Maps(m.store, m.own, [])))
  }

  /** The pages the tool reads: the clone's own, else the original's. */
  function AllPages(m: Maps): seq<Choice> {
    Choices(m, 0, PageTotal(m))
  }

  /** Page p is read from the clone by both. */
  predicate IsOwn(m: Maps, p: nat) {
    p < |OwnPages(m)| && OwnPages(m)[p] != Ok(None)
  }

  lemma {:induction false} OwnPageIsRead(m: Maps, p: nat)
    requires p < |AllPages(m)| && IsOwn(m, p)
    ensures AllPages(m)[p] == OwnPages(m)[p]
  {
  }

  lemma {:induction false} NeverNoEntry(m: Maps, p: uint32)
    ensures ChoosePage(m, p) != Err(ENOENT)
  {
  }

  /** When do the mount and the tool agree on a name? With unreadable pages, when the mount
      meets one with the error the tool reports, before any match of its own. Otherwise,
      when the first page that holds the name is the clone's own, or the clone's own first
      match has the same tag, or no page holds it, pages that only the mount reads included. */
  predicate SameAnswer(m: Maps, name: seq<byte>) {
    var own, all := OwnPages(m), AllPages(m);
    var u, h := Unreadable(all), Holder(all, name);
    var u', h' := Unreadable(own), Holder(own, name);
    if u < |all| then u' < |own| && u' <= h' && own[u'].errno == all[u].errno
    else if h < |all| then IsOwn(m, h) || (h' < u' && TagIn(own[h'], name) == TagIn(all[h], name))
    else forall p :: |all| <= p < |own| ==> own[p].Ok? && TagIn(own[p], name) == None
  }

  lemma {:induction false} OwnBeforeMatch(m: Maps, name: seq<byte>, p: nat)
    requires Unreadable(AllPages(m)) == |AllPages(m)|
    requires p <= Holder(AllPages(m), name) < |AllPages(m)| && p < |OwnPages(m)|
    ensures OwnPages(m)[p].Ok? && (p < Holder(AllPages(m), name) ==> TagIn(OwnPages(m)[p], name) == None)
  {
    if IsOwn(m, p) {
      OwnPageIsRead(m, p);
    }
  }

  /** If the tool's first match is the clone's own, the mount finds it, too. */
  lemma {:induction false} OwnMatchIsFirst(m: Maps, name: seq<byte>)
    requires Unreadable(AllPages(m)) == |AllPages(m)|
    requires Holder(AllPages(m), name) < |AllPages(m)| && IsOwn(m, Holder(AllPages(m), name))
    ensures var own := OwnPages(m);
            && Holder(own, name) == Holder(AllPages(m), name) < Unreadable(own)
            && TagIn(own[Holder(own, name)], name) == TagIn(AllPages(m)[Holder(own, name)], name)
  {
    var own, h := OwnPages(m), Holder(AllPages(m), name);
    var h', u' := Holder(own, name), Unreadable(own);
    OwnPageIsRead(m, h);
    if u' <= h {
      OwnBeforeMatch(m, name, u');
    }
    if h' < h {
      OwnBeforeMatch(m, name, h');
    }
  }

  /** If no page the tool reads holds the name, the clone's own matches and unreadable
      pages lie behind those pages. */
  lemma {:induction false} NoMatchNoOwn(m: Maps, name: seq<byte>, p: nat)
    requires Unreadable(AllPages(m)) == |AllPages(m)| == Holder(AllPages(m), name)
    requires p < |AllPages(m)| && p < |OwnPages(m)|
    ensures OwnPages(m)[p].Ok? && TagIn(OwnPages(m)[p], name) == None
  {
    if IsOwn(m, p) {
      OwnPageIsRead(m, p);
    }
  }

  lemma {:induction false} NoMatchExactly(m: Maps, name: seq<byte>)
    requires Unreadable(AllPages(m)) == |AllPages(m)| == Holder(AllPages(m), name)
    ensures SameAnswer(m, name) <==> Unreadable(OwnPages(m)) == |OwnPages(m)| == Holder(OwnPages(m), name)
  {
    var own := OwnPages(m);
    forall p | 0 <= p < |AllPages(m)| && p < |own| ensures own[p].Ok? && TagIn(own[p], name) == None {
      NoMatchNoOwn(m, name, p);
    }
  }

  lemma {:induction false} UnreadableIsNoEntry(m: Maps, total: nat, u: nat)
    requires total <= MAX_DIR_PAGES && u == Unreadable(Choices(m, 0, total)) < total
    ensures Choices(m, 0, total)[u].errno != ENOENT
  {
    NeverNoEntry(m, u);
  }

  /** The mount's early-stop lookup on the clone and the tool's collecting lookup with the
      fallback give the same answer exactly in these cases, for all maps and names. */
  lemma {:induction false} MapsAgreeExactly(m: Maps, name: seq<byte>)
    ensures ByStopping(StreamOf(Maps(m.store, m.own, [])), name) == ByCollecting(StreamOf(m), name)
            <==> SameAnswer(m, name)
  {
    var own, all := OwnPages(m), AllPages(m);
    StreamIsJoin(Maps(m.store, m.own, []), 0, |own|);
    StreamIsJoin(m, 0, |all|);
    StoppingByPages(own, name);
    CollectingByPages(all, name);
    if Unreadable(own) < |own| {
      UnreadableIsNoEntry(Maps(m.store, m.own, []), |own|, Unreadable(own));
    }
    if Unreadable(all) < |all| {
      UnreadableIsNoEntry(m, |all|, Unreadable(all));
    } else if Holder(all, name) == |all| {
      NoMatchExactly(m, name);
    } else if IsOwn(m, Holder(all, name)) {
      OwnMatchIsFirst(m, name);
    }
  }

  /** On every disk, for every directory of every fileset, clone or not: the mount and the
      tool answer alike exactly if the directory cannot be opened, or in these cases. */
  lemma {:induction false} CloneLookupsAgreeExactly(disk: Disk, fs: Fileset, clone: Option<uint32>, tag: uint32,
                                                    name: seq<byte>)
    ensures ByStopping(DirStream(disk, fs, None, tag), name) == ByCollecting(DirStream(disk, fs, clone, tag), name)
            <==> tag == 0 || DirMap(disk, fs, tag).Err?
                 || SameAnswer(Maps(disk.store, DirMap(disk, fs, tag).value, OrigDirMap(disk, clone, tag)), name)
  {
    if tag == 0 || DirMap(disk, fs, tag).Err? {
      var s := DirStream(disk, fs, None, tag);
      StoppingFinds(s, name);
      CollectingFinds(s, name);
    } else {
      MapsAgreeExactly(Maps(disk.store, DirMap(disk, fs, tag).value, OrigDirMap(disk, clone, tag)), name);
    }
  }

  // ---- unmodified directories ----

  /** No page of the map is really present. */
  predicate Untouched(m: Maps) {
    forall pg: uint32 {:trigger PageIn(m.store, m.own, pg)} :: PageIn(m.store, m.own, pg) == Ok(None)
  }

  lemma {:induction false} UntouchedPages(m: Maps, pg: nat, total: nat)
    requires Untouched(m) && pg <= total <= MAX_DIR_PAGES
    ensures PagesFrom(m, pg, total) == PagesFrom(Maps(m.store, m.orig, []), pg, total)
    decreases total - pg
  {
    if pg < total {
      UntouchedPages(m, pg + 1, total);
      assert PageIn(m.store, m.own, pg) == Ok(None);
    }
  }

  /** An unmodified directory of a clone reads, with the fallback, the original's pages up
      to the page total, which the clone's own map may push beyond the original's. */
  lemma {:induction false} UntouchedReadsOriginal(m: Maps)
    requires Untouched(m)
    ensures StreamOf(m) == PagesFrom(Maps(m.store, m.orig, []), 0, PageTotal(m))
  {
    UntouchedPages(m, 0, PageTotal(m));
  }

  lemma {:induction false} BeyondIsEmpty(store: Store, xs: seq<Extent>, pg: nat, total: nat)
    requires Terminated(xs) && !HasEmptyTail(xs) && PageCount(xs) <= pg <= total <= MAX_DIR_PAGES
    ensures PagesFrom(Maps(store, xs, []), pg, total) == Stream([], None)
    decreases total - pg
  {
    if pg < total {
      BeyondIsEmpty(store, xs, pg + 1, total);
      PageCountOfTerminated(xs);
      AbsentFromTerm(xs, pg);
    }
  }

  /** With a well-terminated original this is the original directory, whatever the clone's
      stub map claims. */
  lemma {:induction false} UntouchedIsOriginal(m: Maps)
    requires Untouched(m) && Terminated(m.orig) && !HasEmptyTail(m.orig)
    ensures StreamOf(m) == StreamOf(Maps(m.store, m.orig, []))
  {
    var orig := Maps(m.store, m.orig, []);
    UntouchedReadsOriginal(m);
    assert PageCount([]) == 0;
    var t, total := PageTotal(orig), PageTotal(m);
    if t < total {
      StreamSplits(orig, 0, t, total);
      BeyondIsEmpty(m.store, m.orig, t, total);
      ThenNothing(PagesFrom(orig, 0, t));
    }
  }

  lemma {:induction false} ThenNothing(s: Stream)
    ensures Then(s, Stream([], None)) == s
  {
    assert s.events + [] == s.events;
  }

  lemma {:induction false} ChoicesSplit(m: Maps, pg: nat, mid: nat, total: nat)
    requires pg <= mid <= total <= MAX_DIR_PAGES
    ensures Choices(m, pg, total) == Choices(m, pg, mid) + Choices(m, mid, total)
  {
  }

  lemma {:induction false} StreamSplits(m: Maps, pg: nat, mid: nat, total: nat)
    requires pg <= mid <= total <= MAX_DIR_PAGES
    ensures PagesFrom(m, pg, total) == Then(PagesFrom(m, pg, mid), PagesFrom(m, mid, total))
  {
    StreamIsJoin(m, pg, mid);
    StreamIsJoin(m, mid, total);
    StreamIsJoin(m, pg, total);
    ChoicesSplit(m, pg, mid, total);
    JoinSplits(Choices(m, pg, mid), Choices(m, mid, total));
  }

  /** The mount, which passes no clone context, finds no name in such a directory. */
  lemma {:induction false} MountMissesUntouched(m: Maps, name: seq<byte>)
    requires Untouched(m)
    ensures ByStopping(StreamOf(Maps(m.store, m.own, [])), name) == Err(ENOENT)
  {
    var own := OwnPages(m);
    StreamIsJoin(Maps(m.store, m.own, []), 0, |own|);
    StoppingByPages(own, name);
    forall p | 0 <= p < |own| ensures own[p] == Ok(None) {
      assert PageIn(m.store, m.own, p) == Ok(None);
    }
  }

  // ---- directories against files ----

  /** Directory pages and file pages fall back differently: directories also on pages
      beyond the clone's map, files only on holes. The page read is the same exactly
      if the clone's own lookup is not ENOENT, or the original has only zeros there. */
  lemma {:induction false} FallbacksDiffer(m: Maps, pg: uint32)
    requires m.own != [] && m.orig != []
    ensures OrZeroPage(ChoosePage(m, pg)) == FileData.PageOf(FileData.Source(m.store, m.own, Some(Ok(m.orig))), pg)
            <==> ReadPage(m.store, m.own, pg).data != Err(ENOENT)
                 || OrZeroPage(PageIn(m.store, m.orig, pg)) == Ok(ZeroPage())
  {
  }

  function OrZeroPage(r: Choice): Result<Page> {
    match r
    case Err(e) => Err(e)
    case Ok(page) => Ok(page.GetOr(ZeroPage()))
  }
}
