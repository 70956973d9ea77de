/** Concrete disks on which directory lookups differ. */
module DirExamples {
  import opened Ods
  import opened LittleEndian
  import opened Extents
  import opened Filesets
  import opened DirBlock
  import opened DirEntries
  import opened Dir
  import opened DirLookup
  import opened DirClones
  import FileData
  import Boundary

  // ---- a page with one entry ----

  function OneName(): seq<byte> { [0x61] }

  function OneEntry(): Entry {
    Named(true, OneName(), Tag(7, 1), 0)
  }

  function OnePage(): Page {
    OneEntry().Print() + Zeros(PGSZ - OneEntry().Size())
  }

  lemma {:induction false} ZeroBlocks(bytes: seq<byte>)
    requires |bytes| % 512 == 0 && forall i :: 0 <= i < |bytes| ==> bytes[i] == 0
    ensures BlockEvents(bytes) == []
    decreases |bytes|
  {
    if bytes != [] {
      ZeroBlocks(bytes[512..]);
    }
  }

  lemma {:induction false} OneBlock(e: Entry, tail: seq<byte>, block: Block)
    requires e == OneEntry() && tail == Zeros(512 - e.Size()) && block == e.Print() + tail
    ensures EventsFrom(block, 0) == [Live(OneName(), Tag(7, 1))]
  {
    var es := [e];
    assert es[1..] == [];
    assert PrintAll(es) == e.Print();
    WalkReadsBack(es, tail, block);
  }

  /** A page that starts with some bytes and is zero from there on. */
  lemma {:induction false} PageShape(first: seq<byte>, page: seq<byte>)
    requires |first| <= 512 && page == first + Zeros(PGSZ - |first|)
    ensures page[..512] == first + Zeros(512 - |first|)
    ensures forall i :: 0 <= i < |page[512..]| ==> page[512..][i] == 0
  {
  }

  lemma {:induction false} OnlyFirstBlock(page: Page, block: Block, es: seq<Event>)
    requires page[..512] == block && EventsFrom(block, 0) == es
    requires forall i :: 0 <= i < |page[512..]| ==> page[512..][i] == 0
    ensures BlockEvents(page) == es
  {
    ZeroBlocks(page[512..]);
    assert es + [] == es;
  }

  lemma {:induction false} OnePageEvents(page: Page, e: Entry, first: seq<byte>)
    requires e == OneEntry() && first == e.Print() && page == first + Zeros(PGSZ - |first|)
    ensures BlockEvents(page) == [Live(OneName(), Tag(7, 1))]
  {
    PageShape(first, page);
    OneBlock(e, Zeros(512 - |first|), page[..512]);
    OnlyFirstBlock(page, page[..512], [Live(OneName(), Tag(7, 1))]);
  }

  lemma {:induction false} OnePageHolds(page: Page)
    requires page == OnePage()
    ensures TagIn(Ok(Some(page)), OneName()) == Some(Tag(7, 1))
  {
    OnePageEvents(page, OneEntry(), OneEntry().Print());
  }

  lemma {:induction false} OnePageIsNotZero(page: Page, e: Entry)
    requires page == OnePage() && e == OneEntry()
    ensures page != ZeroPage()
  {
    assert e.Header()[0] == Put32(7)[0] == 7;
    assert page[0] == e.Print()[0] == e.Header()[0];
  }

  // ---- maps and disks ----

  /** Volume 1 can be read at page 10 only, where that directory page is. */
  function OneStore(): Store {
    Store((vd: uint32) => if vd == 1 then Some(0) else None,
          (vol: nat, page: uint32) => if page == 10 then Ok(OnePage()) else Err(EIO))
  }

  function MappedTo(pages: uint32): seq<Extent> {
    [Extent(0, 160, 1), Extent(pages, XTNT_TERM, 1)]
  }

  function HoleOnly(): seq<Extent> {
    [Extent(0, PERM_HOLE, 1), Extent(1, XTNT_TERM, 1)]
  }

  lemma {:induction false} MappedPages(st: Store, xs: seq<Extent>, n: uint32)
    requires st == OneStore() && xs == MappedTo(n) && 1 <= n <= 2
    ensures PageCount(xs) == n && PageIn(st, xs, 0) == Ok(Some(OnePage()))
    ensures n == 2 ==> PageIn(st, xs, 1) == Err(EIO)
  {
    assert xs[..1] == [xs[0]] && xs[..1][..0] == [];
    Boundary.FirstCoverIs(Starts(xs), 0, 0);
    if n == 2 {
      Boundary.FirstCoverIs(Starts(xs), 0, 1);
    }
  }

  lemma {:induction false} HolePages(st: Store, xs: seq<Extent>)
    requires xs == HoleOnly()
    ensures PageCount(xs) == 1 && PageIn(st, xs, 0) == Ok(None)
  {
    assert xs[..1] == [xs[0]] && xs[..1][..0] == [];
    Boundary.FirstCoverIs(Starts(xs), 0, 0);
  }

  /** Fileset 5 is the original, with the directory's page; in the clone it is a hole. */
  function CloneDisk(): Disk {
    Disk(OneStore(), loc => Err(ENODATA), (loc: McellLoc) => if loc.page == 1 then Ok(MappedTo(1)) else Ok(HoleOnly()),
         (tag: uint32) => if tag == 5 then Ok(SetAt(1)) else Err(ENOENT))
  }

  function SetAt(page: uint32): Fileset {
    Fileset((tag: uint32) => Err(ENOENT), (tag: uint32) => Ok(McellLoc(1, page, 0)))
  }

  /** On this disk the mount does not find a name that the tool finds. */
  lemma {:induction false} MountMissesName(disk: Disk, fs: Fileset, tag: uint32)
    requires disk == CloneDisk() && fs == SetAt(0) && tag != 0
    ensures ByStopping(DirStream(disk, fs, None, tag), OneName()) == Err(ENOENT)
    ensures ByCollecting(DirStream(disk, fs, Some(5), tag), OneName()) == Ok(Tag(7, 1))
  {
    var m := Maps(OneStore(), HoleOnly(), MappedTo(1));
    MappedPages(m.store, m.orig, 1);
    HolePages(m.store, m.own);
    assert DirMap(disk, fs, tag) == Ok(m.own);
    assert OrigDirMap(disk, Some(5), tag) == m.orig && OrigDirMap(disk, None, tag) == [];
    OnePageHolds(OnePage());
    OneChoice(m);
  }

  /** The lookups of a directory with a hole in the clone and one page in the original. */
  lemma {:induction false} OneChoice(m: Maps)
    requires PageCount(m.own) == PageCount(m.orig) == 1 && PageIn(m.store, m.own, 0) == Ok(None)
    requires PageIn(m.store, m.orig, 0) == Ok(Some(OnePage()))
    requires TagIn(Ok(Some(OnePage())), OneName()) == Some(Tag(7, 1))
    ensures ByStopping(StreamOf(Maps(m.store, m.own, [])), OneName()) == Err(ENOENT)
    ensures ByCollecting(StreamOf(m), OneName()) == Ok(Tag(7, 1))
  {
    var mount, n := Maps(m.store, m.own, []), 1;
    assert PageCount([]) == 0;
    StreamIsJoin(mount, 0, n);
    StreamIsJoin(m, 0, n);
    assert Choices(mount, 0, n) == [Ok(None)] && Choices(m, 0, n) == [Ok(Some(OnePage()))];
    NoChoice([Ok(None)]);
    FoundChoice([Ok(Some(OnePage()))]);
  }

  lemma {:induction false} NoChoice(cs: seq<Choice>)
    requires cs == [Ok(None)]
    ensures ByStopping(Join(cs), OneName()) == Err(ENOENT)
  {
    StoppingByPages(cs, OneName());
  }

  lemma {:induction false} FoundChoice(cs: seq<Choice>)
    requires |cs| == 1 && TagIn(cs[0], OneName()) == Some(Tag(7, 1))
    ensures ByCollecting(Join(cs), OneName()) == Ok(Tag(7, 1))
  {
    CollectingByPages(cs, OneName());
  }

  /** A directory of two pages, the second of which cannot be read. */
  function BadPageDisk(): Disk {
    Disk(OneStore(), loc => Err(ENODATA), (loc: McellLoc) => Ok(MappedTo(2)), (tag: uint32) => Err(ENOENT))
  }

  /** The name stands before a page that cannot be read: only the mount finds it. */
  lemma {:induction false} MatchBeforeUnreadable(disk: Disk, fs: Fileset, tag: uint32)
    requires disk == BadPageDisk() && fs == SetAt(0) && tag != 0
    ensures ByStopping(DirStream(disk, fs, None, tag), OneName()) == Ok(Tag(7, 1))
    ensures ByCollecting(DirStream(disk, fs, None, tag), OneName()) == Err(EIO)
  {
    var m := Maps(OneStore(), MappedTo(2), []);
    MappedPages(m.store, m.own, 2);
    OnePageHolds(OnePage());
    assert DirMap(disk, fs, tag) == Ok(m.own) && OrigDirMap(disk, None, tag) == [];
    TwoPages(m, 2);
  }

  lemma {:induction false} TwoPages(m: Maps, n: nat)
    requires PageCount(m.own) == n == 2 && m.orig == []
    requires PageIn(m.store, m.own, 0) == Ok(Some(OnePage())) && PageIn(m.store, m.own, 1) == Err(EIO)
    requires TagIn(Ok(Some(OnePage())), OneName()) == Some(Tag(7, 1))
    ensures ByStopping(StreamOf(m), OneName()) == Ok(Tag(7, 1))
    ensures ByCollecting(StreamOf(m), OneName()) == Err(EIO)
  {
    assert PageCount([]) == 0;
    StreamIsJoin(m, 0, n);
    TwoChoices(Choices(m, 0, n), Ok(Some(OnePage())));
  }

  lemma {:induction false} TwoChoices(cs: seq<Choice>, first: Choice)
    requires |cs| == 2 && cs[0] == first && first.Ok? && cs[1] == Err(EIO) && TagIn(first, OneName()) == Some(Tag(7, 1))
    ensures ByStopping(Join(cs), OneName()) == Ok(Tag(7, 1)) && ByCollecting(Join(cs), OneName()) == Err(EIO)
  {
    StoppingByPages(cs, OneName());
    CollectingByPages(cs, OneName());
  }

  /** Beyond the clone's map and in the original's: a directory reads the original's page,
      a file reads zeros. */
  lemma {:induction false} FallbacksDifferBeyond(m: Maps)
    requires m == Maps(OneStore(), [Extent(0, XTNT_TERM, 1)], MappedTo(1))
    ensures ChoosePage(m, 0) == Ok(Some(OnePage())) && OnePage() != ZeroPage()
    ensures FileData.PageOf(FileData.Source(m.store, m.own, Some(Ok(m.orig))), 0) == Ok(ZeroPage())
  {
    MappedPages(m.store, m.orig, 1);
    OnePageIsNotZero(OnePage(), OneEntry());
    Boundary.FirstCoverIs(Starts(m.own), 0, 0);
  }
}
