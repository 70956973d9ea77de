/** Which pages a directory is read from (src/dir.c). */
module DirPages {
  import opened Ods
  import opened Extents
  import opened DirBlock
  import opened Filesets
  import opened Dir
  import opened DirClones

  lemma {:induction false} OrigDirMapIs(disk: Disk, clone: Option<uint32>, tag: uint32, orig: Option<seq<Extent>>)
    requires OriginalIs(disk, clone, tag, orig)
    ensures OrigDirMap(disk, clone, tag) == orig.GetOr([])
  {
  }

  /** Page p is read: it lies below both the limit and the page count of the original, or of
      the directory's own map, unless that is a clone's bogus stub. */
  predicate IsRead(own: seq<Extent>, orig: Option<seq<Extent>>, p: nat) {
    p < 16384
    && ((orig.Some? && p < PageCount(orig.value))
        || (p < PageCount(own) && (PageCount(own) <= 16384 || orig.GetOr([]) == [])))
  }

  lemma {:induction false} PageTotalExactly(m: Maps, orig: Option<seq<Extent>>, p: nat)
    requires m.orig == orig.GetOr([])
    ensures p < PageTotal(m) <==> IsRead(m.own, orig, p)
  {
    assert PageCount([]) == 0;
  }

  /** The page read under a number: the directory's own, or else the one of the same
      directory in the original fileset. */
  predicate PageIs(store: Store, own: seq<Extent>, orig: Option<seq<Extent>>, p: uint32, page: Option<Page>) {
    if PageIn(store, own, p) == Ok(None) && orig.Some? then PageIn(store, orig.value, p) == Ok(page)
    else PageIn(store, own, p) == Ok(page)
  }

  function PageEvents(page: Option<Page>): seq<Event> {
    if page.None? then [] else BlockEvents(page.value)
  }

  /** The blocks of a page from block i on. */
  function BlocksFrom(page: Page, i: nat): (bytes: seq<byte>)
    requires i <= 16
    ensures |bytes| % 512 == 0 && |bytes| == 512 * (16 - i)
  {
    page[512 * i..]
  }

  lemma {:induction false} BlocksShift(page: Page, i: nat, bytes: seq<byte>)
    requires i < 16 && bytes == BlocksFrom(page, i)
    ensures bytes[..512] == BlockAt(page, i) && bytes[512..] == BlocksFrom(page, i + 1)
  {
  }

  lemma {:induction false} BlockThenRest(page: Page, i: nat, bytes: seq<byte>, rest: seq<byte>)
    requires i < 16 && bytes == BlocksFrom(page, i) && rest == BlocksFrom(page, i + 1)
    ensures BlockEvents(bytes) == EventsFrom(BlockAt(page, i), 0) + BlockEvents(rest)
  {
    BlocksShift(page, i, bytes);
  }

  lemma {:induction false} SomeBlock(page: Page, i: nat, rest: seq<byte>, next: seq<Event>)
      returns (events: seq<Event>, first: seq<Event>)
    requires i < 16 && rest == BlocksFrom(page, i + 1) && next == BlockEvents(rest)
    ensures events == BlockEvents(BlocksFrom(page, i)) && events == first + next
  {
    var bytes := BlocksFrom(page, i);
    BlockThenRest(page, i, bytes, rest);
    events, first := BlockEvents(bytes), EventsFrom(BlockAt(page, i), 0);
  }

  lemma {:induction false} Behind(all: seq<Event>, before: seq<Event>, first: seq<Event>, next: seq<Event>)
    requires all == before + (first + next)
    ensures all == (before + first) + next
  {
  }

  lemma {:induction false} WholePage(page: Page, i: nat, bytes: seq<byte>)
    requires i == 0 && bytes == BlocksFrom(page, i)
    ensures bytes == page
  {
  }

  lemma {:induction false} FromBlock(page: Page, all: seq<Event>, i: nat, bytes: seq<byte>, events: seq<Event>)
      returns (before: seq<Event>)
    requires i < 16 && all == BlockEvents(page) && bytes == BlocksFrom(page, i) && events == BlockEvents(bytes)
    ensures all == before + events
    decreases i
  {
    if i == 0 {
      WholePage(page, i, bytes);
      before := [];
    } else {
      var previous, first := SomeBlock(page, i - 1, bytes, events);
      before := FromBlock(page, all, i - 1, BlocksFrom(page, i - 1), previous);
      Behind(all, before, first, events);
      before := before + first;
    }
  }

  /** Each of the 16 blocks of a page contributes its events. */
  lemma {:induction false} BlockInPage(page: Page, i: nat, block: Block) returns (before: seq<Event>, after: seq<Event>)
    requires i < 16 && block == page[512 * i..512 * i + 512]
    ensures BlockEvents(page) == before + (EventsFrom(block, 0) + after)
  {
    var bytes, rest := BlocksFrom(page, i), BlocksFrom(page, i + 1);
    after := BlockEvents(rest);
    BlockThenRest(page, i, bytes, rest);
    before := FromBlock(page, BlockEvents(page), i, bytes, BlockEvents(bytes));
  }

  lemma {:induction false} FirstOfStream(m: Maps, p: nat, total: nat)
    requires p < total <= MAX_DIR_PAGES && PagesFrom(m, p, total).err == None
    ensures ChoosePage(m, p).Ok? && PagesFrom(m, p + 1, total).err == None
    ensures PagesFrom(m, p, total).events
            == PageEvents(ChoosePage(m, p).value) + PagesFrom(m, p + 1, total).events
  {
    assert [] + PagesFrom(m, p + 1, total).events == PagesFrom(m, p + 1, total).events;
  }

  /** A stream without error has a page's events right behind those of the pages before it. */
  lemma {:induction false} StreamAtPage(m: Maps, p: nat, total: nat) returns (after: seq<Event>)
    requires p < total <= MAX_DIR_PAGES && PagesFrom(m, 0, total).err == None
    ensures ChoosePage(m, p).Ok?
    ensures PagesFrom(m, 0, total).events == PagesFrom(m, 0, p).events + (PageEvents(ChoosePage(m, p).value) + after)
  {
    StreamSplits(m, 0, p, total);
    FirstOfStream(m, p, total);
    after := PagesFrom(m, p + 1, total).events;
  }

  lemma {:induction false} ChoiceIs(m: Maps, orig: Option<seq<Extent>>, p: uint32, page: Option<Page>)
    requires m.orig == orig.GetOr([]) && PageIs(m.store, m.own, orig, p, page)
    ensures ChoosePage(m, p) == Ok(page)
  {
  }

  /** A directory read without error holds the entries of every page below either page count,
      each taken from the directory itself or else from the directory of the same tag in the
      original fileset. */
  lemma {:induction false} DirectoryHolds(disk: Disk, fs: Fileset, clone: Option<uint32>, tag: uint32, own: seq<Extent>,
                                          orig: Option<seq<Extent>>, p: nat, page: Option<Page>)
      returns (before: seq<Event>, after: seq<Event>)
    requires tag != 0 && fs.locate(tag).Ok? && disk.extents(fs.locate(tag).value) == Ok(own)
    requires OriginalIs(disk, clone, tag, orig) && DirStream(disk, fs, clone, tag).err == None
    requires IsRead(own, orig, p) && PageIs(disk.store, own, orig, p, page)
    ensures DirStream(disk, fs, clone, tag).events == before + (PageEvents(page) + after)
  {
    var m := Maps(disk.store, own, OrigDirMap(disk, clone, tag));
    OrigDirMapIs(disk, clone, tag, orig);
    PageTotalExactly(m, orig, p);
    before := PagesFrom(m, 0, p).events;
    after := StreamAtPage(m, p, PageTotal(m));
    ChoiceIs(m, orig, p, page);
  }

  /** Why a directory cannot be opened: tag 0, a tag that leads nowhere, or its map's error. */
  lemma {:induction false} UnopenedDirectory(disk: Disk, fs: Fileset, clone: Option<uint32>, tag: uint32)
    requires tag == 0 || fs.locate(tag).Err? || disk.extents(fs.locate(tag).value).Err?
    ensures DirStream(disk, fs, clone, tag)
            == Stream([], Some(if tag == 0 then EINVAL else if fs.locate(tag).Err? then ENOENT
                               else disk.extents(fs.locate(tag).value).errno))
  {
  }
}
