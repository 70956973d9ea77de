/** Directory reading (src/dir.c): every block of every page in order, each page
    taken from the clone, else from the original fileset, else skipped. */
module Dir {
  import opened Ods
  import opened Extents
  import opened DirBlock
  import opened Filesets

  const MAX_DIR_PAGES: nat := 16384

  // ---- one page ----

  function BlockAt(page: Page, i: nat): Block
    requires i < 16
  {
    page[512 * i..512 * i + 512]
  }

  /** Events of consecutive blocks. */
  function BlockEvents(bytes: seq<byte>): seq<Event>
    requires |bytes| % 512 == 0
    decreases |bytes|
  {
    if bytes == [] then [] else EventsFrom(bytes[..512], 0) + BlockEvents(bytes[512..])
  }

  /** A page really present in a map: neither a hole nor beyond it. */
  function PageIn(store: Store, xs: seq<Extent>, pg: uint32): Result<Option<Page>> {
    if xs == [] then Ok(None)
    else
      var r := ReadPage(store, xs, pg);
      match r.data
      case Ok(page) => if r.hole then Ok(None) else Ok(Some(page))
      case Err(e) => if e == ENOENT then Ok(None) else Err(e)
  }

  /** A directory's own extent map and the original's (empty: no fallback). */
  datatype Maps = Maps(store: Store, own: seq<Extent>, orig: seq<Extent>)

  function ChoosePage(m: Maps, pg: uint32): Result<Option<Page>> {
    match PageIn(m.store, m.own, pg)
    case Err(e) => Err(e)
    case Ok(Some(page)) => Ok(Some(page))
    case Ok(None) => PageIn(m.store, m.orig, pg)
  }

  /** How many pages are read; a clone's bogus stub map does not count. */
  function PageTotal(m: Maps): (n: nat)
    ensures n <= MAX_DIR_PAGES
  {
    var own := PageCount(m.own);
    var orig := PageCount(m.orig);
    Min(if m.orig != [] && own > MAX_DIR_PAGES then orig else Max(own, orig), MAX_DIR_PAGES)
  }

  // ---- the whole directory ----

  /** What a directory holds, up to the first page that cannot be read. */
  datatype Stream = Stream(events: seq<Event>, err: Option<Errno>)

  /** A page put before the rest; an unreadable page ends the stream. */
  function Before(page: Result<Option<Page>>, rest: Stream): Stream {
    match page
    case Err(e) => Stream([], Some(e))
    case Ok(None) => rest
    case Ok(Some(p)) => Stream(BlockEvents(p) + rest.events, rest.err)
  }

  function PagesFrom(m: Maps, pg: nat, total: nat): Stream
    requires pg <= total <= MAX_DIR_PAGES
    decreases total - pg
  {
    if pg == total then Stream([], None) else Before(ChoosePage(m, pg), PagesFrom(m, pg + 1, total))
  }

  function StreamOf(m: Maps): Stream {
    PagesFrom(m, 0, PageTotal(m))
  }

  /** dir_resolve_extents; any failure to locate the tag is ENOENT. */
  function DirMap(disk: Disk, fs: Fileset, tag: uint32): Result<seq<Extent>> {
    match fs.locate(tag)
    case Err(_) => Err(ENOENT)
    case Ok(loc) => disk.extents(loc)
  }

  /** The original's map, or the empty map whenever it cannot be had. */
  function OrigDirMap(disk: Disk, clone: Option<uint32>, tag: uint32): seq<Extent> {
    if clone.None? || clone.value == 0 || disk.fileset(clone.value).Err? then []
    else
      match DirMap(disk, disk.fileset(clone.value).value, tag)
      case Err(_) => []
      case Ok(xs) => xs
  }

  function DirStream(disk: Disk, fs: Fileset, clone: Option<uint32>, tag: uint32): Stream {
    if tag == 0 then Stream([], Some(EINVAL))
    else
      match DirMap(disk, fs, tag)
      case Err(e) => Stream([], Some(e))
      case Ok(own) => StreamOf(Maps(disk.store, own, OrigDirMap(disk, clone, tag)))
  }

  /** What callbacks are told of a stream, and the error the caller gets: none once
      a callback has asked to stop. */
  datatype Heard = Heard(seen: seq<Event>, err: Option<Errno>)

  function Hear(sink: Sink, seen: seq<Event>, s: Stream): Heard {
    var d := Deliver(sink, seen, s.events);
    Heard(d.seen, if d.stopped then None else s.err)
  }

  // ---- the reader ----

  lemma {:induction false} DeliverBlock(sink: Sink, seen: seq<Event>, page: Page, i: nat)
    requires i < 16
    ensures var d := Deliver(sink, seen, EventsFrom(BlockAt(page, i), 0));
            Deliver(sink, seen, BlockEvents(page[512 * i..]))
            == if d.stopped then d else Deliver(sink, d.seen, BlockEvents(page[512 * (i + 1)..]))
  {
    assert page[512 * i..][..512] == BlockAt(page, i) && page[512 * i..][512..] == page[512 * (i + 1)..];
    DeliverConcat(sink, seen, EventsFrom(BlockAt(page, i), 0), BlockEvents(page[512 * (i + 1)..]));
  }

  method WalkBlock(page: Page, i: nat, l: Listener, ghost result: Delivery) returns (stop: bool)
    requires i < 16
    requires result == Deliver(l.sink, l.seen, BlockEvents(page[512 * i..]))
    modifies l
    ensures stop ==> result == Delivery(l.seen, true)
    ensures !stop ==> result == Deliver(l.sink, l.seen, BlockEvents(page[512 * (i + 1)..]))
  {
    DeliverBlock(l.sink, l.seen, page, i);
    stop := WalkDirBlock(BlockAt(page, i), l);
  }

  method WalkPage(page: Page, l: Listener) returns (stop: bool)
    modifies l
    ensures Delivery(l.seen, stop) == Deliver(l.sink, old(l.seen), BlockEvents(page))
  {
    ghost var result := Deliver(l.sink, l.seen, BlockEvents(page));
    assert page[512 * 0..] == page;
    for i := 0 to 16
      invariant result == Deliver(l.sink, l.seen, BlockEvents(page[512 * i..]))
    {
      stop := WalkBlock(page, i, l, result);
      if stop {
        return;
      }
    }
    return false;
  }

  method TryPage(store: Store, xs: seq<Extent>, pg: uint32) returns (r: Result<Option<Page>>)
    ensures r == PageIn(store, xs, pg)
  {
    if |xs| == 0 {
      return Ok(None);
    }
    var got := ReadDataCore(store, xs, pg);
    if got.data.Ok? && !got.hole {
      return Ok(Some(got.data.value));
    }
    if got.data.Err? && got.data != Err(ENOENT) {
      return Err(got.data.errno);
    }
    return Ok(None);
  }

  method PickPage(m: Maps, pg: uint32) returns (r: Result<Option<Page>>)
    ensures r == ChoosePage(m, pg)
  {
    r := TryPage(m.store, m.own, pg);
    if r == Ok(None) {
      r := TryPage(m.store, m.orig, pg);
    }
  }

  lemma {:induction false} HearPage(sink: Sink, seen: seq<Event>, m: Maps, pg: nat, total: nat)
    requires pg < total <= MAX_DIR_PAGES && ChoosePage(m, pg).Ok? && ChoosePage(m, pg).value.Some?
    ensures var d := Deliver(sink, seen, BlockEvents(ChoosePage(m, pg).value.value));
            Hear(sink, seen, PagesFrom(m, pg, total))
            == if d.stopped then Heard(d.seen, None) else Hear(sink, d.seen, PagesFrom(m, pg + 1, total))
  {
    DeliverConcat(sink, seen, BlockEvents(ChoosePage(m, pg).value.value), PagesFrom(m, pg + 1, total).events);
  }

  /** One pass of the page loop. */
  method ReadDirPage(m: Maps, pg: nat, total: nat, l: Listener, ghost result: Heard)
      returns (done: bool, err: Option<Errno>)
    requires pg < total <= MAX_DIR_PAGES
    requires result == Hear(l.sink, l.seen, PagesFrom(m, pg, total))
    modifies l
    ensures done ==> result == Heard(l.seen, err)
    ensures !done ==> result == Hear(l.sink, l.seen, PagesFrom(m, pg + 1, total))
  {
    var page := PickPage(m, pg);
    if page.Err? {
      return true, Some(page.errno);
    }
    if page.value.None? {
      return false, None;
    }
    HearPage(l.sink, l.seen, m, pg, total);
    done := WalkPage(page.value.value, l);
    err := None;
  }

  method ReadPages(m: Maps, l: Listener) returns (err: Option<Errno>)
    modifies l
    ensures Heard(l.seen, err) == Hear(l.sink, old(l.seen), StreamOf(m))
  {
    ghost var result := Hear(l.sink, l.seen, StreamOf(m));
    var own: nat := CountPages(m.own);
    var orig: nat := CountPages(m.orig);
    var total := Min(if m.orig != [] && own > MAX_DIR_PAGES then orig else Max(own, orig), MAX_DIR_PAGES);
    var done := false;
    for pg := 0 to total
      invariant result == Hear(l.sink, l.seen, PagesFrom(m, pg, total))
    {
      done, err := ReadDirPage(m, pg, total, l, result);
      if done {
        return;
      }
    }
    return None;
  }

  /** advfs_dir_read_full_clone. */
  method ReadDir(disk: Disk, fs: Fileset, clone: Option<uint32>, tag: uint32, l: Listener)
      returns (err: Option<Errno>)
    modifies l
    ensures !l.sink.live && !l.sink.deleted ==> err == Some(EINVAL) && l.seen == old(l.seen)
    ensures l.sink.live || l.sink.deleted ==>
              Heard(l.seen, err) == Hear(l.sink, old(l.seen), DirStream(disk, fs, clone, tag))
  {
    if (!l.sink.live && !l.sink.deleted) || tag == 0 {
      return Some(EINVAL);
    }
    var own := DirMap(disk, fs, tag);
    if own.Err? {
      return Some(own.errno);
    }
    err := ReadPages(Maps(disk.store, own.value, OrigDirMap(disk, clone, tag)), l);
  }

  // ---- what a stream is ----

  /** One stream after another; nothing follows an error. */
  function Then(first: Stream, rest: Stream): Stream {
    if first.err.Some? then first else Stream(first.events + rest.events, rest.err)
  }

  lemma {:induction false} BeforeThen(page: Result<Option<Page>>, first: Stream, rest: Stream)
    ensures Before(page, Then(first, rest)) == Then(Before(page, first), rest)
  {
    if page.Ok? && page.value.Some? {
      var es := BlockEvents(page.value.value);
      assert es + (first.events + rest.events) == (es + first.events) + rest.events;
    }
  }

  lemma {:induction false} ThenEmpty(rest: Stream)
    ensures Then(Stream([], None), rest) == rest
  {
    assert [] + rest.events == rest.events;
  }

  /** Pages put one after the other. */
  function Join(pages: seq<Result<Option<Page>>>): Stream {
    if pages == [] then Stream([], None) else Before(pages[0], Join(pages[1..]))
  }

  lemma {:induction false} JoinFirst(pages: seq<Result<Option<Page>>>, first: Result<Option<Page>>,
                                     rest: seq<Result<Option<Page>>>)
    requires pages != [] && pages[0] == first && pages[1..] == rest
    ensures Join(pages) == Before(first, Join(rest))
  {
  }

  lemma {:induction false} JoinSplits(a: seq<Result<Option<Page>>>, b: seq<Result<Option<Page>>>)
    ensures Join(a + b) == Then(Join(a), Join(b))
    decreases |a|
  {
    if a == [] {
      assert a + b == b;
      ThenEmpty(Join(b));
    } else {
      assert (a + b)[0] == a[0] && (a + b)[1..] == a[1..] + b;
      JoinSplits(a[1..], b);
      BeforeThen(a[0], Join(a[1..]), Join(b));
    }
  }

  /** The choice made for each page, by page number. */
  function Choices(m: Maps, pg: nat, total: nat): (pages: seq<Result<Option<Page>>>)
    requires pg <= total <= MAX_DIR_PAGES
    ensures |pages| == total - pg
  {
    seq(total - pg, i requires 0 <= i < total - pg => ChoosePage(m, pg + i))
  }

  lemma {:induction false} ChoicesTail(m: Maps, pg: nat, total: nat)
    requires pg < total <= MAX_DIR_PAGES
    ensures Choices(m, pg, total)[0] == ChoosePage(m, pg) && Choices(m, pg, total)[1..] == Choices(m, pg + 1, total)
  {
  }

  /** A stream is the ordered concatenation of the chosen pages, up to the first error. */
  lemma {:induction false} StreamIsJoin(m: Maps, pg: nat, total: nat)
    requires pg <= total <= MAX_DIR_PAGES
    ensures PagesFrom(m, pg, total) == Join(Choices(m, pg, total))
    decreases total - pg
  {
    if pg < total {
      ChoicesTail(m, pg, total);
      StreamIsJoin(m, pg + 1, total);
      JoinFirst(Choices(m, pg, total), ChoosePage(m, pg), Choices(m, pg + 1, total));
    }
  }

  /** A stream fails with the error of the first page that cannot be read. */
  lemma {:induction false} FirstUnreadable(m: Maps, pg: nat, total: nat) returns (p: nat)
    requires pg <= total <= MAX_DIR_PAGES
    ensures match PagesFrom(m, pg, total).err
            case Some(e) => pg <= p < total && ChoosePage(m, p) == Err(e) && PagesFrom(m, pg, p).err == None
            case None => p == total
    decreases total - pg
  {
    p := pg;
    if pg < total && ChoosePage(m, pg).Ok? {
      p := FirstUnreadable(m, pg + 1, total);
    }
  }
}
