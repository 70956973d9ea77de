/** The layers put together: from a table of attached volumes and the bytes of their pages
    to the bytes of a file. */
module Mount {
  import opened Ods
  import opened Util
  import opened Extents
  import opened Metadata
  import RawMeta
  import opened Stripe
  import opened StripeLimits
  import opened Chain
  import opened ChainCells
  import opened ChainMeaning
  import opened ChainMap
  import opened Finders
  import opened SearchPath
  import opened Domain
  import opened Filesets
  import opened FileData
  import opened FileBytes

  /** A mounted domain: its volume table, the pages of each attached volume, and the two
      lookups by tag. */
  datatype Mounted = Mounted(vds: seq<Vd>, pages: (nat, uint32) -> Result<Page>,
                             inlineData: McellLoc -> Result<seq<byte>>, filesets: uint32 -> Result<Fileset>) {
    /** The table is sound, and the volumes were opened on these pages. */
    ghost predicate Valid() {
      && TableOk(vds)
      && forall i: nat, p: uint32 {:trigger pages(i, p)} ::
           i < |vds| ==> vds[i].vol.meta(p) == RawMeta.ReadCells(pages(i, p))
    }

    /** BMT pages: located through the volume table, decoded from their bytes. */
    function BmtPages(): Bmt {
      (vd: uint32, page: uint32) => BmtPage(vd, page)
    }

    function BmtPage(vd: uint32, page: uint32): Result<BmtPage> {
      match Find(vds, vd)
      case None => Err(ENOENT)
      case Some(i) =>
        match Resolve(vds[i].bmtMap, page)
        case Err(e) => Err(e)
        case Ok(vp) => RawMeta.ReadCells(pages(i, vp))
    }

    function Primary(): uint32 {
      if vds == [] then 0 else vds[0].vdIndex
    }

    /** Data pages, through the same table and from the same volumes. */
    function DataPages(): Store {
      Store((vd: uint32) => Find(vds, vd), pages)
    }

    /** Where the search for a file's extent record begins. */
    function First(loc: McellLoc): Loc {
      Loc(loc.vd, loc.page, loc.cell, MAX_XTNTS_HOPS)
    }

    ghost function AsDisk(): Disk {
      Disk(DataPages(), inlineData, (loc: McellLoc) => SearchThenRead(BmtPages(), Primary(), First(loc)), filesets)
    }
  }

  /** What the table reads as a BMT page is decoded from the same bytes as file data. */
  lemma {:induction false} TableReadsBytes(m: Mounted, vd: uint32, page: uint32)
    requires m.Valid()
    ensures ReadBmtPage(m.vds, vd, page) == m.BmtPages()(vd, page)
  {
    if Find(m.vds, vd).Some? {
      var i := Find(m.vds, vd).value;
      if Resolve(m.vds[i].bmtMap, page).Ok? {
        assert m.vds[i].vol.meta(Resolve(m.vds[i].bmtMap, page).value)
               == RawMeta.ReadCells(m.pages(i, Resolve(m.vds[i].bmtMap, page).value));
      }
    }
  }

  // ---- bytes located by maps ----

  /** The byte at b of the page that a view describes. */
  predicate ByteAtView(m: Mounted, view: PageView, b: nat, value: byte) {
    match view
    case At(vd, block) =>
      && Find(m.vds, vd).Some?
      && var page := m.pages(Find(m.vds, vd).value, block / 16);
      if page.Ok? then value == page.value[b % 8192] else page == Err(ENOENT) && value == 0
    case OutOfRange => false
    case _ => value == 0
  }

  /** The same in a clone: a clone hole is what the original's map, if there is one, makes of
      the page, one level deep. */
  predicate ByteFrom(m: Mounted, view: PageView, orig: Option<seq<Extent>>, b: nat, value: byte)
    requires b < BYTE_LIMIT
  {
    if view.CloneHole? && orig.Some? then ByteAtView(m, View(orig.value, b / 8192), b, value)
    else ByteAtView(m, view, b, value)
  }

  /** A readable page has the bytes its view describes; volumes answer for blocks. */
  lemma {:induction false} ReadableByte(m: Mounted, xs: seq<Extent>, fb: Option<Result<seq<Extent>>>,
                                        orig: Option<seq<Extent>>, b: nat)
    requires b < BYTE_LIMIT && IsFallback(fb, orig) && Readable(PagesOf(Source(m.DataPages(), xs, fb)), b)
    ensures ByteFrom(m, View(xs, b / 8192), orig, b, ByteAt(PagesOf(Source(m.DataPages(), xs, fb)), b))
  {
  }

  /** The byte at b of a file whose map is xs: located by the map, or zero behind it. */
  predicate ByteOfMap(m: Mounted, xs: seq<Extent>, orig: Option<seq<Extent>>, b: nat, value: byte)
    requires b < BYTE_LIMIT
  {
    if b / 8192 < PageCount(xs) then ByteFrom(m, View(xs, b / 8192), orig, b, value) else value == 0
  }

  // ---- files by tag ----

  /** The tag leads to this extent map. */
  ghost predicate MapIs(m: Mounted, fs: Fileset, tag: uint32, xs: seq<Extent>) {
    fs.locate(tag).Ok? && m.AsDisk().extents(fs.locate(tag).value) == Ok(xs)
  }

  /** The file of a tag reads as `data`, which is not inline, and b is one of its bytes,
      before its frag if it has one. */
  ghost predicate MappedPart(m: Mounted, fs: Fileset, clone: Option<uint32>, tag: uint32, st: Stat, data: seq<byte>,
                             b: nat)
  {
    && Reads(m.AsDisk(), fs, clone, tag, st, data) && b < |data|
    && fs.locate(tag).Ok? && (st.fragType == 0 ==> m.inlineData(fs.locate(tag).value).Err?)
    && (st.fragType != 0 ==> b < st.fragPageOffset * 8192)
  }

  /** Before its frag, a file has the bytes its extent map locates, in a clone with the
      original's map behind it. */
  lemma {:induction false} MappedFileByte(m: Mounted, fs: Fileset, clone: Option<uint32>, tag: uint32, st: Stat,
                                          data: seq<byte>, xs: seq<Extent>, orig: Option<seq<Extent>>, b: nat)
    requires MappedPart(m, fs, clone, tag, st, data, b) && MapIs(m, fs, tag, xs)
    requires OriginalIs(m.AsDisk(), clone, tag, orig)
    ensures b < BYTE_LIMIT && ByteOfMap(m, xs, orig, b, data[b])
  {
    var fb := MappedByte(m.AsDisk(), fs, clone, tag, st, data, fs.locate(tag).value, xs, orig, b);
    if b / 8192 < PageCount(xs) {
      ReadableByte(m, xs, fb, orig, b);
    }
  }

  /** In a hole of a clone the byte is the one the same file has in the original fileset. */
  lemma {:induction false} CloneHoleByte(m: Mounted, fs: Fileset, original: uint32, ofs: Fileset, tag: uint32, st: Stat,
                                         data: seq<byte>, xs: seq<Extent>, ys: seq<Extent>, b: nat)
    requires MappedPart(m, fs, Some(original), tag, st, data, b) && MapIs(m, fs, tag, xs)
    requires original != 0 && m.filesets(original) == Ok(ofs) && MapIs(m, ofs, tag, ys)
    requires b < BYTE_LIMIT && b / 8192 < PageCount(xs) && View(xs, b / 8192) == CloneHole
    ensures ByteAtView(m, View(ys, b / 8192), b, data[b])
  {
    MappedFileByte(m, fs, Some(original), tag, st, data, xs, Some(ys), b);
  }

  /** Without an original that has the file, holes read as zeros. */
  lemma {:induction false} UnresolvedHoleByte(m: Mounted, fs: Fileset, clone: Option<uint32>, tag: uint32, st: Stat,
                                              data: seq<byte>, xs: seq<Extent>, b: nat)
    requires MappedPart(m, fs, clone, tag, st, data, b) && MapIs(m, fs, tag, xs)
    requires clone.None? || clone.value == 0 || m.filesets(clone.value).Err?
             || forall ys :: !MapIs(m, m.filesets(clone.value).value, tag, ys)
    requires b < BYTE_LIMIT && View(xs, b / 8192) == CloneHole
    ensures data[b] == 0
  {
    if clone.Some? && clone.value != 0 && m.filesets(clone.value).Ok? {
      NoMapIsError(m, m.filesets(clone.value).value, tag);
    }
    MappedFileByte(m, fs, clone, tag, st, data, xs, None, b);
  }

  lemma {:induction false} NoMapIsError(m: Mounted, fs: Fileset, tag: uint32)
    requires forall ys :: !MapIs(m, fs, tag, ys)
    ensures fs.locate(tag).Err? || m.AsDisk().extents(fs.locate(tag).value).Err?
  {
    if fs.locate(tag).Ok? && m.AsDisk().extents(fs.locate(tag).value).Ok? {
      assert MapIs(m, fs, tag, m.AsDisk().extents(fs.locate(tag).value).value);
    }
  }

  /** From page fragPageOffset on, byte b of a file with a frag is the byte of the fileset's
      frag file that lies as far behind the beginning of slot fragSlot. */
  lemma {:induction false} FragFileByte(m: Mounted, fs: Fileset, clone: Option<uint32>, tag: uint32, st: Stat,
                                        data: seq<byte>, b: nat, at: nat)
      returns (ys: seq<Extent>)
    requires Reads(m.AsDisk(), fs, clone, tag, st, data) && fs.locate(tag).Ok?
    requires st.fragType != 0 && st.fragPageOffset * 8192 <= b < |data|
    requires at == st.fragSlot * 1024 + (b - st.fragPageOffset * 8192)
    ensures MapIs(m, fs, 1, ys) && |data| == st.size <= st.fragPageOffset * 8192 + st.fragType * 1024
    ensures at < BYTE_LIMIT && ByteAtView(m, View(ys, at / 8192), at, data[b])
  {
    ys := FragByte(m.AsDisk(), fs, clone, tag, st, data, fs.locate(tag).value, b, at);
    ReadableByte(m, ys, None, None, at);
  }

  // ---- from volume pages to file bytes ----

  /** The file's mcells: the search for its extent record takes this path, to a record xr on
      volume primVd, from which a chain of these overflow cells goes on. */
  ghost predicate LeadsTo(m: Mounted, fs: Fileset, tag: uint32, path: seq<Spot>, xr: XtntRec, primVd: uint32,
                          cells: seq<Placed>)
  {
    && fs.locate(tag).Ok?
    && IsPath(m.BmtPages(), path)
    && var at, last := fs.locate(tag).value, path[|path| - 1];
    && path[0] == Spot(at.vd, at.page, at.cell) && EndsWith(m.BmtPages(), path, Ok(last))
    && primVd == (if last.vd == 0 && m.vds != [] then m.vds[0].vdIndex else last.vd)
    && HasChain(m.BmtPages(), true, primVd, m.BmtPages()(last.vd, last.page).value, last.cell, xr, cells, None)
  }

  /** What a file's map is read from. */
  lemma {:induction false} RecordOfTag(m: Mounted, fs: Fileset, tag: uint32, path: seq<Spot>, xr: XtntRec,
                                       primVd: uint32, cells: seq<Placed>)
    requires LeadsTo(m, fs, tag, path, xr, primVd, cells)
    ensures var last := path[|path| - 1];
            m.AsDisk().extents(fs.locate(tag).value)
            == MapOfCell(m.BmtPages(), true, primVd, m.BmtPages()(last.vd, last.page).value, last.cell)
  {
    var at := m.First(fs.locate(tag).value);
    SearchFollowsPath(m.BmtPages(), path, Ok(path[|path| - 1]));
    FoundHasRecord(m.BmtPages(), m.Primary(), at);
  }

  /** The map of a file is made of the cells its tag leads to: for two or more stripe columns
      their interleaving, otherwise the file's entries in chain order. */
  lemma {:induction false} MapOfTag(m: Mounted, fs: Fileset, tag: uint32, path: seq<Spot>, xr: XtntRec, primVd: uint32,
                                    cells: seq<Placed>, xs: seq<Extent>)
    requires LeadsTo(m, fs, tag, path, xr, primVd, cells) && MapIs(m, fs, tag, xs)
    ensures if Striped(true, xr, cells) then
              var s := Stripe(Columns(cells), xr.segmentSize);
              s.Valid() && Total(s) <= UINT32_MAX && xs == FlatMap(s, Total(s))
            else xs == FileEntries(PrimaryEntries(xr, primVd), cells)
  {
    var last := path[|path| - 1];
    RecordOfTag(m, fs, tag, path, xr, primVd, cells);
    MapOfCellLists(m.BmtPages(), true, primVd, m.BmtPages()(last.vd, last.page).value, last.cell, xr, cells, None);
  }

  lemma {:induction false} ChainHasData(bmt: Bmt, primVd: uint32, pg: BmtPage, cell: uint32, xr: XtntRec,
                                        cells: seq<Placed>)
    requires HasChain(bmt, true, primVd, pg, cell, xr, cells, None)
    ensures MapOfCell(bmt, true, primVd, pg, cell) != Err(ENODATA)
  {
    var vd := NextVd(true, primVd, xr.chainVd);
    FollowLists(bmt, true, vd, xr.chainMcid, cells, None);
    FollowMeetsNoData(bmt, vd, xr.chainMcid, 0);
    NoDataExactly(bmt, primVd, pg, cell);
  }

  /** A file whose tag leads to an extent record is read through the map made of it. */
  lemma {:induction false} MapOfReadFile(m: Mounted, fs: Fileset, clone: Option<uint32>, tag: uint32, st: Stat,
                                         data: seq<byte>, path: seq<Spot>, xr: XtntRec, primVd: uint32,
                                         cells: seq<Placed>, b: nat)
      returns (xs: seq<Extent>)
    requires MappedPart(m, fs, clone, tag, st, data, b) && LeadsTo(m, fs, tag, path, xr, primVd, cells)
    ensures MapIs(m, fs, tag, xs)
  {
    var last := path[|path| - 1];
    RecordOfTag(m, fs, tag, path, xr, primVd, cells);
    ChainHasData(m.BmtPages(), primVd, m.BmtPages()(last.vd, last.page).value, last.cell, xr, cells);
    MapOrNone(m.AsDisk(), fs, clone, tag, st, data, fs.locate(tag).value);
    xs := m.AsDisk().extents(fs.locate(tag).value).value;
  }

  /** A plain file, all the way from the bytes of the volumes' pages: before its frag, byte b
      is where the entries of its mcells put page b / 8192, in a clone hole where the
      original's map puts it. */
  lemma {:induction false} PlainFileByte(m: Mounted, fs: Fileset, clone: Option<uint32>, tag: uint32, st: Stat,
                                         data: seq<byte>, path: seq<Spot>, xr: XtntRec, primVd: uint32,
                                         cells: seq<Placed>, orig: Option<seq<Extent>>, b: nat)
    requires MappedPart(m, fs, clone, tag, st, data, b) && OriginalIs(m.AsDisk(), clone, tag, orig)
    requires LeadsTo(m, fs, tag, path, xr, primVd, cells) && !Striped(true, xr, cells)
    ensures b < BYTE_LIMIT && ByteOfMap(m, FileEntries(PrimaryEntries(xr, primVd), cells), orig, b, data[b])
  {
    var xs := MapOfReadFile(m, fs, clone, tag, st, data, path, xr, primVd, cells, b);
    MappedFileByte(m, fs, clone, tag, st, data, xs, orig, b);
    MapOfTag(m, fs, tag, path, xr, primVd, cells, xs);
  }

  /** The byte at b of a striped file: located by the column that holds page b / 8192. */
  predicate ByteOfColumns(m: Mounted, s: Stripe, orig: Option<seq<Extent>>, b: nat, value: byte)
    requires s.Valid() && b < BYTE_LIMIT
  {
    var p := b / 8192;
    if s.Xm(p) < PageCount(s.MapOf(p)) then ByteFrom(m, View(s.MapOf(p), s.Xm(p)), orig, b, value) else value == 0
  }

  lemma {:induction false} ColumnsServe(m: Mounted, s: Stripe, xs: seq<Extent>, orig: Option<seq<Extent>>,
                                        b: nat, value: byte)
    requires s.Valid() && WellBuilt(s) && xs == FlatMap(s, Total(s)) && b < BYTE_LIMIT
    requires ByteOfMap(m, xs, orig, b, value)
    ensures ByteOfColumns(m, s, orig, b, value)
  {
    StripedReadIsColumnRead(s, b / 8192);
  }

  lemma {:induction false} StripedMapOfTag(m: Mounted, fs: Fileset, tag: uint32, path: seq<Spot>, xr: XtntRec,
                                           primVd: uint32, cells: seq<Placed>, s: Stripe, xs: seq<Extent>)
    requires LeadsTo(m, fs, tag, path, xr, primVd, cells) && MapIs(m, fs, tag, xs)
    requires Striped(true, xr, cells) && s == Stripe(Columns(cells), xr.segmentSize)
    ensures s.Valid() && Total(s) <= UINT32_MAX && xs == FlatMap(s, Total(s))
  {
    MapOfTag(m, fs, tag, path, xr, primVd, cells, xs);
  }

  /** A file striped over well-built columns, all the way from the bytes of the volumes'
      pages: before its frag, byte b is where column s % n puts its page
      (s / n) * seg + p % seg, for p = b / 8192 and s = p / seg, in a clone hole where the
      original's map puts it, and zero beyond the column's pages. */
  lemma {:induction false} StripedFileByte(m: Mounted, fs: Fileset, clone: Option<uint32>, tag: uint32, st: Stat,
                                           data: seq<byte>, path: seq<Spot>, xr: XtntRec, primVd: uint32,
                                           cells: seq<Placed>, s: Stripe, orig: Option<seq<Extent>>, b: nat)
    requires MappedPart(m, fs, clone, tag, st, data, b) && OriginalIs(m.AsDisk(), clone, tag, orig)
    requires LeadsTo(m, fs, tag, path, xr, primVd, cells) && Striped(true, xr, cells)
    requires s == Stripe(Columns(cells), xr.segmentSize) && s.Valid() && WellBuilt(s)
    ensures b < BYTE_LIMIT && ByteOfColumns(m, s, orig, b, data[b])
  {
    var xs := MapOfReadFile(m, fs, clone, tag, st, data, path, xr, primVd, cells, b);
    MappedFileByte(m, fs, clone, tag, st, data, xs, orig, b);
    StripedMapOfTag(m, fs, tag, path, xr, primVd, cells, s, xs);
    ColumnsServe(m, s, xs, orig, b, data[b]);
  }
}
