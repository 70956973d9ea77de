/** Where the bytes of a file come from, and which files can be read (src/filedata.c). */
module FileBytes {
  import opened Ods
  import opened Extents
  import opened Filesets
  import opened FileData
  import opened FileRead
  import opened FileClones
  import opened Cache

  /** The file of a tag has this stat record and reads as these bytes. */
  ghost predicate Reads(disk: Disk, fs: Fileset, clone: Option<uint32>, tag: uint32, st: Stat, data: seq<byte>) {
    fs.stat(tag) == Ok(st) && ContentsOf(disk, fs, clone, tag) == Ok(data)
  }

  /** The file's primary mcell is at loc, and its data is not inline. */
  predicate NotInline(disk: Disk, fs: Fileset, tag: uint32, st: Stat, loc: McellLoc) {
    fs.locate(tag) == Ok(loc) && (st.fragType != 0 || disk.inlineData(loc).Err?)
  }

  /** A byte before the frag, if there is one. */
  predicate BeforeFrag(st: Stat, b: nat) {
    st.fragType == 0 || b < st.fragPageOffset * 8192
  }

  /** What a read falls back to when that is the original's map. */
  predicate IsFallback(fb: Option<Result<seq<Extent>>>, orig: Option<seq<Extent>>) {
    if fb.Some? && fb.value.Ok? then orig == Some(fb.value.value) else orig == None
  }

  lemma {:induction false} FallbackIs(disk: Disk, clone: Option<uint32>, tag: uint32, orig: Option<seq<Extent>>)
    requires OriginalIs(disk, clone, tag, orig)
    ensures IsFallback(Fallback(disk, clone, tag), orig)
  {
  }

  // ---- the layers of a file that reads ----

  lemma {:induction false} ReadLayersOf(disk: Disk, fs: Fileset, clone: Option<uint32>, tag: uint32, st: Stat,
                                        data: seq<byte>, loc: McellLoc)
      returns (layers: Layers)
    requires Reads(disk, fs, clone, tag, st, data) && data != [] && fs.locate(tag) == Ok(loc)
    ensures 0 < |data| == st.size <= MAX_FILE_SIZE && HoldsBytes(data, layers)
    ensures LayersOf(disk, fs, clone, tag, st, loc) == Ok(layers)
  {
    layers := ReadOutcome(disk, fs, clone, tag).layers;
  }

  lemma {:induction false} NotInlineLayers(disk: Disk, fs: Fileset, clone: Option<uint32>, tag: uint32, st: Stat,
                                           loc: McellLoc, layers: Layers)
    requires 0 < st.size <= MAX_FILE_SIZE && LayersOf(disk, fs, clone, tag, st, loc) == Ok(layers)
    requires NotInline(disk, fs, tag, st, loc)
    ensures layers.Layers? && (layers.frag.Some? <==> st.fragType != 0)
    ensures MappedLayer(disk, clone, tag, loc, st.size) == Ok(layers.mapped) && MappedError(layers.mapped) == None
    ensures layers.frag.Some? ==>
              var frag := layers.frag.value;
              FragOf(disk, fs, st) == Ok(frag) && CopyError(frag.pages, frag.slotOff, FragLen(st, frag)) == None
  {
  }

  lemma {:induction false} FragIs(disk: Disk, fs: Fileset, st: Stat, frag: Frag) returns (ys: seq<Extent>)
    requires FragOf(disk, fs, st) == Ok(frag)
    ensures fs.locate(1).Ok? && disk.extents(fs.locate(1).value) == Ok(ys)
    ensures frag.pages == PagesOf(Source(disk.store, ys, None))
    ensures frag.fileOff == st.fragPageOffset * 8192 < st.size && frag.slotOff == st.fragSlot * 1024
    ensures st.size - st.fragPageOffset * 8192 <= st.fragType * 1024
  {
    ys := disk.extents(fs.locate(1).value).value;
  }

  // ---- inline data ----

  /** An inline file has the bytes of its record, of which no more than 268 are taken, and
      zeros behind them. */
  lemma {:induction false} InlineByte(disk: Disk, fs: Fileset, clone: Option<uint32>, tag: uint32, st: Stat,
                                      data: seq<byte>, loc: McellLoc, inl: seq<byte>, b: nat)
    requires Reads(disk, fs, clone, tag, st, data) && b < |data|
    requires fs.locate(tag) == Ok(loc) && st.fragType == 0 && disk.inlineData(loc) == Ok(inl)
    ensures |data| == st.size && data[b] == if b < |inl| && b < 268 then inl[b] else 0
  {
    var layers := ReadLayersOf(disk, fs, clone, tag, st, data, loc);
    assert data[b] == FileByte(layers, b);
  }

  // ---- the frag ----

  lemma {:induction false} FragLayerByte(frag: Frag, mapped: Option<Mapped>, n: nat, b: nat, at: nat)
    requires frag.fileOff <= b < n <= MAX_FILE_SIZE && at == frag.slotOff + (b - frag.fileOff)
    requires CopyError(frag.pages, frag.slotOff, n - frag.fileOff) == None
    ensures at < BYTE_LIMIT && Readable(frag.pages, at)
    ensures FileByte(Layers(mapped, Some(frag)), b) == ByteAt(frag.pages, at)
  {
    RangeReadable(frag.pages, frag.slotOff, n - frag.fileOff, at);
  }

  /** From page fragPageOffset on, byte b of a file with a frag is the byte of the fileset's
      frag file (tag 1) as far behind the beginning of slot fragSlot, in 1 KB slots. */
  lemma {:induction false} FragByte(disk: Disk, fs: Fileset, clone: Option<uint32>, tag: uint32, st: Stat,
                                    data: seq<byte>, loc: McellLoc, b: nat, at: nat)
      returns (ys: seq<Extent>)
    requires Reads(disk, fs, clone, tag, st, data) && fs.locate(tag) == Ok(loc)
    requires st.fragType != 0 && st.fragPageOffset * 8192 <= b < |data|
    requires at == st.fragSlot * 1024 + (b - st.fragPageOffset * 8192)
    ensures fs.locate(1).Ok? && disk.extents(fs.locate(1).value) == Ok(ys)
    ensures |data| == st.size <= st.fragPageOffset * 8192 + st.fragType * 1024
    ensures var pages := PagesOf(Source(disk.store, ys, None));
            at < BYTE_LIMIT && Readable(pages, at) && data[b] == ByteAt(pages, at)
  {
    var layers := ReadLayersOf(disk, fs, clone, tag, st, data, loc);
    NotInlineLayers(disk, fs, clone, tag, st, loc, layers);
    var frag := layers.frag.value;
    ys := FragIs(disk, fs, st, frag);
    FragLayerByte(frag, layers.mapped, |data|, b, at);
    assert data[b] == FileByte(layers, b);
  }

  // ---- the extent map ----

  lemma {:induction false} MappedIs(disk: Disk, clone: Option<uint32>, tag: uint32, loc: McellLoc, n: nat,
                                    mapped: Option<Mapped>, xs: seq<Extent>)
    requires MappedLayer(disk, clone, tag, loc, n) == Ok(mapped) && disk.extents(loc) == Ok(xs)
    ensures mapped.Some? <==> xs != []
    ensures mapped.Some? ==> mapped.value.len == Min(PageCount(xs) * 8192, n)
                             && mapped.value.pages == PagesOf(Source(disk.store, xs, Fallback(disk, clone, tag)))
  {
  }

  lemma {:induction false} MappedLayerByte(mapped: Option<Mapped>, frag: Option<Frag>, xs: seq<Extent>, n: nat, b: nat)
    requires b < n <= MAX_FILE_SIZE && (frag.Some? ==> b < frag.value.fileOff)
    requires MappedLen(mapped, n) && MappedError(mapped) == None
    requires mapped.Some? <==> xs != []
    requires mapped.Some? ==> mapped.value.len == Min(PageCount(xs) * 8192, n)
    ensures if b / 8192 < PageCount(xs)
            then mapped.Some? && Readable(mapped.value.pages, b)
                 && FileByte(Layers(mapped, frag), b) == ByteAt(mapped.value.pages, b)
            else FileByte(Layers(mapped, frag), b) == 0
  {
    if mapped.Some? && b < mapped.value.len {
      RangeReadable(mapped.value.pages, 0, mapped.value.len, b);
    }
  }

  predicate MappedLen(mapped: Option<Mapped>, n: nat) {
    mapped.Some? ==> mapped.value.len <= n
  }

  /** Before its frag, byte b of a file with a map is what its map makes of it, with the
      original's map behind it, and zero beyond the map's pages. */
  lemma {:induction false} MappedByte(disk: Disk, fs: Fileset, clone: Option<uint32>, tag: uint32, st: Stat,
                                      data: seq<byte>, loc: McellLoc, xs: seq<Extent>,
                                      orig: Option<seq<Extent>>, b: nat)
      returns (fb: Option<Result<seq<Extent>>>)
    requires Reads(disk, fs, clone, tag, st, data) && NotInline(disk, fs, tag, st, loc)
    requires disk.extents(loc) == Ok(xs) && OriginalIs(disk, clone, tag, orig)
    requires b < |data| && BeforeFrag(st, b)
    ensures IsFallback(fb, orig) && b < BYTE_LIMIT
    ensures var pages := PagesOf(Source(disk.store, xs, fb));
            if b / 8192 < PageCount(xs) then Readable(pages, b) && data[b] == ByteAt(pages, b) else data[b] == 0
  {
    fb := Fallback(disk, clone, tag);
    FallbackIs(disk, clone, tag, orig);
    var layers := ReadLayersOf(disk, fs, clone, tag, st, data, loc);
    NotInlineLayers(disk, fs, clone, tag, st, loc, layers);
    if layers.frag.Some? {
      var ys := FragIs(disk, fs, st, layers.frag.value);
    }
    MappedIs(disk, clone, tag, loc, st.size, layers.mapped, xs);
    MappedLayerByte(layers.mapped, layers.frag, xs, |data|, b);
    assert data[b] == FileByte(layers, b);
  }

  /** A file that reads and is not inline has a map, or no extent record. */
  lemma {:induction false} MapOrNone(disk: Disk, fs: Fileset, clone: Option<uint32>, tag: uint32, st: Stat,
                                     data: seq<byte>, loc: McellLoc)
    requires Reads(disk, fs, clone, tag, st, data) && NotInline(disk, fs, tag, st, loc) && data != []
    ensures disk.extents(loc).Ok? || disk.extents(loc) == Err(ENODATA)
  {
    var layers := ReadLayersOf(disk, fs, clone, tag, st, data, loc);
    NotInlineLayers(disk, fs, clone, tag, st, loc, layers);
  }

  /** Without an extent record there is nothing before the frag but zeros. */
  lemma {:induction false} UnmappedByte(disk: Disk, fs: Fileset, clone: Option<uint32>, tag: uint32, st: Stat,
                                        data: seq<byte>, loc: McellLoc, b: nat)
    requires Reads(disk, fs, clone, tag, st, data) && NotInline(disk, fs, tag, st, loc)
    requires disk.extents(loc) == Err(ENODATA) && b < |data| && BeforeFrag(st, b)
    ensures data[b] == 0
  {
    var layers := ReadLayersOf(disk, fs, clone, tag, st, data, loc);
    NotInlineLayers(disk, fs, clone, tag, st, loc, layers);
    if layers.frag.Some? {
      var ys := FragIs(disk, fs, st, layers.frag.value);
    }
    assert data[b] == FileByte(layers, b);
  }

  // ---- which files can be read ----

  /** A page of a map is served, in a clone hole by the original's map if there is one. */
  predicate PageServed(store: Store, xs: seq<Extent>, orig: Option<seq<Extent>>, pg: uint32) {
    if xs != [] && View(xs, pg) == CloneHole && orig.Some? then Serves(store, orig.value, pg) else Serves(store, xs, pg)
  }

  lemma {:induction false} PageServedExactly(store: Store, xs: seq<Extent>, fb: Option<Result<seq<Extent>>>,
                                             orig: Option<seq<Extent>>, pg: uint32)
    requires IsFallback(fb, orig)
    ensures PageOf(Source(store, xs, fb), pg).Ok? <==> PageServed(store, xs, orig, pg)
  {
    if fb.Some? {
      ClonePage(store, xs, fb.value, pg);
    }
  }

  /** The file's own map can be had, or there is none, and serves all its pages up to the size. */
  predicate MapServes(disk: Disk, loc: McellLoc, orig: Option<seq<Extent>>, size: nat)
    requires size <= BYTE_LIMIT
  {
    match disk.extents(loc)
    case Err(e) => e == ENODATA
    case Ok(xs) =>
      forall b: nat {:trigger b / 8192} :: b < size && b / 8192 < PageCount(xs) ==>
        PageServed(disk.store, xs, orig, b / 8192)
  }

  /** The tail is inside the file and its slots, and the frag file serves it. */
  predicate FragServes(disk: Disk, fs: Fileset, st: Stat)
    requires st.size <= MAX_FILE_SIZE
  {
    var off, slot := st.fragPageOffset * 8192, st.fragSlot * 1024;
    && off < st.size <= off + st.fragType * 1024
    && fs.locate(1).Ok? && disk.extents(fs.locate(1).value).Ok?
    && var ys := disk.extents(fs.locate(1).value).value;
    && forall at: nat {:trigger at / 8192} :: slot <= at < slot + (st.size - off) ==>
         PageServed(disk.store, ys, None, at / 8192)
  }

  /** What reading a file takes. */
  predicate CanBeRead(disk: Disk, fs: Fileset, tag: uint32, orig: Option<seq<Extent>>) {
    && tag != 0 && fs.stat(tag).Ok?
    && var st := fs.stat(tag).value;
    && st.size <= 0x1000_0000_0000
    && (st.size > 0 ==>
          && fs.locate(tag).Ok?
          && var loc := fs.locate(tag).value;
          || (st.fragType == 0 && disk.inlineData(loc).Ok?)
          || (&& (st.fragType == 0 ==> disk.inlineData(loc) == Err(ENODATA))
              && MapServes(disk, loc, orig, st.size)
              && (st.fragType != 0 ==> FragServes(disk, fs, st))))
  }

  lemma {:induction false} MappedReadsExactly(disk: Disk, clone: Option<uint32>, tag: uint32, loc: McellLoc,
                                              orig: Option<seq<Extent>>, size: nat)
    requires OriginalIs(disk, clone, tag, orig) && size <= MAX_FILE_SIZE
    ensures var layer := MappedLayer(disk, clone, tag, loc, size);
            layer.Ok? && MappedError(layer.value) == None <==> MapServes(disk, loc, orig, size)
  {
    if disk.extents(loc).Ok? {
      var xs, fb := disk.extents(loc).value, Fallback(disk, clone, tag);
      FallbackIs(disk, clone, tag, orig);
      SourceServes(disk.store, xs, fb, orig, 0, Min(PageCount(xs) * 8192, size));
    }
  }

  lemma {:induction false} SourceServes(store: Store, xs: seq<Extent>, fb: Option<Result<seq<Extent>>>,
                                        orig: Option<seq<Extent>>, off: nat, len: nat)
    requires IsFallback(fb, orig) && off + len <= BYTE_LIMIT
    ensures CopyError(PagesOf(Source(store, xs, fb)), off, len) == None
            <==> forall b: nat {:trigger b / 8192} :: off <= b < off + len ==> PageServed(store, xs, orig, b / 8192)
  {
    var pages := PagesOf(Source(store, xs, fb));
    CopySucceeds(pages, off, len);
    forall b: nat | off <= b < off + len ensures Readable(pages, b) <==> PageServed(store, xs, orig, b / 8192) {
      PageServedExactly(store, xs, fb, orig, b / 8192);
    }
  }

  lemma {:induction false} FragReadsExactly(disk: Disk, fs: Fileset, st: Stat)
    requires st.size <= MAX_FILE_SIZE
    ensures FragOf(disk, fs, st).Ok? && FragError(FragOf(disk, fs, st).value, st) == None <==> FragServes(disk, fs, st)
  {
    if FragOf(disk, fs, st).Ok? {
      var ys := FragIs(disk, fs, st, FragOf(disk, fs, st).value);
      SourceServes(disk.store, ys, None, None, st.fragSlot * 1024, st.size - st.fragPageOffset * 8192);
    }
  }

  function FragError(frag: Frag, st: Stat): Option<Errno>
    requires st.size <= MAX_FILE_SIZE
  {
    CopyError(frag.pages, frag.slotOff, FragLen(st, frag))
  }

  /** A file reads exactly if it is empty, or inline, or every page of its map up to its size
      is served and so is its tail by the frag file; all that up to 16 TiB and for tags
      other than 0 only. */
  lemma {:induction false} FileReadsExactly(disk: Disk, fs: Fileset, clone: Option<uint32>, tag: uint32,
                                            orig: Option<seq<Extent>>)
    requires OriginalIs(disk, clone, tag, orig)
    ensures ContentsOf(disk, fs, clone, tag).Ok? <==> CanBeRead(disk, fs, tag, orig)
  {
    if tag != 0 && fs.stat(tag).Ok? && 0 < fs.stat(tag).value.size <= MAX_FILE_SIZE && fs.locate(tag).Ok? {
      var st := fs.stat(tag).value;
      MappedReadsExactly(disk, clone, tag, fs.locate(tag).value, orig, st.size);
      FragReadsExactly(disk, fs, st);
    }
  }

  /** Two reasons of its own why a file is refused: its size, and a tail that is not inside
      the file or larger than its slots. */
  lemma {:induction false} RefusedFile(disk: Disk, fs: Fileset, clone: Option<uint32>, tag: uint32,
                                       orig: Option<seq<Extent>>, st: Stat)
    requires tag != 0 && fs.stat(tag) == Ok(st) && OriginalIs(disk, clone, tag, orig)
    ensures st.size > 0x1000_0000_0000 ==> ContentsOf(disk, fs, clone, tag) == Err(EFBIG)
    ensures 0 < st.size <= 0x1000_0000_0000 && st.fragType != 0 && fs.locate(tag).Ok?
            && MapServes(disk, fs.locate(tag).value, orig, st.size)
            && !(st.fragPageOffset * 8192 < st.size <= st.fragPageOffset * 8192 + st.fragType * 1024)
            ==> ContentsOf(disk, fs, clone, tag) == Err(EINVAL)
  {
    if 0 < st.size <= 0x1000_0000_0000 && fs.locate(tag).Ok? {
      MappedReadsExactly(disk, clone, tag, fs.locate(tag).value, orig, st.size);
    }
  }
}
