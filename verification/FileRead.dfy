/** Whole-file assembly (src/filedata.c): inline data, or extent-mapped pages
    overlaid by a frag tail, truncated to the file's size. */
module FileRead {
  import opened Ods
  import opened Extents
  import opened FileData
  import opened Filesets

  // ---- specification ----

  function StatOf(fs: Fileset, tag: uint32): Result<Stat> {
    if tag == 0 then Err(EINVAL) else fs.stat(tag)
  }

  /** At most one record area of inline bytes is taken. */
  function InlineOf(disk: Disk, loc: McellLoc): Result<seq<byte>> {
    match disk.inlineData(loc)
    case Err(e) => Err(e)
    case Ok(data) => Ok(data[..Min(|data|, BSC_R_SZ)])
  }

  /** The fallback is armed only for a clone with a named original. */
  function Fallback(disk: Disk, clone: Option<uint32>, tag: uint32): Option<Result<seq<Extent>>> {
    if clone.Some? && clone.value != 0 then Some(OriginalMap(disk, clone.value, tag)) else None
  }

  /** The extent-mapped part of a file, and how many of its bytes are mapped. */
  datatype Mapped = Mapped(pages: PageSource, len: nat)

  function MappedPart(disk: Disk, clone: Option<uint32>, tag: uint32, xs: seq<Extent>, size: nat): (m: Mapped)
    ensures m.len <= size
  {
    Mapped(PagesOf(Source(disk.store, xs, Fallback(disk, clone, tag))), Min(PageCount(xs) * 8192, size))
  }

  /** The frag tail: where it starts in the file, where in the frag file, and the
      frag file's pages. */
  datatype Frag = Frag(pages: PageSource, fileOff: nat, slotOff: SlotOffset)

  /** Frag slots are 1 KB units numbered by 32 bits. */
  type SlotOffset = x: nat | x < 0x400_0000_0000

  function FragOf(disk: Disk, fs: Fileset, st: Stat): Result<Frag> {
    var off := st.fragPageOffset * 8192;
    if off >= st.size then Err(EINVAL)
    else if st.size - off > st.fragType * FRAG_SLOT_SZ then Err(EINVAL)
    else
      match MapByTag(disk, fs, FRAG_FILE_TAG)
      case Err(e) => Err(e)
      case Ok(xs) => Ok(Frag(PagesOf(Source(disk.store, xs, None)), off, st.fragSlot * FRAG_SLOT_SZ))
  }

  /** How a file's bytes are made up. */
  datatype Layers = Inline(data: seq<byte>) | Layers(mapped: Option<Mapped>, frag: Option<Frag>)

  function MappedLayer(disk: Disk, clone: Option<uint32>, tag: uint32, loc: McellLoc,
                       size: nat): Result<Option<Mapped>> {
    match disk.extents(loc)
    case Err(e) => if e == ENODATA then Ok(None) else Err(e)
    case Ok(xs) => if |xs| == 0 then Ok(None) else Ok(Some(MappedPart(disk, clone, tag, xs, size)))
  }

  function MappedError(m: Option<Mapped>): Option<Errno>
    requires m.Some? ==> m.value.len <= BYTE_LIMIT
  {
    if m.None? then None else CopyError(m.value.pages, 0, m.value.len)
  }

  function FragLen(st: Stat, frag: Frag): nat {
    Max(st.size - frag.fileOff, 0)
  }

  /** The layers of a nonempty file, or the first error met while reading them. */
  function LayersOf(disk: Disk, fs: Fileset, clone: Option<uint32>, tag: uint32, st: Stat,
                    loc: McellLoc): Result<Layers>
    requires st.size <= MAX_FILE_SIZE
  {
    if st.fragType == 0 && InlineOf(disk, loc).Ok? then Ok(Inline(InlineOf(disk, loc).value))
    else if st.fragType == 0 && InlineOf(disk, loc).errno != ENODATA then Err(InlineOf(disk, loc).errno)
    else
      match MappedLayer(disk, clone, tag, loc, st.size)
      case Err(e) => Err(e)
      case Ok(m) =>
        if MappedError(m).Some? then Err(MappedError(m).value)
        else if st.fragType == 0 then Ok(Layers(m, None))
        else
          match FragOf(disk, fs, st)
          case Err(e) => Err(e)
          case Ok(frag) =>
            var err := CopyError(frag.pages, frag.slotOff, FragLen(st, frag));
            if err.Some? then Err(err.value) else Ok(Layers(m, Some(frag)))
  }

  /** Byte b of a file of these layers: the inline byte, else the frag's byte where
      the frag covers b, else the extent-mapped byte, else zero. */
  function FileByte(layers: Layers, b: nat): byte
    requires b < MAX_FILE_SIZE
  {
    match layers
    case Inline(data) => if b < |data| then data[b] else 0
    case Layers(mapped, frag) =>
      if frag.Some? && b >= frag.value.fileOff
      then ByteAt(frag.value.pages, frag.value.slotOff + (b - frag.value.fileOff))
      else if mapped.Some? && b < mapped.value.len then ByteAt(mapped.value.pages, b)
      else 0
  }

  /** The file's exact contents, or the error reading it reports. */
  datatype Outcome = Contents(layers: Layers, size: nat) | Fails(errno: Errno)

  function ReadOutcome(disk: Disk, fs: Fileset, clone: Option<uint32>, tag: uint32): (r: Outcome)
    ensures r.Contents? ==> r.size <= MAX_FILE_SIZE
  {
    match StatOf(fs, tag)
    case Err(e) => Fails(e)
    case Ok(st) =>
      if st.size > MAX_FILE_SIZE then Fails(EFBIG)
      else if st.size == 0 then Contents(Inline([]), 0)
      else
        match fs.locate(tag)
        case Err(e) => Fails(e)
        case Ok(loc) =>
          match LayersOf(disk, fs, clone, tag, st, loc)
          case Err(e) => Fails(e)
          case Ok(layers) => Contents(layers, st.size)
  }

  // ---- the reader ----

  ghost predicate HoldsBytes(buf: seq<byte>, layers: Layers) {
    |buf| <= MAX_FILE_SIZE && forall b :: 0 <= b < |buf| ==> buf[b] == FileByte(layers, b)
  }

  method CopyInline(data: seq<byte>, buf: array<byte>)
    requires forall i :: 0 <= i < buf.Length ==> buf[i] == 0
    requires buf.Length <= MAX_FILE_SIZE
    modifies buf
    ensures HoldsBytes(buf[..], Inline(data))
  {
    var n := Min(|data|, buf.Length);
    var i := 0;
    while i < n
      invariant 0 <= i <= n
      invariant forall k :: 0 <= k < buf.Length ==> buf[k] == if k < i then data[k] else 0
    {
      buf[i] := data[i];
      i := i + 1;
    }
  }

  lemma {:induction false} SplicedBytes(before: seq<byte>, at: nat, pages: PageSource, off: nat, len: nat, k: nat)
    requires off + len <= BYTE_LIMIT && at + len <= |before| && k < |before|
    ensures Splice(before, at, Bytes(pages, off, len))[k]
            == if at <= k < at + len then ByteAt(pages, off + (k - at)) else before[k]
  {
    if at <= k < at + len {
      BytesIndex(pages, off, len, k - at);
    }
  }

  lemma {:induction false} MappedBytes(zeros: seq<byte>, m: Mapped)
    requires |zeros| <= MAX_FILE_SIZE && m.len <= |zeros|
    requires forall i :: 0 <= i < |zeros| ==> zeros[i] == 0
    ensures HoldsBytes(Splice(zeros, 0, Bytes(m.pages, 0, m.len)), Layers(Some(m), None))
  {
    forall b | 0 <= b < |zeros|
      ensures Splice(zeros, 0, Bytes(m.pages, 0, m.len))[b] == FileByte(Layers(Some(m), None), b)
    {
      SplicedBytes(zeros, 0, m.pages, 0, m.len, b);
    }
  }

  lemma {:induction false} FragBytes(before: seq<byte>, m: Option<Mapped>, frag: Frag)
    requires HoldsBytes(before, Layers(m, None)) && frag.fileOff <= |before|
    ensures HoldsBytes(Splice(before, frag.fileOff, Bytes(frag.pages, frag.slotOff, |before| - frag.fileOff)),
                       Layers(m, Some(frag)))
  {
    var after := Splice(before, frag.fileOff, Bytes(frag.pages, frag.slotOff, |before| - frag.fileOff));
    forall b | 0 <= b < |before| ensures after[b] == FileByte(Layers(m, Some(frag)), b) {
      SplicedBytes(before, frag.fileOff, frag.pages, frag.slotOff, |before| - frag.fileOff, b);
      assert before[b] == FileByte(Layers(m, None), b);
    }
  }

  /** Steps 4 and 5: the extent-mapped part, with the fallback of a clone. */
  method ReadMapped(disk: Disk, clone: Option<uint32>, tag: uint32, loc: McellLoc, buf: array<byte>)
      returns (err: Option<Errno>)
    requires buf.Length <= MAX_FILE_SIZE
    requires forall i :: 0 <= i < buf.Length ==> buf[i] == 0
    modifies buf
    ensures match MappedLayer(disk, clone, tag, loc, buf.Length)
            case Err(e) => err == Some(e)
            case Ok(m) => err == MappedError(m) && (err == None ==> HoldsBytes(buf[..], Layers(m, None)))
  {
    var map0 := disk.extents(loc);
    if map0.Err? {
      return if map0.errno == ENODATA then None else Some(map0.errno);
    }
    var xs := map0.value;
    if |xs| == 0 {
      return None;
    }
    var pages: nat := CountPages(xs);
    var len := Min(pages * 8192, buf.Length);
    var fb: CloneFallback? := null;
    if clone.Some? && clone.value != 0 {
      fb := new CloneFallback(disk, clone.value, tag);
    }
    ghost var m := MappedPart(disk, clone, tag, xs, buf.Length);
    ghost var zeros := buf[..];
    err := CopyBitfileBytes(disk.store, xs, 0, buf, 0, len, fb, m.pages);
    if err == None {
      MappedBytes(zeros, m);
    }
  }

  method OverlayFrag(store: Store, xs: seq<Extent>, buf: array<byte>, ghost m: Option<Mapped>, ghost frag: Frag,
                     off: nat, slotOff: nat)
      returns (err: Option<Errno>)
    requires off == frag.fileOff && slotOff == frag.slotOff && Presents(frag.pages, store, xs, null)
    requires off <= buf.Length <= MAX_FILE_SIZE && HoldsBytes(buf[..], Layers(m, None))
    modifies buf
    ensures err == CopyError(frag.pages, slotOff, buf.Length - off)
    ensures err == None ==> HoldsBytes(buf[..], Layers(m, Some(frag)))
  {
    ghost var before := buf[..];
    err := CopyBitfileBytes(store, xs, slotOff, buf, off, buf.Length - off, null, frag.pages);
    if err == None {
      FragBytes(before, m, frag);
    }
  }

  /** read_frag_tail. */
  method ReadFragTail(disk: Disk, fs: Fileset, st: Stat, buf: array<byte>, ghost m: Option<Mapped>)
      returns (err: Option<Errno>)
    requires buf.Length == st.size <= MAX_FILE_SIZE && HoldsBytes(buf[..], Layers(m, None))
    modifies buf
    ensures match FragOf(disk, fs, st)
            case Err(e) => err == Some(e)
            case Ok(frag) =>
              err == CopyError(frag.pages, frag.slotOff, FragLen(st, frag))
              && (err == None ==> HoldsBytes(buf[..], Layers(m, Some(frag))))
  {
    var off := st.fragPageOffset * 8192;
    if off >= st.size || st.size - off > st.fragType * FRAG_SLOT_SZ {
      return Some(EINVAL);
    }
    var loc := fs.locate(FRAG_FILE_TAG);
    if loc.Err? {
      return Some(loc.errno);
    }
    var xs := disk.extents(loc.value);
    if xs.Err? {
      return Some(xs.errno);
    }
    err := OverlayFrag(disk.store, xs.value, buf, m, FragOf(disk, fs, st).value, off, st.fragSlot * FRAG_SLOT_SZ);
  }

  /** Steps 3 to 6 for a nonempty file. */
  method ReadLayers(disk: Disk, fs: Fileset, clone: Option<uint32>, tag: uint32, st: Stat, loc: McellLoc,
                    buf: array<byte>)
      returns (err: Option<Errno>)
    requires 0 < st.size == buf.Length <= MAX_FILE_SIZE
    requires forall i :: 0 <= i < buf.Length ==> buf[i] == 0
    modifies buf
    ensures match LayersOf(disk, fs, clone, tag, st, loc)
            case Err(e) => err == Some(e)
            case Ok(layers) => err == None && HoldsBytes(buf[..], layers)
  {
    if st.fragType == 0 {
      var data := InlineOf(disk, loc);
      if data.Ok? {
        CopyInline(data.value, buf);
        return None;
      }
      if data.errno != ENODATA {
        return Some(data.errno);
      }
    }
    err := ReadMapped(disk, clone, tag, loc, buf);
    if err.Some? {
      return;
    }
    if st.fragType != 0 {
      err := ReadFragTail(disk, fs, st, buf, MappedLayer(disk, clone, tag, loc, st.size).value);
    }
  }

  /** filedata_read_impl: the whole file in a fresh buffer of exactly its size. */
  method ReadFile(disk: Disk, fs: Fileset, clone: Option<uint32>, tag: uint32)
      returns (err: Option<Errno>, buf: array?<byte>, size: nat)
    ensures match ReadOutcome(disk, fs, clone, tag)
            case Fails(e) => err == Some(e) && buf == null && size == 0
            case Contents(layers, n) =>
              err == None && buf != null && fresh(buf) && size == n
              && buf.Length == Max(n, 1) && HoldsBytes(buf[..n], layers)
  {
    var st := StatOf(fs, tag);
    if st.Err? {
      return Some(st.errno), null, 0;
    }
    if st.value.size > MAX_FILE_SIZE {
      return Some(EFBIG), null, 0;
    }
    if st.value.size == 0 {
      buf := new byte[1](_ => 0);
      return None, buf, 0;
    }
    var b := new byte[st.value.size](_ => 0);
    var loc := fs.locate(tag);
    if loc.Err? {
      return Some(loc.errno), null, 0;
    }
    err := ReadLayers(disk, fs, clone, tag, st.value, loc.value, b);
    if err.Some? {
      return err, null, 0;
    }
    assert b[..st.value.size] == b[..];
    return None, b, st.value.size;
  }
}
