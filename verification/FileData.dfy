/** File contents (src/filedata.c): page-wise copying with a lazily resolved,
    memoised fallback to the original fileset of a clone, and whole-file assembly
    from inline data, extent-mapped pages and a frag tail. */
module FileData {
  import opened Ods
  import opened Extents
  import opened Filesets

  const FRAG_SLOT_SZ: nat := 1024
  const FRAG_FILE_TAG: uint32 := 1
  const MAX_FILE_SIZE: nat := 0x1000_0000_0000

  // ---- where a bitfile's bytes come from ----

  /** A bitfile: its extent map and, for a clone, the original's map (or why it
      cannot be had). */
  datatype Source = Source(store: Store, xs: seq<Extent>, orig: Option<Result<seq<Extent>>>)

  /** Pages beyond a map read as zeros; other errors stand. */
  function OrZeros(r: Result<Page>): Result<Page> {
    if r == Err(ENOENT) then Ok(ZeroPage()) else r
  }

  /** A page of the original, one level deep: its own holes read as zeros. */
  function OrigPage(store: Store, orig: Result<seq<Extent>>, pg: uint32): Result<Page> {
    match orig
    case Err(_) => Ok(ZeroPage())
    case Ok(xs) => OrZeros(ReadPage(store, xs, pg).data)
  }

  /** A page of the bitfile, the original consulted afresh for every clone hole. */
  function PageOf(src: Source, pg: uint32): Result<Page> {
    var r := ReadPage(src.store, src.xs, pg);
    if r.hole && src.orig.Some? then OrigPage(src.store, src.orig.value, pg) else OrZeros(r.data)
  }

  /** Page by page, what a bitfile reads as. */
  type PageSource = uint32 -> Result<Page>

  function PagesOf(src: Source): PageSource {
    pg => PageOf(src, pg)
  }

  const BYTE_LIMIT: nat := 0x2000_0000_0000

  /** Byte b of a bitfile; the page number always fits 32 bits. */
  function ByteAt(pages: PageSource, b: nat): byte
    requires b < BYTE_LIMIT
  {
    match pages(b / 8192)
    case Err(_) => 0
    case Ok(page) => page[b % 8192]
  }

  /** The bytes of a range of the bitfile. */
  function Bytes(pages: PageSource, off: nat, len: nat): (r: seq<byte>)
    requires off + len <= BYTE_LIMIT
    ensures |r| == len
  {
    if len == 0 then [] else Bytes(pages, off, len - 1) + [ByteAt(pages, off + len - 1)]
  }

  lemma {:induction false} BytesIndex(pages: PageSource, off: nat, len: nat, k: nat)
    requires off + len <= BYTE_LIMIT && k < len
    ensures Bytes(pages, off, len)[k] == ByteAt(pages, off + k)
  {
    if k < len - 1 {
      BytesIndex(pages, off, len - 1, k);
    }
  }

  /** The error of the first unreadable page of a byte range. */
  function CopyError(pages: PageSource, off: nat, len: nat): Option<Errno>
    requires off + len <= BYTE_LIMIT
    decreases len
  {
    if len == 0 then None
    else
      match pages(off / 8192)
      case Err(e) => Some(e)
      case Ok(_) =>
        var chunk := Min(8192 - off % 8192, len);
        CopyError(pages, off + chunk, len - chunk)
  }

  predicate Readable(pages: PageSource, b: nat)
    requires b < BYTE_LIMIT
  {
    pages(b / 8192).Ok?
  }

  /** A copy succeeds exactly when every page the range touches can be read. */
  lemma {:induction false} CopySucceeds(pages: PageSource, off: nat, len: nat)
    requires off + len <= BYTE_LIMIT
    ensures CopyError(pages, off, len) == None <==> forall b :: off <= b < off + len ==> Readable(pages, b)
    decreases len
  {
    if len > 0 {
      var chunk := Min(8192 - off % 8192, len);
      CopySucceeds(pages, off + chunk, len - chunk);
      forall b | off <= b < off + chunk ensures Readable(pages, b) == Readable(pages, off) {
        assert b / 8192 == off / 8192;
      }
      if CopyError(pages, off, len) == None {
        forall b | off <= b < off + len ensures Readable(pages, b) {
          if b >= off + chunk {
            assert Readable(pages, b);
          }
        }
      } else {
        assert !Readable(pages, off) || exists b :: off + chunk <= b < off + len && !Readable(pages, b);
      }
    }
  }

  /** A copy that fails does so with the error of the first page that cannot be read. */
  lemma {:induction false} CopyFailsFirst(pages: PageSource, off: nat, len: nat) returns (b: nat)
    requires off + len <= BYTE_LIMIT && CopyError(pages, off, len).Some?
    ensures off <= b < off + len && pages(b / 8192) == Err(CopyError(pages, off, len).value)
    ensures forall c :: off <= c < b ==> Readable(pages, c)
    decreases len
  {
    b := off;
    if pages(off / 8192).Ok? {
      var chunk := Min(8192 - off % 8192, len);
      b := CopyFailsFirst(pages, off + chunk, len - chunk);
      forall c | off <= c < b ensures Readable(pages, c) {
        if c < off + chunk {
          assert c / 8192 == off / 8192;
        }
      }
    }
  }

  lemma {:induction false} RangeReadable(pages: PageSource, off: nat, len: nat, b: nat)
    requires off + len <= BYTE_LIMIT && CopyError(pages, off, len) == None && off <= b < off + len
    ensures Readable(pages, b)
  {
    CopySucceeds(pages, off, len);
  }

  // ---- the memoised fallback ----

  /** The original file's extent map, resolved when the first clone hole asks for it. */
  class CloneFallback {
    const disk: Disk
    const origTag: uint32             // the original fileset
    const tag: uint32                 // the file being read
    var resolved: int                 // 0 untried, 1 ready, -1 unavailable
    var origExtents: seq<Extent>
    ghost var attempts: nat           // resolutions carried out

    constructor (disk: Disk, origTag: uint32, tag: uint32)
      ensures this.disk == disk && this.origTag == origTag && this.tag == tag
      ensures resolved == 0 && Valid()
    {
      this.disk, this.origTag, this.tag := disk, origTag, tag;
      resolved, origExtents, attempts := 0, [], 0;
    }

    /** What resolving the original yields, whenever it is done. */
    ghost function Original(): Result<seq<Extent>> {
      OriginalMap(disk, origTag, tag)
    }

    /** The memo tells the truth, and was filled by at most one resolution. */
    ghost predicate Valid()
      reads this
    {
      || (resolved == 0 && attempts == 0)
      || (resolved == 1 && attempts == 1 && Original() == Ok(origExtents))
      || (resolved == -1 && attempts == 1 && Original().Err?)
    }

    /** clone_fallback_resolve: fileset, then tag, then extent map, once. */
    method Resolve() returns (ready: bool)
      requires Valid()
      modifies this
      ensures Valid() && resolved != 0 && ready == (resolved == 1) == Original().Ok?
      ensures ready ==> Original() == Ok(origExtents)
      ensures attempts == (if old(resolved) == 0 then old(attempts) + 1 else old(attempts))
      ensures old(resolved) != 0 ==> resolved == old(resolved) && origExtents == old(origExtents)
    {
      if resolved != 0 {
        return resolved == 1;
      }
      attempts := attempts + 1;
      resolved := -1;
      var fs := disk.fileset(origTag);
      if fs.Err? {
        return false;
      }
      var loc := fs.value.locate(tag);
      if loc.Err? {
        return false;
      }
      var xs := disk.extents(loc.value);
      if xs.Err? {
        return false;
      }
      origExtents := xs.value;
      resolved := 1;
      return true;
    }

    /** clone_fallback_read_page. */
    method ReadPageOf(pg: uint32) returns (r: Result<Page>)
      requires Valid()
      modifies this
      ensures Valid() && resolved != 0
      ensures old(resolved) != 0 ==> resolved == old(resolved) && origExtents == old(origExtents)
      ensures r == OrigPage(disk.store, Original(), pg)
    {
      var ready := Resolve();
      if !ready {
        return Ok(ZeroPage());
      }
      var got := ReadDataCore(disk.store, origExtents, pg);
      if got.data == Err(ENOENT) {
        return Ok(ZeroPage());
      }
      if got.data.Err? {
        return got.data;
      }
      return if got.hole then Ok(ZeroPage()) else got.data;
    }
  }

  /** The source a copy reads, with or without a fallback. */
  ghost function SourceOf(store: Store, xs: seq<Extent>, fb: CloneFallback?): Source {
    Source(store, xs, if fb == null then None else Some(fb.Original()))
  }

  /** The range touches no clone hole of the map. */
  predicate NoHoles(xs: seq<Extent>, off: nat, len: nat)
    requires off + len <= BYTE_LIMIT
  {
    forall b: nat {:trigger b / 8192} :: off <= b < off + len ==> View(xs, b / 8192) != CloneHole
  }

  method ReadSourcePage(store: Store, xs: seq<Extent>, pg: uint32, fb: CloneFallback?) returns (r: Result<Page>)
    requires fb != null ==> fb.Valid() && fb.disk.store == store
    modifies fb
    ensures fb != null ==> fb.Valid() && (old(fb.resolved) != 0 ==> fb.resolved == old(fb.resolved))
    ensures fb != null && (xs == [] || View(xs, pg) != CloneHole) ==> fb.attempts == old(fb.attempts)
    ensures r == PageOf(SourceOf(store, xs, fb), pg)
  {
    var got := ReadDataCore(store, xs, pg);
    if got.data == Err(ENOENT) {
      return Ok(ZeroPage());
    }
    if got.data.Err? {
      return got.data;
    }
    if fb != null && got.hole {
      r := fb.ReadPageOf(pg);
      return;
    }
    return got.data;
  }

  /** A buffer with some bytes replaced from position `at` on. */
  function Splice(buf: seq<byte>, at: nat, part: seq<byte>): (r: seq<byte>)
    requires at + |part| <= |buf|
    ensures |r| == |buf|
  {
    buf[..at] + part + buf[at + |part|..]
  }

  lemma {:induction false} SpliceOn(buf: seq<byte>, at: nat, part: seq<byte>, more: seq<byte>)
    requires at + |part| + |more| <= |buf|
    ensures Splice(Splice(buf, at, part), at + |part|, more) == Splice(buf, at, part + more)
  {
  }

  /** One chunk inside a page extends the bytes of the range. */
  lemma {:induction false} ChunkBytes(pages: PageSource, off: nat, done: nat, chunk: nat)
    requires off + done + chunk <= BYTE_LIMIT && (off + done) % 8192 + chunk <= 8192
    requires chunk > 0 && Readable(pages, off + done)
    ensures var b := off + done;
            Bytes(pages, off, done) + pages(b / 8192).value[b % 8192..b % 8192 + chunk]
            == Bytes(pages, off, done + chunk)
    decreases chunk
  {
    var b := off + done;
    var page := pages(b / 8192).value;
    if chunk > 1 {
      ChunkBytes(pages, off, done, chunk - 1);
    }
    var last := b + chunk - 1;
    assert last / 8192 == b / 8192 && last % 8192 == b % 8192 + (chunk - 1);
    assert page[b % 8192..b % 8192 + chunk] == page[b % 8192..b % 8192 + (chunk - 1)] + [page[last % 8192]];
  }

  lemma {:induction false} SpliceByte(buf: seq<byte>, at: nat, page: Page, inPg: nat, i: nat)
    requires inPg + i < PGSZ && at + i < |buf|
    ensures Splice(buf, at, page[inPg..inPg + i])[at + i := page[inPg + i]]
            == Splice(buf, at, page[inPg..inPg + (i + 1)])
  {
  }

  /** memcpy of one chunk of a page. */
  method CopyChunk(page: Page, inPg: nat, dst: array<byte>, at: nat, chunk: nat)
    requires inPg + chunk <= PGSZ && at + chunk <= dst.Length
    modifies dst
    ensures dst[..] == Splice(old(dst[..]), at, page[inPg..inPg + chunk])
  {
    ghost var before := dst[..];
    var i := 0;
    while i < chunk
      invariant 0 <= i <= chunk
      invariant dst[..] == Splice(before, at, page[inPg..inPg + i])
    {
      SpliceByte(before, at, page, inPg, i);
      dst[at + i] := page[inPg + i];
      i := i + 1;
    }
  }

  /** `pages` is what reading through this map and fallback yields. */
  ghost predicate Presents(pages: PageSource, store: Store, xs: seq<Extent>, fb: CloneFallback?)
  {
    forall pg: uint32 {:trigger PageOf(SourceOf(store, xs, fb), pg)} :: pages(pg) == PageOf(SourceOf(store, xs, fb), pg)
  }

  /** One chunk: read the page, copy the part that is asked for. */
  method CopyOne(store: Store, xs: seq<Extent>, b: nat, dst: array<byte>, at: nat, left: nat,
                 fb: CloneFallback?, ghost pages: PageSource)
      returns (err: Option<Errno>, chunk: nat)
    requires b < BYTE_LIMIT && at + left <= dst.Length
    requires fb != null ==> fb.Valid() && fb.disk.store == store
    requires Presents(pages, store, xs, fb)
    modifies dst, fb
    ensures fb != null ==> fb.Valid() && (old(fb.resolved) != 0 ==> fb.resolved == old(fb.resolved))
    ensures fb != null && View(xs, b / 8192) != CloneHole ==> fb.attempts == old(fb.attempts)
    ensures match pages(b / 8192)
            case Err(e) => err == Some(e)
            case Ok(page) => err == None && chunk == ChunkLen(b, left)
                             && dst[..] == Splice(old(dst[..]), at, ChunkOf(page, b, left))
  {
    chunk := ChunkLen(b, left);
    var page := ReadSourcePage(store, xs, b / 8192, fb);
    if page.Err? {
      return Some(page.errno), 0;
    }
    CopyChunk(page.value, b % 8192, dst, at, chunk);
    err := None;
  }

  /** The chunk that the copy takes at byte b of a range with `left` bytes to go. */
  function ChunkLen(b: nat, left: nat): (n: nat)
    ensures n <= left && b % 8192 + n <= 8192 && (left > 0 ==> n > 0)
  {
    Min(8192 - b % 8192, left)
  }

  function ChunkOf(page: Page, b: nat, left: nat): (r: seq<byte>)
    ensures |r| == ChunkLen(b, left)
  {
    page[b % 8192..b % 8192 + ChunkLen(b, left)]
  }

  lemma {:induction false} CopyErrorOn(pages: PageSource, b: nat, left: nat)
    requires b + left <= BYTE_LIMIT && left > 0 && pages(b / 8192).Ok?
    ensures CopyError(pages, b, left) == CopyError(pages, b + ChunkLen(b, left), left - ChunkLen(b, left))
  {
  }

  lemma {:induction false} ChunkOn(pages: PageSource, off: nat, done: nat, len: nat, before: seq<byte>, at: nat,
                                   more: seq<byte>)
    requires off + len <= BYTE_LIMIT && done < len && at + len <= |before| && pages((off + done) / 8192).Ok?
    requires more == ChunkOf(pages((off + done) / 8192).value, off + done, len - done)
    ensures Splice(Splice(before, at, Bytes(pages, off, done)), at + done, more)
            == Splice(before, at, Bytes(pages, off, done + |more|))
  {
    ChunkBytes(pages, off, done, |more|);
    SpliceOn(before, at, Bytes(pages, off, done), more);
  }

  lemma {:induction false} CopyStep(pages: PageSource, off: nat, done: nat, len: nat, before: seq<byte>, at: nat,
                                    next: nat)
    requires off + len <= BYTE_LIMIT && done < len && at + len <= |before|
    requires pages((off + done) / 8192).Ok? && next == done + ChunkLen(off + done, len - done)
    ensures var more := ChunkOf(pages((off + done) / 8192).value, off + done, len - done);
            && CopyError(pages, off + done, len - done) == CopyError(pages, off + next, len - next)
            && Splice(Splice(before, at, Bytes(pages, off, done)), at + done, more)
               == Splice(before, at, Bytes(pages, off, next))
  {
    CopyErrorOn(pages, off + done, len - done);
    ChunkOn(pages, off, done, len, before, at, ChunkOf(pages((off + done) / 8192).value, off + done, len - done));
  }

  /** A copy is `done` bytes along: its outcome is still to be met, and the destination
      holds the bytes so far. */
  ghost predicate Along(pages: PageSource, off: nat, len: nat, done: nat, before: seq<byte>, at: nat,
                        now: seq<byte>, result: Option<Errno>)
    requires off + len <= BYTE_LIMIT && done <= len && at + len <= |before|
  {
    result == CopyError(pages, off + done, len - done) && now == Splice(before, at, Bytes(pages, off, done))
  }

  /** One chunk decides the outcome or takes the copy along. */
  lemma {:induction false} AlongNext(pages: PageSource, off: nat, len: nat, done: nat, before: seq<byte>, at: nat,
                                     now: seq<byte>, result: Option<Errno>, b: nat, left: nat)
    requires off + len <= BYTE_LIMIT && done < len && at + len <= |before|
    requires Along(pages, off, len, done, before, at, now, result) && b == off + done && left == len - done
    ensures match pages(b / 8192)
            case Err(e) => result == Some(e)
            case Ok(page) => Along(pages, off, len, done + ChunkLen(b, left), before, at,
                                   Splice(now, at + done, ChunkOf(page, b, left)), result)
  {
    if pages(b / 8192).Ok? {
      CopyStep(pages, off, done, len, before, at, done + ChunkLen(b, left));
    }
  }

  /** One pass of the copy loop. */
  method CopyPass(store: Store, xs: seq<Extent>, off: nat, dst: array<byte>, at: nat, len: nat, done: nat,
                  fb: CloneFallback?, ghost pages: PageSource, ghost before: seq<byte>, ghost result: Option<Errno>)
      returns (err: Option<Errno>, done': nat)
    requires off + len <= BYTE_LIMIT && done < len && at + len <= dst.Length == |before|
    requires fb != null ==> fb.Valid() && fb.disk.store == store
    requires Presents(pages, store, xs, fb)
    requires Along(pages, off, len, done, before, at, dst[..], result)
    modifies dst, fb
    ensures fb != null ==> fb.Valid() && (old(fb.resolved) != 0 ==> fb.resolved == old(fb.resolved))
    ensures fb != null && View(xs, (off + done) / 8192) != CloneHole ==> fb.attempts == old(fb.attempts)
    ensures done < done' <= len
    ensures if err != None then err == result else Along(pages, off, len, done', before, at, dst[..], result)
  {
    ghost var now := dst[..];
    var b, left := off + done, len - done;
    var chunk: nat;
    err, chunk := CopyOne(store, xs, b, dst, at + done, left, fb, pages);
    AlongNext(pages, off, len, done, before, at, now, result, b, left);
    done' := if err.Some? then len else done + chunk;
  }

  /** copy_bitfile_bytes: fill dst[at .. at + len] from byte `off` of the bitfile. */
  method CopyBitfileBytes(store: Store, xs: seq<Extent>, off: nat, dst: array<byte>, at: nat, len: nat,
                          fb: CloneFallback?, ghost pages: PageSource)
      returns (err: Option<Errno>)
    requires off + len <= BYTE_LIMIT && at + len <= dst.Length
    requires fb != null ==> fb.Valid() && fb.disk.store == store
    requires Presents(pages, store, xs, fb)
    modifies dst, fb
    ensures fb != null ==> fb.Valid() && (old(fb.resolved) != 0 ==> fb.resolved == old(fb.resolved))
    ensures fb != null && NoHoles(xs, off, len) ==> fb.attempts == old(fb.attempts)
    ensures err == CopyError(pages, off, len)
    ensures err == None ==> dst[..] == Splice(old(dst[..]), at, Bytes(pages, off, len))
  {
    ghost var result := CopyError(pages, off, len);
    ghost var before := dst[..];
    var done := 0;
    while done < len
      invariant 0 <= done <= len
      invariant fb != null ==> fb.Valid() && (old(fb.resolved) != 0 ==> fb.resolved == old(fb.resolved))
      invariant fb != null && NoHoles(xs, off, len) ==> fb.attempts == old(fb.attempts)
      invariant Along(pages, off, len, done, before, at, dst[..], result)
    {
      err, done := CopyPass(store, xs, off, dst, at, len, done, fb, pages, before, result);
      if err != None {
        return;
      }
    }
    return None;
  }
}
