/** The one-entry file cache of a mount (src/fuse_ops.c). */
module Cache {
  import opened Ods
  import opened FileData
  import opened Filesets
  import opened FileRead

  // ---- uncached reads ----

  function FileBytes(layers: Layers, n: nat): (s: seq<byte>)
    requires n <= MAX_FILE_SIZE
    ensures |s| == n && HoldsBytes(s, layers)
  {
    seq(n, i requires 0 <= i < n => FileByte(layers, i))
  }

  /** What reading the whole file yields. */
  function ContentsOf(disk: Disk, fs: Fileset, clone: Option<uint32>, tag: uint32): Result<seq<byte>> {
    match ReadOutcome(disk, fs, clone, tag)
    case Fails(e) => Err(e)
    case Contents(layers, n) => Ok(FileBytes(layers, n))
  }

  /** Tag 0, the cache's empty mark, is never readable. */
  lemma {:induction false} TagZeroFails(disk: Disk, fs: Fileset, clone: Option<uint32>)
    ensures ContentsOf(disk, fs, clone, 0) == Err(EINVAL)
  {
    assert StatOf(fs, 0) == Err(EINVAL);
  }

  /** The bytes of a file in a range, cut at its end. */
  function Slice(data: seq<byte>, off: nat, n: nat): (s: seq<byte>)
    ensures |s| == Max(0, Min(n, |data| - off))
  {
    if off < |data| then data[off..off + Min(n, |data| - off)] else []
  }

  /** The reply to a read: an error, or bytes and the count returned as an int. */
  datatype Reply = Failed(errno: Errno) | Got(data: seq<byte>, count: int)

  /** Conversion of a size to a 32-bit int. */
  function ToInt(n: nat): int {
    var m := n % TWO_32;
    if m < 0x8000_0000 then m else m - TWO_32
  }

  function ReplyTo(contents: Result<seq<byte>>, off: int, n: nat): Reply {
    if off < 0 then Failed(EINVAL)
    else
      match contents
      case Err(e) => Failed(e)
      case Ok(data) => Got(Slice(data, off, n), ToInt(|Slice(data, off, n)|))
  }

  /** What the cache holds: one file's tag and bytes. */
  datatype Held = Nothing | Holds(tag: uint32, data: seq<byte>)

  /** What it holds after a read of a file with these contents. */
  function After(held: Held, tag: uint32, contents: Result<seq<byte>>, off: int): Held {
    if off < 0 || contents.Err? then held else Holds(tag, contents.value)
  }

  // ---- the cache ----

  class FileCache {
    const disk: Disk
    const fs: Fileset
    const clone: Option<uint32>
    var tagNum: uint32
    var buf: array?<byte>
    var size: nat

    /** advfs_fuse_ctx_init_cache. */
    constructor (disk: Disk, fs: Fileset, clone: Option<uint32>)
      ensures Valid() && Now() == Nothing
      ensures this.disk == disk && this.fs == fs && this.clone == clone
    {
      this.disk, this.fs, this.clone := disk, fs, clone;
      tagNum, buf, size := 0, null, 0;
    }

    ghost function FileOf(tag: uint32): Result<seq<byte>> {
      ContentsOf(disk, fs, clone, tag)
    }

    /** The tag is 0 exactly while there is no buffer; otherwise the buffer is that
        tag's file. */
    ghost predicate Valid()
      reads this, buf
    {
      && (tagNum == 0 <==> buf == null)
      && (buf != null ==> size <= buf.Length && FileOf(tagNum) == Ok(buf[..size]))
    }

    ghost function Now(): Held
      requires Valid()
      reads this, buf
    {
      if buf == null then Nothing else Holds(tagNum, buf[..size])
    }

    /** Read the file and replace the cached one, or leave the cache alone. */
    method Fill(tag: uint32) returns (err: Option<Errno>)
      requires Valid()
      modifies this
      ensures Valid()
      ensures FileOf(tag).Err? ==> err == Some(FileOf(tag).errno)
      ensures FileOf(tag).Err? ==> tagNum == old(tagNum) && buf == old(buf) && size == old(size)
      ensures FileOf(tag).Ok? ==> err == None && Now() == Holds(tag, FileOf(tag).value)
    {
      var data: array?<byte>;
      var n: nat;
      err, data, n := ReadFile(disk, fs, clone, tag);
      if err.Some? {
        return;
      }
      TagZeroFails(disk, fs, clone);
      SameBytes(data[..n], ReadOutcome(disk, fs, clone, tag).layers);
      buf := data;
      size := n;
      tagNum := tag;
    }

    /** cache_file_locked. */
    method CacheFile(tag: uint32) returns (err: Option<Errno>)
      requires Valid()
      modifies this
      ensures Valid()
      ensures FileOf(tag).Err? ==> err == Some(FileOf(tag).errno)
      ensures FileOf(tag).Err? ==> tagNum == old(tagNum) && buf == old(buf) && size == old(size)
      ensures FileOf(tag).Ok? ==> err == None && Now() == Holds(tag, FileOf(tag).value)
    {
      if tagNum == tag && buf != null {
        return None;
      }
      err := Fill(tag);
    }

    /** advfs_op_read, between lock and unlock: the reply is that of an uncached read. */
    method Read(tag: uint32, off: int, n: nat) returns (r: Reply)
      requires Valid()
      modifies this
      ensures Valid()
      ensures r == ReplyTo(FileOf(tag), off, n)
      ensures off < 0 || FileOf(tag).Err? ==> tagNum == old(tagNum) && buf == old(buf) && size == old(size)
      ensures Now() == After(old(Now()), tag, FileOf(tag), off)
    {
      if off < 0 {
        return Failed(EINVAL);
      }
      var err := CacheFile(tag);
      if err.Some? {
        return Failed(err.value);
      }
      if off < size {
        var len := Min(n, size - off);
        var out := buf[off..off + len];
        assert out == buf[..size][off..off + len];
        return Got(out, ToInt(len));
      }
      return Got([], 0);
    }

    /** advfs_fuse_ctx_drop_cache. */
    method Drop()
      modifies this
      ensures Valid() && Now() == Nothing
    {
      buf := null;
      tagNum := 0;
      size := 0;
    }
  }

  lemma {:induction false} SameBytes(s: seq<byte>, layers: Layers)
    requires HoldsBytes(s, layers)
    ensures s == FileBytes(layers, |s|)
  {
  }

  // ---- what replies are worth ----

  /** The count of a reply is an int that agrees with the number of bytes modulo 2^32: the
      number itself for requests below 2^31 bytes. */
  lemma {:induction false} CountOfReply(data: seq<byte>, off: nat, n: nat)
    ensures var r := ReplyTo(Ok(data), off, n);
            && r.Got? && |r.data| <= n
            && -0x8000_0000 <= r.count < 0x8000_0000 && (|r.data| - r.count) % 0x1_0000_0000 == 0
            && (n < 0x8000_0000 ==> r.count == |r.data|)
  {
  }

  /** Adjacent reads of one file concatenate. */
  lemma {:induction false} AdjacentReads(data: seq<byte>, off: nat, n: nat, m: nat)
    ensures Slice(data, off, n) + Slice(data, off + n, m) == Slice(data, off, n + m)
  {
  }

  /** A reader that asks for `chunk` bytes at a time until it gets none. */
  function ReadThrough(contents: Result<seq<byte>>, off: nat, chunk: nat): Option<seq<byte>>
    requires chunk > 0
    decreases match contents case Ok(data) => Max(0, |data| - off) case Err(_) => 0
  {
    match ReplyTo(contents, off, chunk)
    case Failed(_) => None
    case Got(part, _) =>
      if part == [] then Some([])
      else
        match ReadThrough(contents, off + |part|, chunk)
        case None => None
        case Some(rest) => Some(part + rest)
  }

  /** Whatever the chunk size, it ends up with the whole file. */
  lemma {:induction false} ReadThroughIsWhole(data: seq<byte>, off: nat, chunk: nat)
    requires chunk > 0 && off <= |data|
    ensures ReadThrough(Ok(data), off, chunk) == Some(data[off..])
    decreases |data| - off
  {
    if off < |data| {
      var part := Slice(data, off, chunk);
      ReadThroughIsWhole(data, off + |part|, chunk);
      assert part != [] && ReplyTo(Ok(data), off, chunk) == Got(part, ToInt(|part|));
      assert data[off..] == part + data[off + |part|..];
    } else {
      assert data[off..] == [] && ReplyTo(Ok(data), off, chunk) == Got([], 0);
    }
  }
}
