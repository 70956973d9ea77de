/** On-disk constants, machine integers and error codes shared by every module. */
module Ods {

  type byte = x: int | 0 <= x < 0x100
  type uint16 = x: int | 0 <= x < 0x1_0000
  type uint32 = x: int | 0 <= x < 0x1_0000_0000
  type uint64 = x: int | 0 <= x < 0x1_0000_0000_0000_0000

  const TWO_32: nat := 0x1_0000_0000
  const TWO_64: nat := 0x1_0000_0000_0000_0000
  const UINT32_MAX: uint32 := 0xFFFF_FFFF

  const PGSZ: nat := 8192  // 16 blocks of 512 bytes
  const RESERVED_BLKS: nat := 32
  const BSPG_CELLS: nat := 28
  const BSC_R_SZ: nat := 268
  const MAX_EXTENTS: nat := 32768
  const MAX_BMT_EXTENTS: nat := 4096
  const MAX_DOM_VDS: nat := 8

  /** The two sentinel block numbers of an extent descriptor. */
  const XTNT_TERM: uint32 := 0xFFFF_FFFF
  const PERM_HOLE: uint32 := 0xFFFF_FFFE

  predicate IsMarker(blk: int) {
    blk == XTNT_TERM || blk == PERM_HOLE
  }

  /** Negative errno values; `EHost` stands for whatever else pread() may report. */
  datatype Errno =
    | EINVAL | ENOENT | ENODATA | ENODEV | ENOMEM | EEXIST | E2BIG
    | EFBIG | EIO | EILSEQ | EOVERFLOW | ERANGE | EHost(code: nat)

  datatype Result<+T> = Ok(value: T) | Err(errno: Errno)

  datatype Option<+T> = None | Some(value: T) {
    function GetOr(default: T): T {
      if Some? then value else default
    }
  }

  /** A raw descriptor (adv_xtnt_t): bitfile page, disk block. */
  datatype Xtnt = Xtnt(bsPage: uint32, vdBlk: uint32)

  /** A collected descriptor (advfs_extent_t), tagged with the owning volume. */
  datatype Extent = Extent(bsPage: uint32, vdBlk: uint32, vdIndex: uint32)

  /** A mcell id packs a 27-bit page and a 5-bit cell into 32 bits. */
  type McellId = uint32

  function McidPage(id: McellId): uint32 { id / 32 }

  function McidCell(id: McellId): uint32 { id % 32 }

  type Page = s: seq<byte> | |s| == PGSZ witness seq(PGSZ, _ => 0)

  function ZeroPage(): (p: Page)
    ensures forall i :: 0 <= i < PGSZ ==> p[i] == 0
  {
    seq(PGSZ, i => 0)
  }

  function Min(a: int, b: int): int { if a <= b then a else b }

  function Max(a: int, b: int): int { if a >= b then a else b }
}
