/** What a mounted domain answers: filesets by tag, and in each its files' stat records,
    primary mcells, inline data and extent maps (src/fileset.c, src/filedata.c). */
module Filesets {
  import opened Ods
  import opened Extents

  /** The part of a file's stat record that its data depends on. */
  datatype Stat = Stat(size: uint64, fragSlot: uint32, fragType: uint32, fragPageOffset: uint32)

  /** Location of a file's primary mcell. */
  datatype McellLoc = McellLoc(vd: uint32, page: uint32, cell: uint32)

  /** One fileset's tag directory: stat records and primary mcells by tag. */
  datatype Fileset = Fileset(stat: uint32 -> Result<Stat>, locate: uint32 -> Result<McellLoc>)

  /** What the mounted domain answers: pages, inline records, extent maps, and the tag
      directories of its filesets. */
  datatype Disk = Disk(store: Store, inlineData: McellLoc -> Result<seq<byte>>,
                       extents: McellLoc -> Result<seq<Extent>>, fileset: uint32 -> Result<Fileset>)

  function MapByTag(disk: Disk, fs: Fileset, tag: uint32): Result<seq<Extent>> {
    match fs.locate(tag)
    case Err(e) => Err(e)
    case Ok(loc) => disk.extents(loc)
  }

  /** The same file's extent map in the original fileset, resolved afresh. */
  function OriginalMap(disk: Disk, origTag: uint32, tag: uint32): Result<seq<Extent>> {
    match disk.fileset(origTag)
    case Err(e) => Err(e)
    case Ok(fs) => MapByTag(disk, fs, tag)
  }

  /** The map of the same file in the original fileset: none unless the fileset is a clone
      of a fileset that can be opened, in which the tag leads to a map. */
  predicate OriginalIs(disk: Disk, clone: Option<uint32>, tag: uint32, orig: Option<seq<Extent>>) {
    if clone.None? || clone.value == 0 || disk.fileset(clone.value).Err? then orig == None
    else
      var ofs := disk.fileset(clone.value).value;
      if ofs.locate(tag).Err? || disk.extents(ofs.locate(tag).value).Err? then orig == None
      else orig == Some(disk.extents(ofs.locate(tag).value).value)
  }
}
