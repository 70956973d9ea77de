# The AdvFS read path, modelled and verified in Dafny

This project models how advfs-fuse turns the on-disk metadata of a Tru64 AdvFS
domain into directory entries and file bytes, and proves what that read path keeps.
Volume page reads are a function from volume and page to a page or an error; every
other step of the read path is modelled as the code takes it.

How the modules fit together, from the disk upwards:

- `Ods`, `LittleEndian`: machine integers, on-disk constants, error codes, byte order.
- `Boundary`: boundary lists and the page search that the code writes out three times.
- `Bmt`: the packed record headers of an mcell, with a printer for record areas.
- `RawMeta`, `Metadata`: the mcells and extent records of a metadata page, from its bytes.
- `Util`, `Bootstrap`, `Domain`: BMT page resolution, the map that is built
  by reading through itself, and the volume table of a domain.
- `MetaChain`: the same map as the list of the chain cells it is collected from.
- `Chain`, `ChainMeaning`, `Finders`: the cross-volume walk that collects a file's
  extents, and the three searches for the mcell that holds them.
- `ChainCells`, `ChainMap`, `SearchPath`: the references for both, a list of chain cells with
  their volumes, the entries and stripe columns it holds, and a list of mcell locations.
- `Extents`: what one page of an extent map means, page reads, page counts.
- `Placement`, `Runs`, `RunLength`, `Stripe`, `StripeMeaning`, `StripeFaithful`,
  `StripeLimits`: the stripe interleaver. `Stripe.PlanOf` lists the run the
  interleaver would emit at each file page and `Runs.Flatten` strings the runs
  together; `RunLength.Rle` is the independent reference, built page by page.
- `Filesets`, `FileData`, `FileRead`, `FileClones`, `FileBytes`: page-wise copying with the
  memoised fallback of a clone, whole-file assembly, what the fallback means, and where each
  byte of a file lies in terms of its stat record.
- `DirBlock`, `DirEntries`, `Dir`, `DirPages`, `DirLookup`, `DirClones`, `DirExamples`: directory
  blocks, their printer, deletion, directory reads and the pages they cover, the two ways of
  looking up a name, what they give for clones, and concrete disks on which they differ.
- `Count`, `CountExact`, `CountTypes`, `CountTree`: the recursive count as a state-changing
  walk, what its counters certify and stand for, and the trees it goes through without error.
- `Cache`, `CacheProtocol`: the one-entry file cache as an object, and as a protocol
  between any number of readers, one statement at a time.
- `Mount`: the layers put together, from a volume table and the bytes of its volumes'
  pages to the bytes of plain and striped files, of clones and of frags.

## Where the code does not do what one might expect

Each of these is stated as a lemma about the code as it is.

- A stripe column that starts at block 0 is a clone stub only as a whole: cutting it at
  a segment boundary moves later pieces off block 0, and they read as data
  (`StripeLimits.StubsAreNotFaithful`).
- A column that starts inside a segment hides its pages up to the end of that segment,
  since src/extents.c:470-473 reports an unlimited hole before its first entry and the
  run probed at the beginning of the segment covers all of it
  (`StripeLimits.HiddenReadsAsZeros`, `StripeLimits.LateColumnLosesPages`). A column that
  starts late but at a segment boundary is served correctly
  (`StripeFaithful.FaithfulWhenAligned`). `StripeFaithful.FaithfulExactly` says exactly
  when the interleaver preserves meaning, for all sorted columns.
- Columns whose page counts are not balanced lose pages, since the file's total is only
  their sum (`Placement.ConservationExact`, `Placement.UnbalancedLosesPage`).
- The page count exceeds the readable pages by one when a mapped entry starts at the
  terminator (`Extents.PageCountExact`, `Extents.EmptyTailOvercounts`).
- The metadata bootstrap is not always a fixpoint: a chain page located through a partial
  map that is not closed by a boundary entry can be looked for elsewhere through the
  finished map. It is one exactly if every chain page keeps its entry or loses it to a
  mapped entry that goes on with the run that was open (`Bootstrap.FixpointExactly`);
  `Bootstrap.OpenBootstrapIsNoFixpoint` gives a volume on which rebuilding loses entries.
- The comment at src/filedata.c:383-388 calls the clone fallback best effort, zeros on any
  failure but a hard I/O error. An original with an empty extent map nevertheless turns
  every clone hole into EINVAL (`FileClones.EmptyOriginalFails`), and an original page on a
  volume that is not attached, or at a block beyond 32 bits, gives ENODEV or ERANGE
  (`FileClones.DetachedOriginalFails`, `FileClones.FarOriginalFails`).
  `FileClones.CloneReadSucceedsExactly` says exactly when a range of a clone can be read.
- The three searches for the extent record differ exactly when the first record's extent
  chain meets a page read that itself reports ENODATA, as a medium error may, and the
  mcell's links lead to something else: only the fileset's search goes on
  (`Finders.FindersAgreeExactly`, `Finders.FindersDisagree`).
- Files fall back to the original on holes only, directories also beyond the clone's
  map (`DirClones.FallbacksDiffer`, `DirExamples.FallbacksDifferBeyond`).
- The mount looks names up without the clone fallback, so in a directory of a clone that
  was never modified it finds nothing, while the tool reads the original
  (`DirExamples.MountMissesName`). `DirClones.CloneLookupsAgreeExactly` says exactly when
  the two give the same answer, for every directory, clone or not, page by page.
- The mount finds a name that precedes an unreadable page, where the tool's lookup
  reports the error (`DirLookup.LookupsAgreeExactly`, `DirExamples.MatchBeforeUnreadable`).

## Model

| member | source | states |
|---|---|---|
| `Boundary.FirstCoverIsLast` | src/extents.c:604-635 | on a sorted boundary list, duplicates included, the first covering entry of the scan is the last entry at or below the page |
| `Boundary.CoverUnique` | src/extents.c:439-473 | an entry that covers a page of a sorted list is the one every scan returns |
| `Extents.ReadDataCore` | src/extents.c:580-714 | a page read yields what the page's view says: data of one block, zeros, a clone hole, ENOENT, ERANGE, ENODEV or the volume's error |
| `Extents.SortedView` | src/extents.c:604-702 | between the start of entry i of a sorted map and that of the next: nothing if it is the last and a marker, a clone hole at block 0 or the permanent-hole mark, zeros at TERM, else block blk + 16 * (p - start), or out of range from 2^32 on |
| `Extents.ColLookup` | src/extents.c:435-474 | block or marker, volume and remaining run length at a column page, for every list, sorted or not |
| `Extents.CountPages` | src/extents.c:762-788 | the greatest candidate end over all entries, the mapped case wrapping at 32 bits |
| `Extents.AbsentFromTerm` | src/extents.c:604-635 | in a sorted map from page 0 with a final TERM, a page is absent exactly from the TERM on |
| `Extents.PageCountExact` | src/extents.c:762-788 | ENOENT and page count agree on every page if and only if no mapped entry starts at the terminator |
| `Extents.EmptyTailOvercounts` | src/extents.c:773-781 | a concrete map whose page count promises a page that the reader does not have |
| `Placement.FilePageOfPlace` | src/extents.c:510-515 | file page to column page and back is the identity |
| `Placement.PlaceOfFilePage` | src/extents.c:510-515 | column page to file page and back is the identity |
| `Placement.PlacedInShare` | src/extents.c:491-515 | a file page lies below the total exactly if its column page lies inside its column's share |
| `Placement.SharesSumToTotal` | src/extents.c:491-501 | the columns' shares add up to the total: no page lost or counted twice |
| `Placement.ConservationExact` | src/extents.c:491-501 | the sum of the column counts is the right total, with file pages and column pages in bijection, exactly for balanced columns |
| `Placement.UnbalancedLosesPage` | src/extents.c:491-501 | a concrete unbalanced pair of columns loses a page |
| `Runs.AppendExtent` | src/extents.c:91-112 | appends one entry or reports overflow without touching anything else |
| `Runs.MergeOrAppend` | src/extents.c:533-555 | a run extends the previous entry exactly if it continues it, and is a new entry otherwise |
| `Runs.FlattenCanonical` | src/extents.c:510-565 | emitted entries strictly increase, no two neighbours are mergeable, and the last entry is the total with TERM |
| `Runs.FlatPageCount` | src/extents.c:762-788 | a canonical map with its terminator is well terminated and counts exactly the total |
| `Runs.FlattenSize` | src/extents.c:510-565 | if runs start only at marked pages there are no more entries than marks and a terminator |
| `RunLength.FlattenIsRle` | src/extents.c:510-565 | emitting runs gives the run-length form of the page-by-page description |
| `RunLength.RleServes` | src/extents.c:604-635 | the entry that serves page p of a run-length map is the last entry of the map of its first p + 1 pages |
| `Stripe.SumPageCounts` | src/extents.c:491-501 | the 64-bit sum of the columns' page counts |
| `Stripe.NextRun` | src/extents.c:510-532 | column, column page and length of the run at a file page; the length is positive and stays in the file, and no 32-bit computation wraps |
| `Stripe.Interleave` | src/extents.c:477-566 | for every input: EINVAL exactly for bad parameters, ERANGE exactly if the columns' page counts add up to more than 32 bits hold, otherwise the flat map of that many pages, or overflow exactly if it does not fit; nothing behind the capacity is written |
| `StripeMeaning.FlatMapCanonical` | src/extents.c:533-565 | for any columns at all, the flat map is canonical, well terminated and counts exactly the total |
| `StripeMeaning.ProbeSpans` | src/extents.c:435-474 | a probed run stays inside one column entry and ends where the next begins |
| `StripeMeaning.RunSpans` | src/extents.c:510-532 | from any piece start, no segment and no visible column entry starts inside the planned run; at its end one does |
| `StripeFaithful.FlatMapIsRunLength` | src/extents.c:477-566 | for all sorted columns whose visible pieces fit, the output is the run-length form of the file as seen page by page |
| `StripeFaithful.ViewByRunLength` | src/extents.c:604-702 | what a page of the flat map means, in terms of the page-by-page form |
| `StripeFaithful.FaithfulExactly` | src/extents.c:435-566 | for all sorted columns, looking up every file page in the flat map gives what its column gives, if and only if every visible piece stays below the sentinels, every block-0 stub keeps its head, and hidden pages are zeros |
| `StripeFaithful.HiddenExactly` | src/extents.c:470-473 | hidden are exactly the pages from a first entry off the segment boundaries to the end of its segment |
| `StripeFaithful.FaithfulWithoutStubs` | src/extents.c:435-566 | without block-0 entries, fitting pieces and hidden pages alone decide |
| `StripeFaithful.FaithfulWhenAligned` | src/extents.c:435-566 | columns that start at any segment boundary hide nothing |
| `StripeLimits.FlatMapFits` | src/extents.c:510-565 | at most one entry per segment, per column entry, and a terminator: a capacity that never overflows |
| `StripeLimits.StripedReadIsColumnRead` | src/extents.c:604-702 | for closed, balanced, stub-free columns whose pieces fit, file page p is a page of the flat map exactly if page (s/n)*seg + p%seg is one of column s%n, with s = p/seg, and then reads as that page |
| `StripeLimits.ColumnPageIsServed` | src/extents.c:491-515 | every page of every column of such a file has its place below the flat map's page count, and the flat map says of it what the column says |
| `StripeLimits.StubsAreNotFaithful` | src/extents.c:655-656 | concrete columns with block-0 stubs whose flat map no longer shows the clone hole |
| `StripeLimits.HiddenReadsAsZeros` | src/extents.c:470-473 | for any sorted columns, every hidden page is served as zeros, whatever the column maps there |
| `StripeLimits.LateColumnLosesPages` | src/extents.c:470-473 | a concrete stub-free file that loses a mapped page this way |
| `Util.ResolvePage` | src/util.c:15-77 | the volume page of a BMT page; a marker entry is never storage; without a map page 0 has its fixed place |
| `Util.SortedResolve` | src/util.c:40-76 | in a sorted map, the page lies at (blk + 16 * (p - start)) / 16 of the entry it falls into, ENOENT in a marker, ERANGE from block 2^32 on |
| `Util.ResolveStaysExactly` | src/util.c:40-67 | while a map grows, a resolved page keeps its volume page exactly if it was covered before the open end, lies below the next entry, or the entry that takes over is mapped with the same distance between volume page and BMT page as the open one |
| `Boundary.EntryKeptExactly` | src/util.c:40-67 | a covered page keeps its entry exactly if that is not the open last one, or nothing was added at or below the page |
| `Util.OpenEndMoves` | src/util.c:40-67 | a concrete open map in which an appended entry moves a page |
| `Bootstrap.BuildMetaExtentMap` | src/domain.c:72-217 | EILSEQ exactly without an extent record of full length, otherwise the map whose contents `MetaChain.MetaMapLists` gives, the chain located through the partial map or through the caller's |
| `MetaChain.MetaMapLists` | src/domain.c:98-195 | the built map is the counted primary descriptors and then those of each chain cell, from its XTRA or else its SHADOW record, as many as 4096 entries hold; each cell is linked to by the one before and located through what came before, and the chain ends only at a nil link, a page that cannot be located or read, a cell out of range or without overflow record, or after 64 cells |
| `MetaChain.MetaMapHasChain` | src/domain.c:98-195 | every map that is built has such a chain |
| `MetaChain.VolumeMapLists` | src/domain.c:368-393 | before version 4 the BMT map is that of cell 0, from version 4 on that of cell 4 with its chain located through the map of cell 0 |
| `MetaChain.ShadowOverflowIsCollected` | src/domain.c:160-178 | a concrete version 3 volume whose map goes on with the descriptors of a SHADOW record |
| `Bootstrap.FollowChain` | src/domain.c:98-195 | the chain loop on an array that grows while it is read, equal to the recursive build |
| `Bootstrap.BuildGrows` | src/domain.c:98-195 | a partial map is a prefix of the finished map |
| `Bootstrap.FixpointExactly` | src/domain.c:98-195 | rebuilding with the finished map as the resolving map gives the same entries and the same places, exactly if every chain page met was covered before the open end, lay below the next entry, or went to a mapped entry that goes on with the open run |
| `Bootstrap.SameEntriesExactly` | src/domain.c:98-195 | the walk locates every chain page through the finished map's entry exactly if each was covered before the open end or lay below the next entry |
| `Bootstrap.ClosedAllKeep` | src/domain.c:98-195 | with records that end in boundaries every chain page keeps its entry, even if the map fills up |
| `Bootstrap.MetaMapIsFixpoint` | src/domain.c:72-217 | a metadata file whose primary entries are present and whose records end in boundaries is a fixpoint of its own construction |
| `Bootstrap.OpenBootstrapIsNoFixpoint` | src/domain.c:98-195 | a concrete volume with an open record on which rebuilding gives another map |
| `Domain.DomainTable.FindVd` | src/domain.c:399-418 | the row of an index; index 0 is the primary |
| `Domain.OpensExactly` | src/domain.c:224-396 | a primary volume opens exactly with a version, a metadata page, a domain id and a BMT map; without an index, or with index 0, it is volume 1 |
| `Domain.AttachesExactly` | src/domain.c:421-517 | a further volume attaches exactly if fewer than 8 are, its version and domain id are the primary's, its index is neither 0 nor taken, and its BMT map can be built; without an index of its own it gets the next number |
| `Domain.DomainTable.OpenPrimary` | src/domain.c:224-396 | the primary row with its default index, or the error with the table unchanged |
| `Domain.DomainTable.AttachSecondary` | src/domain.c:421-517 | one more row, or the error with the table unchanged |
| `Domain.DomainTable.OpenMulti` | src/domain.c:526-565 | volumes attach in order until the first error |
| `Domain.RowKeepsTable` | src/domain.c:421-517 | an attached row keeps indices nonzero and distinct and the table within bounds |
| `Domain.OpenTableSound` | src/domain.c:526-565 | opening leaves a sound table, whether or not it succeeds |
| `Domain.OpenTableLists` | src/domain.c:526-565 | the table lists exactly the volumes attached, in order; all of them exactly on success |
| `Domain.EveryRowIsFound` | src/domain.c:399-418 | every attached volume is found under its own index, the primary also under 0 |
| `Domain.AttachKeepsLookups` | src/domain.c:399-418 | attaching never changes what an index already names |
| `Domain.OpenedRowsHaveMaps` | src/domain.c:526-565 | every row of an opened table is of the primary's domain and version and carries the map built from its own volume |
| `Domain.ChainPagesReadBack` | src/domain.c:645-688 | after opening any volumes as a version 3 domain, every chain page of a volume with closed records reads back through the table as the page the bootstrap used |
| `Bmt.FindRec` | src/bmt.c:56-96 | the offset of the first record of a type before the first nil, undersized or oversized header, or none |
| `Bmt.FindReturnsFirst` | src/bmt.c:56-96 | on a printed record area: the first record of the type with its exact byte count, version and payload, and nothing if there is none |
| `Bmt.VisitsAll` | src/bmt.c:99-143 | stepping through a printed record area visits exactly the printed records in order |
| `Bmt.FoundIsVisited` | src/bmt.c:56-143 | on any area, printed or not, what the finder returns the stepper reaches |
| `Bmt.RecordReadsBack` | src/ods.h:221-252 | a record printed with its header-inclusive byte count reads back wherever it stands |
| `RawMeta.CellXtntReadsBack` | src/ods.h:382-396 | an mcell decodes from the bytes of its page to the first printed extent record, field by field, or to none |
| `RawMeta.CellXtraReadsBack` | src/ods.h:404-415 | the same for an extra extent record with its 32 descriptors |
| `RawMeta.CellShadowReadsBack` | src/ods.h:422-438 | the same for a shadow extent record with its 31 descriptors |
| `RawMeta.CellReadsBack` | src/ods.h:281-318 | mcell c stands behind a header of 16 bytes and c mcells of 292: its link, the link's volume and its record area decode from there |
| `RawMeta.VersionDecides` | src/bmt.c:20-46 | a metadata page is accepted exactly with version 3 or 4 in the upper five bits of its fourth word, EILSEQ otherwise |
| `Chain.CollectArray` | src/extents.c:115-136 | the clamped entries of a record appended in order with their volume, or overflow |
| `Chain.CollectCell` | src/extents.c:241-315 | what one chain cell adds: its XTRA record, or else its SHADOW record, the first of which discards what came before, on the cell's volume; too short a record, too many entries and a column too many are errors |
| `Chain.WalkChain` | src/extents.c:218-324 | the chain loop gathers exactly the records of the recursive walk, to the first error |
| `ChainCells.FollowLists` | src/extents.c:218-324 | along any list of mcells with their volumes, each linked to by mcell id and volume (0 stays) of the one before, the walk yields as record k the counted XTRA or else SHADOW descriptors of cell k with the volume of cell k; it ends at a nil link, a cell with neither record or the 512th cell, or with the error of an unreadable page, a cell out of range or a record too short |
| `ChainCells.WalkHasChain` | src/extents.c:218-324 | every walk is along such a list |
| `ChainMeaning.CollectedAlong` | src/extents.c:190-324 | every step keeps: collected entries are the live part of the walked records in order, cut into columns at the shadow records |
| `ChainMeaning.GatheredIsCollected` | src/extents.c:190-324 | so does the whole walk |
| `ChainMeaning.MapOfCellMeaning` | src/extents.c:138-364 | the map of an mcell is the live entries of its chain in order, or, for a striped file of at least two columns, the interleaving of each shadow record with its continuations |
| `ChainMap.MapOfCellLists` | src/extents.c:138-364 | the same in terms of the list of cells: each descriptor with the volume of its own cell, primary ones first, or all from the first SHADOW record on; columns reach from one SHADOW record to the next |
| `ChainMap.HasMapExactly` | src/extents.c:138-364 | an mcell has a map exactly if its chain ends without error, nowhere holds more than 32768 entries or, in a striped file, more than 16 columns, and a striped file has a segment size and at most 2^32 - 1 pages |
| `ChainMap.NoMapBecause` | src/extents.c:138-364 | otherwise, as long as entries and columns fit, the error is the chain's, EILSEQ for the segment size or ERANGE for the pages |
| `ChainMeaning.ExtentsReadCore` | src/extents.c:138-364 | the extent map of an mcell, as the rows above describe it, in the caller's array, or its error |
| `Finders.FindXtntsMcell` | src/dir.c:56-123 | the first mcell with extents among the primary and 16 hops, cycles and cross-volume links included |
| `Finders.ReadFileExtents` | src/filedata.c:249-299 | the file reader's search and read |
| `Finders.ReadExtentsViaChain` | src/fileset.c:300-346 | the fileset reader's loop that reads at every hop |
| `SearchPath.SearchFollowsPath` | src/dir.c:56-123 | along any list of mcell locations, each linked to by page, cell and volume (0 stays) of the one before, the search of directories and files ends at the last one: with its extent record, its error, or ENODATA after 16 links |
| `SearchPath.SearchHasPath` | src/dir.c:56-123 | every search is along such a list |
| `Finders.NoDataExactly` | src/extents.c:138-364 | reading an mcell's map reports ENODATA exactly if it has no extent record, or its chain meets a page read reporting ENODATA with every earlier record accepted |
| `Finders.FindersAgreeExactly` | src/fileset.c:300-346 | the searches agree on every mcell graph exactly unless the first extent record is broken in that way and its mcell's remaining links lead to something other than ENODATA |
| `Finders.FindersDisagree` | src/fileset.c:300-346 | concrete page reads on which two searches report ENODATA and the third finds a map |
| `Finders.FindersAgree` | src/dir.c:56-123 | with page reads that never report ENODATA all three always give the same map or the same error |
| `FileData.CloneFallback.Resolve` | src/filedata.c:330-381 | fileset, tag and extent map of the original are looked up in order on the first call only; the outcome, ready or not, then stays |
| `FileData.CloneFallback.ReadPageOf` | src/filedata.c:389-423 | with any memo, a page of the original as resolved afresh; its holes and its absence read as zeros |
| `FileData.CopySucceeds` | src/filedata.c:436-492 | a copy succeeds exactly if every page the range touches can be read |
| `FileData.CopyFailsFirst` | src/filedata.c:436-492 | a copy that fails has the error of the first page that cannot be read |
| `FileData.CopyBitfileBytes` | src/filedata.c:436-492 | the range of the destination becomes exactly the range of the bitfile, the rest is unchanged, the error is that of the first unreadable page, and a range without clone holes resolves nothing |
| `FileRead.ReadFragTail` | src/filedata.c:501-556 | the bytes of the file's slot in the frag file overlay the file from the frag's offset on, EINVAL if the tail is not inside the file and its slots (`FileBytes.FragByte` gives the slot) |
| `FileRead.ReadMapped` | src/filedata.c:690-744 | the extent-mapped part with zeros behind it, an original's map behind clone holes (`FileBytes.MappedByte` gives the original) |
| `FileRead.ReadLayers` | src/filedata.c:653-754 | each byte of a nonempty file comes from the layer that owns it, or the first error is reported |
| `FileRead.ReadFile` | src/filedata.c:599-759 | a fresh buffer of exactly the file's size: byte b is the inline byte, else the frag byte, else the mapped byte, else zero, each as the rows below place it |
| `FileBytes.InlineByte` | src/filedata.c:653-688 | an inline file has the bytes of its record, at most 268 of them, and zeros behind them |
| `FileBytes.FragByte` | src/filedata.c:501-556 | byte b from fragPageOffset * 8192 on is byte fragSlot * 1024 + (b - fragPageOffset * 8192) of the frag file, tag 1; the tail is no longer than fragType * 1024 |
| `FileBytes.MappedByte` | src/filedata.c:690-744 | any other byte is what the file's map makes of it below its page count, and zero beyond; behind clone holes stands the map of the same tag in the original fileset, if the fileset is a clone with an original that has the file |
| `FileBytes.UnmappedByte` | src/filedata.c:690-704 | without an extent record it is zero |
| `FileBytes.FileReadsExactly` | src/filedata.c:599-759 | a file reads exactly if its tag is not 0, it has a stat record and at most 16 TiB, and it is empty, inline, or has every page of its map up to its size served and a tail inside file and slots that the frag file serves |
| `FileBytes.RefusedFile` | src/filedata.c:508-625 | EFBIG for a larger file, EINVAL for a tail outside file or slots |
| `FileClones.HolesReadOriginal` | src/filedata.c:443-489 | where a clone is holes throughout, a range reads as the original file read on its own: same bytes, same error |
| `FileClones.NestedHolesAreZeros` | src/filedata.c:389-423 | where the original has holes as well, the range reads as zeros without error |
| `FileClones.NoHolesNoFallback` | src/filedata.c:443-489 | without clone holes in a range the fallback changes neither a byte nor an error |
| `FileClones.CloneReadSucceedsExactly` | src/filedata.c:389-492 | a range of a clone can be read exactly if every page outside its holes is served by its own map and every page in them by the original's, unless the original cannot be resolved |
| `FileClones.EmptyOriginalFails` | src/filedata.c:383-423 | a concrete clone whose original has no extents fails with EINVAL |
| `FileClones.DetachedOriginalFails` | src/filedata.c:383-423 | a concrete clone whose original lies on a volume that is not attached fails with ENODEV |
| `FileClones.FarOriginalFails` | src/filedata.c:383-423 | a concrete clone whose original lies at a block beyond 32 bits fails with ERANGE |
| `DirBlock.Listener.Receive` | src/dir.c:299-417 | a callback hears one event and may ask to stop |
| `DirBlock.WalkDirBlock` | src/dir.c:299-417 | the callbacks hear the block's events in order until the first stop request, for every block |
| `DirBlock.DeliverCutsAtFirstStop` | src/dir.c:299-417 | what is heard is the wanted events up to and including the first at which the callback asks to stop, or all of them |
| `DirEntries.EntryReadsBack` | src/ods.h:623-648 | a printed live, deleted or gap entry parses to its own event |
| `DirEntries.WalkReadsBack` | src/dir.c:299-417 | walking a printed block delivers exactly its live and recoverable deleted entries in order |
| `DirEntries.DeletionMovesOneEntry` | src/dir.c:341-377 | zeroing the tag number of any reached live entry of any block moves exactly that entry to the deleted stream with the same name and tag, or drops it exactly if it has no name or no trailing tag; all other events stay |
| `Dir.PickPage` | src/dir.c:652-688 | the clone's page if really present, else the original's, else none |
| `Dir.ReadPages` | src/dir.c:626-709 | all blocks of all pages in order, cut at the first stop request or unreadable page; a stop is not an error |
| `Dir.StreamIsJoin` | src/dir.c:641-709 | what a directory holds is the concatenation, by page number, of the chosen pages, up to the first error |
| `Dir.JoinSplits` | src/dir.c:641-709 | pages read in two parts give the first part and then the second, unless the first fails |
| `Dir.FirstUnreadable` | src/dir.c:652-688 | the error is that of the first page that cannot be read, and there is one only if there is such a page |
| `Dir.ReadDir` | src/dir.c:536-714 | the whole directory read for every disk, clone or not |
| `DirPages.PageTotalExactly` | src/dir.c:626-646 | page p is read exactly if it is below 16384 and below the original's page count or, unless that is a clone's bogus stub, the directory's own |
| `DirPages.DirectoryHolds` | src/dir.c:536-714 | a directory read without error holds the entries of each such page, taken from the directory itself or else from the one of the same tag in the original fileset |
| `DirPages.BlockInPage` | src/dir.c:696-709 | each of a page's 16 blocks of 512 bytes contributes its entries |
| `DirPages.UnopenedDirectory` | src/dir.c:547-561 | EINVAL for tag 0, ENOENT for a tag that leads nowhere, else the map's error |
| `DirLookup.ResolveComponent` | src/fuse_ops.c:95-112 | the mount's early-stop lookup |
| `DirLookup.LookupEntry` | src/advfs_tool.c:828-848 | the tool's collect-then-search lookup |
| `DirLookup.LookupsAgreeExactly` | src/fuse_ops.c:82-112 | on a fileset that is no clone both give the same result, except exactly when a match precedes a page that cannot be read |
| `DirClones.StoppingByPages` | src/fuse_ops.c:82-112 | the first page that holds the name or cannot be read decides the early-stop lookup |
| `DirClones.CollectingByPages` | src/advfs_tool.c:828-848 | any unreadable page decides the collecting lookup, else the first page that holds the name |
| `DirClones.CloneLookupsAgreeExactly` | src/dir.c:641-709 | on every disk and for every directory of a fileset, clone or not, mount and tool answer alike exactly if the directory cannot be opened, or: with unreadable pages, the mount meets the same error before a match; otherwise the first page holding the name is the clone's own, or the clone's first own match has the same tag, or no page holds it, those only the mount reads included |
| `DirClones.UntouchedReadsOriginal` | src/dir.c:626-688 | a clone directory with no page of its own reads the original's pages up to the page total |
| `DirClones.UntouchedIsOriginal` | src/dir.c:604-688 | with a well-terminated original that is the original directory, whatever the clone's stub map claims |
| `DirClones.MountMissesUntouched` | src/fuse_ops.c:95-112 | the mount finds no name in such a directory |
| `DirExamples.MountMissesName` | src/fuse_ops.c:95-112 | one disk on which the mount reports ENOENT for a name that the tool finds |
| `DirExamples.MatchBeforeUnreadable` | src/fuse_ops.c:82-112 | one directory in which only the mount finds a name, before a page that cannot be read |
| `DirClones.FallbacksDiffer` | src/filedata.c:460-468 | a directory page and a file page are chosen alike exactly if the clone's lookup is not ENOENT or the original has zeros there |
| `DirExamples.FallbacksDifferBeyond` | src/dir.c:678-689 | a page beyond the clone's map that a directory reads from the original and a file as zeros |
| `Count.Walk.VisitedContains` | src/advfs_tool.c:1033-1041 | membership in the visited list |
| `Count.Walk.CountRecursive` | src/advfs_tool.c:1060-1128 | the walk updates counters and visited list as the recursive specification says, with the total size modulo 2^64 |
| `CountExact.DirAccounts` | src/advfs_tool.c:1060-1128 | each expansion adds exactly what its directories hold, and each directory entry met ends as an expansion or as an error |
| `CountExact.DirSound` | src/advfs_tool.c:1072-1083 | every step keeps the visited list free of duplicates and inside what is reachable |
| `CountExact.CountIsExact` | src/advfs_tool.c:1060-1128 | on any graph, cyclic ones included, counters are exact sums over the expanded directories, each counted once |
| `CountExact.NoErrorsExactly` | src/advfs_tool.c:1060-1128 | no errors exactly if no expanded directory had any and each directory entry led to an expansion of its own |
| `CountExact.NoErrorsCertify` | src/advfs_tool.c:1060-1128 | no errors certify that exactly the reachable directories were expanded, each once, one more than directory entries, with exact totals |
| `CountExact.CertifiesDisk` | src/advfs_tool.c:1085-1091 | on a disk: each reachable directory has then been read without error to its end, and its live entries are those gone through |
| `CountTypes.CountedByType` | src/advfs_tool.c:1092-1124 | directories, regular files with their sizes and symbolic links are told apart by the type bits 0040000, 0100000 and 0120000 of their mode; entries without their own stat record are errors, and each entry but "." and ".." counts once |
| `CountTree.NoErrorsForTrees` | src/advfs_tool.c:1060-1128 | on any graph, no errors exactly if the directories below the root form a tree, no directory reached in two ways, at most 64 deep and with paths shorter than 4096, each listed and with all its entries' stat records |
| `Cache.FileCache.constructor` | src/fuse_ops.c:50-56 | an empty cache |
| `Cache.FileCache.CacheFile` | src/fuse_ops.c:400-427 | afterwards the cache holds exactly the file, or nothing has changed and the error is the file's |
| `Cache.FileCache.Read` | src/fuse_ops.c:429-466 | from any cache state the reply is that of an uncached read, and tag 0 goes with no buffer |
| `Cache.FileCache.Drop` | src/fuse_ops.c:59-68 | an empty cache again |
| `Cache.TagZeroFails` | src/filedata.c:559-575 | tag 0, the cache's empty mark, is never readable |
| `Cache.CountOfReply` | src/fuse_ops.c:455-466 | the count of a reply is the number of bytes for requests below 2^31, and an int equal to it modulo 2^32 for any |
| `Cache.AdjacentReads` | src/fuse_ops.c:455-466 | adjacent reads concatenate |
| `Cache.ReadThroughIsWhole` | src/fuse_ops.c:455-466 | reading on in chunks of any size yields the whole file |
| `CacheProtocol.StepKeepsInv` | src/fuse_ops.c:400-466 | every statement of every reader keeps mutual exclusion and what the cache holds at that point of the update |
| `CacheProtocol.EveryReplyIsUncached` | src/fuse_ops.c:400-466 | over every run of any number of readers every finished read got the uncached reply, no freed or short buffer was read, and the unlocked cache is coherent |
| `CacheProtocol.MountRepliesAreUncached` | src/fuse_ops.c:429-466 | so for the files of every mount: each finished read has the slice of that file, or its error, whatever other readers did |
| `CacheProtocol.LoneReadIsRead` | src/fuse_ops.c:429-466 | a reader alone, statement by statement, gives the reply and leaves the cache as the object's one call does |
| `CacheProtocol.HolderProgresses` | src/fuse_ops.c:448-466 | whoever holds the lock is never blocked and gives it up with a reply within six statements |
| `CacheProtocol.FailedFillChangesNothing` | src/fuse_ops.c:400-427 | a failed fill changes no cache field and releases the lock |
| `Mount.TableReadsBytes` | src/domain.c:645-688 | what the volume table reads as a BMT page is decoded from the same volume's page bytes that file data comes from |
| `Mount.MappedFileByte` | src/filedata.c:690-744 | from volume table and page bytes: before its frag, byte b lies where the file's map puts page b / 8192, in a clone hole where the original's map puts it, and is zero beyond the map's pages |
| `Mount.CloneHoleByte` | src/filedata.c:728-736 | in a hole of a clone with original fileset o, byte b is the one that the map of the same tag in o puts there |
| `Mount.UnresolvedHoleByte` | src/filedata.c:728-736 | without a clone, with original 0, or if the original cannot be opened or does not have the file, it is zero |
| `Mount.PlainFileByte` | src/filedata.c:599-759 | all the way: byte b of a plain file lies where the descriptors of its chain cells put page b / 8192, on each cell's own volume, the cells found from the mcell that the tag names |
| `Mount.FragFileByte` | src/filedata.c:501-556 | from fragPageOffset * 8192 on, byte b lies where the map of tag 1 puts byte fragSlot * 1024 + (b - fragPageOffset * 8192) |
| `Mount.StripedFileByte` | src/filedata.c:599-759 | all the way for a file striped over well-built columns: before its frag, byte b lies in column s%n at page (s/n)*seg + p%seg, for p = b/8192 and s = p/seg, in a clone hole where the original's map puts it, and is zero beyond that column's pages |

## Left out

- Volume I/O, partial reads, magic numbers and disk labels (src/volume.c): a page read is a function that may fail; pages do not change while mounted.
- The single-volume entry points of src/extents.c: the model's chain walk has the flag that tells them apart, the page reader takes any table of volumes.
- Inline data and the lookups by tag enter `Mount` as functions of the primary mcell and the tag.
- Tag directories and the brute-force BMT scan (src/filedata.c:73-183, src/dir.c:168-232, src/fileset.c:82-289): locating the primary mcell of a tag is a function that may fail.
- An overflow record that claims more descriptors than its own bytes hold: the C code reads on behind the record; `RawMeta` does so too within the page and takes zeros behind the page, which the C code does not define.
- The search for a stat record or inline data along an mcell chain (src/filedata.c:185-247): a function that may fail.
- Unknown domain attributes: a volume's domain and volume attributes are given as found on its metadata page 0 (src/domain.c:28-65).
- `walk_dir_block`'s count of deleted entries, and all other debug output: nothing reads them.
- Allocation failures: memory is unbounded, so ENOMEM never occurs.
- The file-count fields of the recursive count are unbounded integers; only the total size, which can wrap, is modelled modulo 2^64.
- The printed paths of the recursive count: only their lengths, which decide whether a subtree is skipped, are modelled.
- Path resolution over several components, symbolic links, attributes, readdir and statfs of the mount (rest of src/fuse_ops.c): calls into FUSE around the functions modelled here.
- Teardown during a read: src/fuse_ops.c:59-68 runs after the last reader, so `CacheProtocol` has no dropping step.
- The tool's output, options and other commands (rest of src/advfs_tool.c, src/main.c): user interface.
- Guards in the C code that cannot fire (a run of length zero in the interleaver, an overflow of the two primary entries): their conditions are proved impossible and the branches dropped.
- Misaligned blocks: the reader divides a block number by 16 as the code does, and says nothing about entries that do not start at a multiple of 16.
