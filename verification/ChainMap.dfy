/** The extent map an mcell yields, in terms of the cells of its chain (src/extents.c). */
module ChainMap {
  import opened Ods
  import opened Metadata
  import opened Stripe
  import opened Chain
  import opened ChainCells
  import opened ChainMeaning

  // ---- entries and columns of a list of cells ----

  /** A cell's descriptors, each with the volume of the cell. */
  function Entries(p: Placed): (xs: seq<Extent>)
    ensures |xs| == |Descriptors(p.mc)|
  {
    var d := Descriptors(p.mc);
    seq(|d|, i requires 0 <= i < |d| => Extent(d[i].bsPage, d[i].vdBlk, p.vd))
  }

  /** The primary descriptors, as many as are counted, up to two. */
  function PrimaryEntries(xr: XtntRec, vd: uint32): (xs: seq<Extent>) {
    seq(Min(xr.xCnt, 2), i requires 0 <= i < 2 => Extent(xr.xtnts[i].bsPage, xr.xtnts[i].vdBlk, vd))
  }

  function AllEntries(cells: seq<Placed>): seq<Extent> {
    if cells == [] then [] else AllEntries(cells[..|cells| - 1]) + Entries(cells[|cells| - 1])
  }

  /** Positions of the cells that have a SHADOW and no XTRA record. */
  function Heads(cells: seq<Placed>): (at: seq<nat>)
    ensures forall j :: 0 <= j < |at| ==> at[j] < |cells|
    ensures forall i, j :: 0 <= i < j < |at| ==> at[i] < at[j]
  {
    if cells == [] then []
    else
      var n := |cells| - 1;
      Heads(cells[..n]) + (if cells[n].mc.xtra.None? then [n] else [])
  }

  /** What is left of a file's entries: those from the first SHADOW record on, or all. */
  function FileEntries(prim: seq<Extent>, cells: seq<Placed>): seq<Extent> {
    if Heads(cells) == [] then prim + AllEntries(cells) else AllEntries(cells[Heads(cells)[0]..])
  }

  /** Where column j ends: before the next SHADOW record. */
  function ColumnEnd(cells: seq<Placed>, j: nat): (n: nat)
    requires j < |Heads(cells)|
    ensures Heads(cells)[j] < n <= |cells|
  {
    if j + 1 < |Heads(cells)| then Heads(cells)[j + 1] else |cells|
  }

  /** Stripe columns: from each SHADOW record to the next. */
  function Columns(cells: seq<Placed>): (cols: seq<seq<Extent>>)
    ensures |cols| == |Heads(cells)|
  {
    seq(|Heads(cells)|, j requires 0 <= j < |Heads(cells)| =>
      AllEntries(cells[Heads(cells)[j]..ColumnEnd(cells, j)]))
  }

  // ---- the walked records give the same ----

  lemma {:induction false} RecordEntries(p: Placed)
    ensures RecEntries(RecordOf(p)) == Entries(p)
  {
  }

  lemma {:induction false} RecordsPrefix(cells: seq<Placed>)
    requires cells != []
    ensures var n := |cells| - 1;
            Records(cells)[..n] == Records(cells[..n]) && Records(cells)[n] == RecordOf(cells[n])
  {
  }

  lemma {:induction false} ShadowHeads(cells: seq<Placed>)
    ensures HasShadow(Records(cells)) <==> Heads(cells) != []
    decreases |cells|
  {
    if cells != [] {
      var n := |cells| - 1;
      RecordsPrefix(cells);
      ShadowHeads(cells[..n]);
      ShadowAppend(Records(cells[..n]), RecordOf(cells[n]));
      assert Records(cells) == Records(cells[..n]) + [RecordOf(cells[n])];
    }
  }

  /** Entries of some cells in a row, the last cell included or not. */
  lemma {:induction false} SliceGrows(cells: seq<Placed>, n: nat, h: nat)
    requires |cells| == n + 1 && h <= n
    ensures AllEntries(cells[h..n + 1]) == AllEntries(cells[..n][h..n]) + Entries(cells[n])
  {
    var part := cells[h..n + 1];
    assert part[..|part| - 1] == cells[..n][h..n] && part[|part| - 1] == cells[n];
  }

  lemma {:induction false} SliceStays(cells: seq<Placed>, n: nat, h: nat, e: nat)
    requires |cells| == n + 1 && h <= e <= n
    ensures cells[..n][h..e] == cells[h..e]
  {
  }

  lemma {:induction false} TailGrows(cells: seq<Placed>, n: nat, h: nat)
    requires |cells| == n + 1 && h <= n
    ensures AllEntries(cells[h..]) == AllEntries(cells[..n][h..]) + Entries(cells[n])
  {
    SliceGrows(cells, n, h);
    assert cells[h..n + 1] == cells[h..] && cells[..n][h..n] == cells[..n][h..];
  }

  lemma {:induction false} TailStarts(cells: seq<Placed>, n: nat)
    requires |cells| == n + 1
    ensures AllEntries(cells[n..]) == Entries(cells[n])
  {
    TailGrows(cells, n, n);
    assert cells[..n][n..] == [];
  }

  lemma {:induction false} FileEntriesStep(prim: seq<Extent>, cells: seq<Placed>, n: nat, before: seq<nat>)
    requires |cells| == n + 1 && before == Heads(cells[..n])
    ensures FileEntries(prim, cells)
            == (if cells[n].mc.xtra.None? && before == [] then [] else FileEntries(prim, cells[..n]))
               + Entries(cells[n])
  {
    if before != [] {
      assert Heads(cells)[0] == before[0];
      TailGrows(cells, n, before[0]);
    } else if cells[n].mc.xtra.None? {
      assert Heads(cells)[0] == n;
      TailStarts(cells, n);
    }
  }

  lemma {:induction false} LiveIsFileEntries(prim: seq<Extent>, cells: seq<Placed>)
    ensures Live(prim, Records(cells)) == FileEntries(prim, cells)
    decreases |cells|
  {
    if cells != [] {
      var n := |cells| - 1;
      RecordsPrefix(cells);
      ShadowHeads(cells[..n]);
      RecordEntries(cells[n]);
      LiveIsFileEntries(prim, cells[..n]);
      FileEntriesStep(prim, cells, n, Heads(cells[..n]));
    }
  }

  /** Columns before the last one do not change when a cell is added. */
  lemma {:induction false} EarlierColumn(cells: seq<Placed>, n: nat, j: nat)
    requires |cells| == n + 1 && j < |Heads(cells[..n])|
    requires j + 1 < |Heads(cells[..n])| || cells[n].mc.xtra.None?
    ensures Columns(cells)[j] == Columns(cells[..n])[j]
  {
    SliceStays(cells, n, Heads(cells)[j], ColumnEnd(cells, j));
  }

  /** A cell without SHADOW record goes on with the last column. */
  lemma {:induction false} LastColumn(cells: seq<Placed>, n: nat, j: nat)
    requires |cells| == n + 1 && cells[n].mc.xtra.Some? && |Heads(cells[..n])| == j + 1
    ensures Columns(cells)[j] == Columns(cells[..n])[j] + Entries(cells[n])
  {
    SliceGrows(cells, n, Heads(cells[..n])[j]);
  }

  lemma {:induction false} NewColumn(cells: seq<Placed>, n: nat)
    requires |cells| == n + 1 && cells[n].mc.xtra.None?
    ensures Columns(cells)[|Heads(cells)| - 1] == Entries(cells[n])
  {
    SliceGrows(cells, n, n);
    assert cells[..n][n..n] == [];
  }

  lemma {:induction false} ColumnsStep(cells: seq<Placed>, n: nat)
    requires |cells| == n + 1
    ensures Columns(cells) == if cells[n].mc.xtra.None? then Columns(cells[..n]) + [Entries(cells[n])]
                              else ExtendedLast(Columns(cells[..n]), Entries(cells[n]))
  {
    var before := Columns(cells[..n]);
    forall j | 0 <= j < |before| && (j + 1 < |before| || cells[n].mc.xtra.None?)
      ensures Columns(cells)[j] == before[j]
    {
      EarlierColumn(cells, n, j);
    }
    if cells[n].mc.xtra.None? {
      NewColumn(cells, n);
    } else if before != [] {
      LastColumn(cells, n, |before| - 1);
    }
  }

  lemma {:induction false} GroupsAreColumns(cells: seq<Placed>)
    ensures Groups(Records(cells)) == Columns(cells)
    decreases |cells|
  {
    if cells != [] {
      var n := |cells| - 1;
      RecordsPrefix(cells);
      RecordEntries(cells[n]);
      GroupsAreColumns(cells[..n]);
      ColumnsStep(cells, n);
    }
  }

  // ---- the map of an mcell ----

  /** The mcell has an extent record, with this chain behind it. */
  predicate HasChain(bmt: Bmt, dom: bool, primVd: uint32, pg: BmtPage, cell: uint32, xr: XtntRec, cells: seq<Placed>,
                     err: Option<Errno>)
  {
    && cell < 28 && pg[cell].xtnt == Some(xr) && xr.dataSz >= 76
    && IsChain(bmt, dom, if dom && xr.chainVd != 0 then xr.chainVd else primVd, xr.chainMcid, cells, err)
  }

  predicate Striped(dom: bool, xr: XtntRec, cells: seq<Placed>) {
    dom && xr.mapType == 2 && |Columns(cells)| >= 2
  }

  lemma {:induction false} PrimaryIsTagged(xr: XtntRec, vd: uint32)
    ensures Tag(Clamped(xr.xtnts, xr.xCnt), vd) == PrimaryEntries(xr, vd)
  {
  }

  /** The map an mcell yields: for a striped file of two or more columns their interleaving,
      otherwise the file's entries in chain order, each on the volume of its own cell. */
  lemma {:induction false} MapOfCellLists(bmt: Bmt, dom: bool, primVd: uint32, pg: BmtPage, cell: uint32,
                                          xr: XtntRec, cells: seq<Placed>, err: Option<Errno>)
    requires HasChain(bmt, dom, primVd, pg, cell, xr, cells, err) && MapOfCell(bmt, dom, primVd, pg, cell).Ok?
    ensures err == None
    ensures var flat := MapOfCell(bmt, dom, primVd, pg, cell).value;
            if Striped(dom, xr, cells) then
              var s := Stripe(Columns(cells), xr.segmentSize);
              s.Valid() && Total(s) <= UINT32_MAX && flat == FlatMap(s, Total(s))
            else flat == FileEntries(PrimaryEntries(xr, primVd), cells)
  {
    FollowLists(bmt, dom, NextVd(dom, primVd, xr.chainVd), xr.chainMcid, cells, err);
    MapOfCellMeaning(bmt, dom, primVd, pg, cell);
    PrimaryIsTagged(xr, primVd);
    GroupsAreColumns(cells);
    LiveIsFileEntries(PrimaryEntries(xr, primVd), cells);
  }

  // ---- when an mcell has a map ----

  /** Some records are no more than the scratch array and the column table hold. */
  predicate Fits(prim: seq<Extent>, recs: seq<ChainRec>, isStripe: bool) {
    |Live(prim, recs)| <= 32768 && (isStripe ==> |Groups(recs)| <= 16)
  }

  lemma {:induction false} LiveStep(prim: seq<Extent>, recs: seq<ChainRec>, rec: ChainRec)
    ensures Live(prim, recs + [rec])
            == (if rec.Shadow? && !HasShadow(recs) then [] else Live(prim, recs)) + RecEntries(rec)
    ensures |Groups(recs + [rec])| == |Groups(recs)| + (if rec.Shadow? then 1 else 0)
  {
    assert (recs + [rec])[..|recs|] == recs;
  }

  /** A record is added exactly if it fits. */
  lemma {:induction false} RecordFits(prim: seq<Extent>, recs: seq<ChainRec>, st: Scratch, rec: ChainRec,
                                      isStripe: bool)
    requires Collected(prim, recs, st) && Fits(prim, recs, isStripe)
    ensures AddRecord(st, rec, isStripe).Ok? <==> Fits(prim, recs + [rec], isStripe)
  {
    LiveStep(prim, recs, rec);
  }

  lemma {:induction false} AddAllStep(st: Scratch, recs: seq<ChainRec>, rec: ChainRec, isStripe: bool)
    ensures var r := AddAll(st, recs, isStripe);
            AddAll(st, recs + [rec], isStripe) == if r.Err? then r else AddRecord(r.value, rec, isStripe)
    decreases |recs|
  {
    if recs == [] {
      assert ([] + [rec])[1..] == [];
    } else {
      assert (recs + [rec])[0] == recs[0] && (recs + [rec])[1..] == recs[1..] + [rec];
      if AddRecord(st, recs[0], isStripe).Ok? {
        AddAllStep(AddRecord(st, recs[0], isStripe).value, recs[1..], rec, isStripe);
      }
    }
  }

  lemma {:induction false} RecordsFitStep(prim: seq<Extent>, recs: seq<ChainRec>, rec: ChainRec, isStripe: bool)
    requires AddAll(Scratch(prim, [], false), recs, isStripe).Ok? ==> Fits(prim, recs, isStripe)
    ensures AddAll(Scratch(prim, [], false), recs + [rec], isStripe).Ok?
            <==> AddAll(Scratch(prim, [], false), recs, isStripe).Ok? && Fits(prim, recs + [rec], isStripe)
  {
    var st := Scratch(prim, [], false);
    AddAllStep(st, recs, rec, isStripe);
    if AddAll(st, recs, isStripe).Ok? {
      CollectedAlong(prim, [], st, recs, isStripe);
      assert [] + recs == recs;
      RecordFits(prim, recs, AddAll(st, recs, isStripe).value, rec, isStripe);
    }
  }

  /** A file's entries and columns are no more than the walk can hold. */
  predicate CellsFit(prim: seq<Extent>, cells: seq<Placed>, isStripe: bool) {
    |FileEntries(prim, cells)| <= 32768 && (isStripe ==> |Columns(cells)| <= 16)
  }

  /** Nor do those of the chain up to any earlier cell. */
  predicate AlwaysFit(prim: seq<Extent>, cells: seq<Placed>, isStripe: bool) {
    && CellsFit(prim, cells, isStripe)
    && (cells != [] ==> AlwaysFit(prim, cells[..|cells| - 1], isStripe))
  }

  lemma {:induction false} FitsInCells(prim: seq<Extent>, cells: seq<Placed>, isStripe: bool)
    ensures Fits(prim, Records(cells), isStripe) <==> CellsFit(prim, cells, isStripe)
  {
    LiveIsFileEntries(prim, cells);
    GroupsAreColumns(cells);
  }

  lemma {:induction false} OneMoreFits(prim: seq<Extent>, cells: seq<Placed>, p: Placed, isStripe: bool)
    requires AddAll(Scratch(prim, [], false), Records(cells), isStripe).Ok? ==> CellsFit(prim, cells, isStripe)
    ensures AddAll(Scratch(prim, [], false), Records(cells + [p]), isStripe).Ok?
            <==> AddAll(Scratch(prim, [], false), Records(cells), isStripe).Ok?
                 && CellsFit(prim, cells + [p], isStripe)
  {
    assert Records(cells + [p]) == Records(cells) + [RecordOf(p)];
    FitsInCells(prim, cells, isStripe);
    FitsInCells(prim, cells + [p], isStripe);
    RecordsFitStep(prim, Records(cells), RecordOf(p), isStripe);
  }

  lemma {:induction false} NoCellsFit(prim: seq<Extent>, cells: seq<Placed>, isStripe: bool)
    requires |prim| <= 2 && cells == []
    ensures CellsFit(prim, cells, isStripe) && Records(cells) == []
  {
    assert FileEntries(prim, cells) == prim;
  }

  /** Collecting succeeds exactly if entries and columns fit all along the chain. */
  lemma {:induction false} CollectsExactly(prim: seq<Extent>, cells: seq<Placed>, isStripe: bool)
    requires |prim| <= 2
    ensures AddAll(Scratch(prim, [], false), Records(cells), isStripe).Ok? <==> AlwaysFit(prim, cells, isStripe)
    decreases |cells|
  {
    if cells == [] {
      NoCellsFit(prim, cells, isStripe);
    } else {
      var n := |cells| - 1;
      CollectsExactly(prim, cells[..n], isStripe);
      assert cells[..n] + [cells[n]] == cells;
      OneMoreFits(prim, cells[..n], cells[n], isStripe);
    }
  }

  /** Columns collected without error make a striped map, or too large a file. */
  lemma {:induction false} CollectedColumns(prim: seq<Extent>, cells: seq<Placed>, seg: uint32)
    requires AddAll(Scratch(prim, [], false), Records(cells), true).Ok? && CellsFit(prim, cells, true)
    ensures var st := AddAll(Scratch(prim, [], false), Records(cells), true).value;
            && (|st.colStart| >= 2 <==> |Columns(cells)| >= 2)
            && (|st.colStart| >= 2 ==>
                  match StripedMap(st, seg)
                  case Err(e) => e == (if seg == 0 then EILSEQ else ERANGE)
                                 && (seg > 0 ==> Total(Stripe(Columns(cells), seg)) > UINT32_MAX)
                  case Ok(_) => seg > 0 && Total(Stripe(Columns(cells), seg)) <= UINT32_MAX)
  {
    var st := AddAll(Scratch(prim, [], false), Records(cells), true).value;
    GatheredIsCollected(prim, Walk(Records(cells), None), true);
    GroupsAreColumns(cells);
    if |st.colStart| >= 2 && seg > 0 {
      StripedMapOfGroups(prim, Records(cells), st, seg);
    }
  }

  /** What is made of what the chain's cells have collected. */
  lemma {:induction false} MapOfCollected(bmt: Bmt, dom: bool, primVd: uint32, pg: BmtPage, cell: uint32,
                                          xr: XtntRec, cells: seq<Placed>, err: Option<Errno>, all: Result<Scratch>)
    requires HasChain(bmt, dom, primVd, pg, cell, xr, cells, err)
    requires all == AddAll(Scratch(PrimaryEntries(xr, primVd), [], false), Records(cells), dom && xr.mapType == 2)
    ensures MapOfCell(bmt, dom, primVd, pg, cell)
            == if all.Err? then Err(all.errno) else if err.Some? then Err(err.value)
               else if dom && xr.mapType == 2 && |all.value.colStart| >= 2 then StripedMap(all.value, xr.segmentSize)
               else Ok(all.value.raw)
  {
    FollowLists(bmt, dom, NextVd(dom, primVd, xr.chainVd), xr.chainMcid, cells, err);
    PrimaryIsTagged(xr, primVd);
  }

  /** An mcell with this extent record and chain has a map exactly if the chain ends without
      error, its entries and columns fit all along, and a striped file has a segment size and
      no more pages than 32 bits count. */
  lemma {:induction false} HasMapExactly(bmt: Bmt, dom: bool, primVd: uint32, pg: BmtPage, cell: uint32,
                                         xr: XtntRec, cells: seq<Placed>, err: Option<Errno>)
    requires HasChain(bmt, dom, primVd, pg, cell, xr, cells, err)
    ensures MapOfCell(bmt, dom, primVd, pg, cell).Ok?
            <==> && err == None && AlwaysFit(PrimaryEntries(xr, primVd), cells, dom && xr.mapType == 2)
                 && (Striped(dom, xr, cells) ==>
                       xr.segmentSize > 0 && Total(Stripe(Columns(cells), xr.segmentSize)) <= UINT32_MAX)
  {
    var prim, isStripe := PrimaryEntries(xr, primVd), dom && xr.mapType == 2;
    var all := AddAll(Scratch(prim, [], false), Records(cells), isStripe);
    MapOfCollected(bmt, dom, primVd, pg, cell, xr, cells, err, all);
    CollectsExactly(prim, cells, isStripe);
    if isStripe && all.Ok? {
      CollectedColumns(prim, cells, xr.segmentSize);
    }
  }

  /** Why an mcell with such a chain has no map. */
  lemma {:induction false} NoMapBecause(bmt: Bmt, dom: bool, primVd: uint32, pg: BmtPage, cell: uint32,
                                        xr: XtntRec, cells: seq<Placed>, err: Option<Errno>)
    requires HasChain(bmt, dom, primVd, pg, cell, xr, cells, err)
    requires AlwaysFit(PrimaryEntries(xr, primVd), cells, dom && xr.mapType == 2)
    requires MapOfCell(bmt, dom, primVd, pg, cell).Err?
    ensures MapOfCell(bmt, dom, primVd, pg, cell).errno
            == if err.Some? then err.value else if xr.segmentSize == 0 then EILSEQ else ERANGE
  {
    var prim, isStripe := PrimaryEntries(xr, primVd), dom && xr.mapType == 2;
    var all := AddAll(Scratch(prim, [], false), Records(cells), isStripe);
    MapOfCollected(bmt, dom, primVd, pg, cell, xr, cells, err, all);
    CollectsExactly(prim, cells, isStripe);
    if isStripe {
      CollectedColumns(prim, cells, xr.segmentSize);
    }
  }
}
