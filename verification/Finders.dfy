/** Three independent searches for the mcell that holds BSR_XTNTS: for
    directories (src/dir.c), for files (src/filedata.c) and for fileset tag
    directories (src/fileset.c). */
module Finders {
  import opened Ods
  import opened Metadata
  import opened Runs
  import opened Chain
  import opened ChainMeaning

  const MAX_XTNTS_HOPS: nat := 16

  /** An mcell, and how many further hops the search may still take from it. */
  datatype Loc = Loc(vd: uint32, page: uint32, cell: uint32, left: nat)

  function NextLoc(mc: Mcell, at: Loc): Loc
    requires at.left > 0
  {
    Loc(NextVd(true, at.vd, mc.nextVd), McidPage(mc.nextMcid), McidCell(mc.nextMcid), at.left - 1)
  }

  /** The first mcell with BSR_XTNTS among this one and `left` more of its chain. */
  function FindCell(bmt: Bmt, at: Loc): Result<Loc>
    decreases at.left
  {
    match bmt(at.vd, at.page)
    case Err(e) => Err(e)
    case Ok(pg) =>
      if at.cell >= BSPG_CELLS then Err(EINVAL)
      else if pg[at.cell].xtnt.Some? then Ok(at)
      else if pg[at.cell].nextMcid == 0 || at.left == 0 then Err(ENODATA)
      else FindCell(bmt, NextLoc(pg[at.cell], at))
  }

  /** advfs_extents_read_dom: the extent map of the mcell at a location; volume
      index 0 is replaced by the primary volume's own index. */
  ghost function MapAt(bmt: Bmt, primary: uint32, at: Loc): Result<seq<Extent>> {
    match bmt(at.vd, at.page)
    case Err(e) => Err(e)
    case Ok(pg) => MapOfCell(bmt, true, if at.vd == 0 then primary else at.vd, pg, at.cell)
  }

  method ExtentsReadDom(bmt: Bmt, primary: uint32, vd: uint32, page: uint32, cell: uint32,
                        out: array<Extent>, max: nat)
      returns (err: Option<Errno>, count: nat)
    requires max <= out.Length
    modifies out
    ensures max == 0 ==> err == Some(EINVAL)
    ensures max > 0 ==> Delivers(MapAt(bmt, primary, Loc(vd, page, cell, 0)), max, out[..], err, count)
  {
    if max == 0 {
      return Some(EINVAL), 0;
    }
    var pg := bmt(vd, page);
    if pg.Err? {
      return Some(pg.errno), 0;
    }
    err, count := ExtentsReadCore(bmt, true, if vd == 0 then primary else vd, pg.value, cell, out, max);
  }

  /** The caller receives the map, or its error. */
  ghost predicate Delivers(m: Result<seq<Extent>>, max: nat, out: seq<Extent>, err: Option<Errno>, count: nat) {
    match m
    case Err(e) => err == Some(e)
    case Ok(flat) => Written(flat, max, out, err, count)
  }

  // ---- directories ----

  /** find_xtnts_mcell. */
  method FindXtntsMcell(bmt: Bmt, vd: uint32, page: uint32, cell: uint32) returns (r: Result<Loc>)
    ensures r == FindCell(bmt, Loc(vd, page, cell, MAX_XTNTS_HOPS))
  {
    var pg := bmt(vd, page);
    if pg.Err? {
      return Err(pg.errno);
    }
    if cell >= BSPG_CELLS {
      return Err(EINVAL);
    }
    var mc := pg.value[cell];
    if mc.xtnt.Some? {
      return Ok(Loc(vd, page, cell, MAX_XTNTS_HOPS));
    }
    var next := mc.nextMcid;
    var nextVd: uint32 := if mc.nextVd != 0 then mc.nextVd else vd;
    var hops := 0;
    while next != 0 && hops < MAX_XTNTS_HOPS
      invariant hops <= MAX_XTNTS_HOPS
      invariant FindCell(bmt, Loc(vd, page, cell, MAX_XTNTS_HOPS))
                == if next == 0 || hops == MAX_XTNTS_HOPS then Err(ENODATA)
                   else FindCell(bmt, Loc(nextVd, McidPage(next), McidCell(next), MAX_XTNTS_HOPS - hops - 1))
      decreases MAX_XTNTS_HOPS - hops
    {
      var at := Loc(nextVd, McidPage(next), McidCell(next), MAX_XTNTS_HOPS - hops - 1);
      pg := bmt(at.vd, at.page);
      if pg.Err? {
        return Err(pg.errno);
      }
      if at.cell >= BSPG_CELLS {
        return Err(EINVAL);
      }
      mc := pg.value[at.cell];
      if mc.xtnt.Some? {
        return Ok(at);
      }
      next := mc.nextMcid;
      nextVd := if mc.nextVd != 0 then mc.nextVd else at.vd;
      hops := hops + 1;
    }
    return Err(ENODATA);
  }

  /** Search, then read: what directories and files do. */
  ghost function SearchThenRead(bmt: Bmt, primary: uint32, at: Loc): Result<seq<Extent>> {
    match FindCell(bmt, at)
    case Err(e) => Err(e)
    case Ok(loc) => MapAt(bmt, primary, loc.(left := 0))
  }

  /** The directory reader's two steps. */
  method DirExtents(bmt: Bmt, primary: uint32, vd: uint32, page: uint32, cell: uint32, out: array<Extent>, max: nat)
      returns (err: Option<Errno>, count: nat)
    requires 0 < max <= out.Length
    modifies out
    ensures Delivers(SearchThenRead(bmt, primary, Loc(vd, page, cell, MAX_XTNTS_HOPS)), max, out[..], err, count)
  {
    var loc := FindXtntsMcell(bmt, vd, page, cell);
    if loc.Err? {
      return Some(loc.errno), 0;
    }
    err, count := ExtentsReadDom(bmt, primary, loc.value.vd, loc.value.page, loc.value.cell, out, max);
  }

  // ---- files ----

  /** read_file_extents. */
  method ReadFileExtents(bmt: Bmt, primary: uint32, vd: uint32, page: uint32, cell: uint32, out: array<Extent>,
                         max: nat)
      returns (err: Option<Errno>, count: nat)
    requires 0 < max <= out.Length
    modifies out
    ensures Delivers(SearchThenRead(bmt, primary, Loc(vd, page, cell, MAX_XTNTS_HOPS)), max, out[..], err, count)
  {
    var at := Loc(vd, page, cell, MAX_XTNTS_HOPS);
    ghost var found := FindCell(bmt, at);
    var pg: Result<BmtPage> := bmt(at.vd, at.page);
    while pg.Ok? && at.cell < BSPG_CELLS && pg.value[at.cell].xtnt.None?
          && pg.value[at.cell].nextMcid != 0 && at.left > 0
      invariant pg == bmt(at.vd, at.page) && found == FindCell(bmt, at)
      decreases at.left
    {
      at := NextLoc(pg.value[at.cell], at);
      pg := bmt(at.vd, at.page);
    }
    if pg.Err? {
      return Some(pg.errno), 0;
    }
    if at.cell >= BSPG_CELLS {
      return Some(EINVAL), 0;
    }
    if pg.value[at.cell].xtnt.None? {
      return Some(ENODATA), 0;
    }
    err, count := ExtentsReadDom(bmt, primary, at.vd, at.page, at.cell, out, max);
  }

  // ---- filesets ----

  /** Read at every hop until something other than ENODATA comes back. */
  ghost function ReadUntilData(bmt: Bmt, primary: uint32, at: Loc): Result<seq<Extent>>
    decreases at.left
  {
    if MapAt(bmt, primary, at.(left := 0)) != Err(ENODATA) then MapAt(bmt, primary, at.(left := 0))
    else
      match bmt(at.vd, at.page)
      case Err(e) => Err(e)
      case Ok(pg) =>
        if pg[at.cell].nextMcid == 0 || at.left == 0 then Err(ENODATA)
        else ReadUntilData(bmt, primary, NextLoc(pg[at.cell], at))
  }

  /** read_extents_via_chain. */
  method ReadExtentsViaChain(bmt: Bmt, primary: uint32, vd: uint32, page: uint32, cell: uint32,
                             out: array<Extent>, max: nat)
      returns (err: Option<Errno>, count: nat)
    requires 0 < max <= out.Length
    modifies out
    ensures Delivers(ReadUntilData(bmt, primary, Loc(vd, page, cell, MAX_XTNTS_HOPS)), max, out[..], err, count)
  {
    var at := Loc(vd, page, cell, MAX_XTNTS_HOPS);
    ghost var wanted := ReadUntilData(bmt, primary, at);
    while true
      invariant wanted == ReadUntilData(bmt, primary, at)
      decreases at.left
    {
      err, count := ExtentsReadDom(bmt, primary, at.vd, at.page, at.cell, out, max);
      if err != Some(ENODATA) {
        return;
      }
      var pg := bmt(at.vd, at.page);
      if pg.Err? {
        return Some(pg.errno), 0;
      }
      var mc := pg.value[at.cell];
      if mc.nextMcid == 0 || at.left == 0 {
        return Some(ENODATA), 0;
      }
      at := NextLoc(mc, at);
    }
  }

  // ---- agreement ----

  /** The extent chain from here leads, through cells that hold overflow records, to a
      page read that reports ENODATA. */
  predicate ChainMeetsNoData(bmt: Bmt, vd: uint32, mcid: McellId, hops: nat)
    requires hops <= MAX_CHAIN_HOPS
    decreases MAX_CHAIN_HOPS - hops
  {
    mcid != 0 && hops < MAX_CHAIN_HOPS &&
    match bmt(vd, McidPage(mcid))
    case Err(e) => e == ENODATA
    case Ok(pg) =>
      && McidCell(mcid) < BSPG_CELLS
      && var mc := pg[McidCell(mcid)];
      && RecordIn(mc, vd).Ok? && RecordIn(mc, vd).value.Some?
      && ChainMeetsNoData(bmt, NextVd(true, vd, mc.nextVd), mc.nextMcid, hops + 1)
  }

  lemma {:induction false} FollowMeetsNoData(bmt: Bmt, vd: uint32, mcid: McellId, hops: nat)
    requires hops <= MAX_CHAIN_HOPS
    ensures Follow(bmt, true, vd, mcid, hops).err == Some(ENODATA) <==> ChainMeetsNoData(bmt, vd, mcid, hops)
    decreases MAX_CHAIN_HOPS - hops
  {
    if mcid != 0 && hops < MAX_CHAIN_HOPS && CellAt(bmt, vd, mcid).Ok? {
      var mc := CellAt(bmt, vd, mcid).value;
      FollowMeetsNoData(bmt, NextVd(true, vd, mc.nextVd), mc.nextMcid, hops + 1);
    }
  }

  lemma {:induction false} AddAllNeverNoData(st: Scratch, recs: seq<ChainRec>, isStripe: bool)
    ensures AddAll(st, recs, isStripe) != Err(ENODATA)
    decreases |recs|
  {
    if recs != [] && AddRecord(st, recs[0], isStripe).Ok? {
      AddAllNeverNoData(AddRecord(st, recs[0], isStripe).value, recs[1..], isStripe);
    }
  }

  /** The overflow records met fit the scratch array and the column table. */
  predicate RecordsFit(xr: XtntRec, primVd: uint32, recs: seq<ChainRec>) {
    AddAll(Scratch(Tag(Clamped(xr.xtnts, xr.xCnt), primVd), [], false), recs, xr.mapType == BSXMT_STRIPE).Ok?
  }

  /** The mcell has an extent record whose chain meets a page read reporting ENODATA,
      every record before it having been accepted. */
  predicate Broken(bmt: Bmt, primVd: uint32, mc: Mcell) {
    && mc.xtnt.Some? && mc.xtnt.value.dataSz >= XTNT_REC_SZ
    && var xr := mc.xtnt.value;
    && ChainMeetsNoData(bmt, NextVd(true, primVd, xr.chainVd), xr.chainMcid, 0)
    && RecordsFit(xr, primVd, WalkOf(bmt, true, primVd, xr).recs)
  }

  /** Exactly when reading an mcell's map reports ENODATA. */
  lemma {:induction false} NoDataExactly(bmt: Bmt, primVd: uint32, pg: BmtPage, cell: uint32)
    ensures MapOfCell(bmt, true, primVd, pg, cell) == Err(ENODATA)
            <==> cell < BSPG_CELLS && (pg[cell].xtnt.None? || Broken(bmt, primVd, pg[cell]))
  {
    if cell < BSPG_CELLS && pg[cell].xtnt.Some? && pg[cell].xtnt.value.dataSz >= XTNT_REC_SZ {
      var xr := pg[cell].xtnt.value;
      FollowMeetsNoData(bmt, NextVd(true, primVd, xr.chainVd), xr.chainMcid, 0);
      AddAllNeverNoData(Scratch(Tag(Clamped(xr.xtnts, xr.xCnt), primVd), [], false),
                        WalkOf(bmt, true, primVd, xr).recs, xr.mapType == BSXMT_STRIPE);
    }
  }

  function OwnVd(primary: uint32, vd: uint32): uint32 {
    if vd == 0 then primary else vd
  }

  /** From here on, the search that reads at every hop meets something other than
      ENODATA: an unreadable page, a bad cell, or a record that is not broken. */
  predicate MeetsOther(bmt: Bmt, primary: uint32, at: Loc)
    decreases at.left
  {
    match bmt(at.vd, at.page)
    case Err(e) => e != ENODATA
    case Ok(pg) =>
      at.cell >= BSPG_CELLS ||
      var mc := pg[at.cell];
      || (mc.xtnt.Some? && !Broken(bmt, OwnVd(primary, at.vd), mc))
      || (mc.nextMcid != 0 && at.left > 0 && MeetsOther(bmt, primary, NextLoc(mc, at)))
  }

  lemma {:induction false} ReadUntilDataMeets(bmt: Bmt, primary: uint32, at: Loc)
    ensures ReadUntilData(bmt, primary, at) != Err(ENODATA) <==> MeetsOther(bmt, primary, at)
    decreases at.left
  {
    if bmt(at.vd, at.page).Ok? {
      var pg := bmt(at.vd, at.page).value;
      NoDataExactly(bmt, OwnVd(primary, at.vd), pg, at.cell);
      if at.cell < BSPG_CELLS && pg[at.cell].nextMcid != 0 && at.left > 0 {
        ReadUntilDataMeets(bmt, primary, NextLoc(pg[at.cell], at));
      }
    }
  }

  /** The search that stops at the first record and the one that reads at every hop
      differ at this mcell. */
  predicate Differ(bmt: Bmt, primary: uint32, at: Loc)
    decreases at.left
  {
    match bmt(at.vd, at.page)
    case Err(_) => false
    case Ok(pg) =>
      && at.cell < BSPG_CELLS
      && var mc := pg[at.cell];
      && mc.nextMcid != 0 && at.left > 0
      && (if mc.xtnt.None? then Differ(bmt, primary, NextLoc(mc, at))
          else Broken(bmt, OwnVd(primary, at.vd), mc) && MeetsOther(bmt, primary, NextLoc(mc, at)))
  }

  /** The three finders agree on every mcell graph, cycles and cross-volume links
      included, except exactly when the first extent record is broken and its mcell's
      remaining links lead to something other than ENODATA. */
  lemma {:induction false} FindersAgreeExactly(bmt: Bmt, primary: uint32, at: Loc)
    ensures SearchThenRead(bmt, primary, at) == ReadUntilData(bmt, primary, at) <==> !Differ(bmt, primary, at)
    decreases at.left
  {
    if bmt(at.vd, at.page).Ok? && at.cell < BSPG_CELLS {
      var pg := bmt(at.vd, at.page).value;
      var mc := pg[at.cell];
      NoDataExactly(bmt, OwnVd(primary, at.vd), pg, at.cell);
      if mc.nextMcid != 0 && at.left > 0 {
        ReadUntilDataMeets(bmt, primary, NextLoc(mc, at));
        if mc.xtnt.None? {
          FindersAgreeExactly(bmt, primary, NextLoc(mc, at));
        }
      }
    }
  }

  /** Page reads never fail with ENODATA (the host may: a medium error). */
  ghost predicate NeverNoData(bmt: Bmt) {
    forall vd, page :: bmt(vd, page) != Err(ENODATA)
  }

  lemma {:induction false} ChainNeverMeetsNoData(bmt: Bmt, vd: uint32, mcid: McellId, hops: nat)
    requires NeverNoData(bmt) && hops <= MAX_CHAIN_HOPS
    ensures !ChainMeetsNoData(bmt, vd, mcid, hops)
    decreases MAX_CHAIN_HOPS - hops
  {
    if mcid != 0 && hops < MAX_CHAIN_HOPS {
      assert bmt(vd, McidPage(mcid)) != Err(ENODATA);
      if CellAt(bmt, vd, mcid).Ok? {
        var mc := CellAt(bmt, vd, mcid).value;
        ChainNeverMeetsNoData(bmt, NextVd(true, vd, mc.nextVd), mc.nextMcid, hops + 1);
      }
    }
  }

  lemma {:induction false} NeverBroken(bmt: Bmt, primVd: uint32, mc: Mcell)
    requires NeverNoData(bmt)
    ensures !Broken(bmt, primVd, mc)
  {
    if mc.xtnt.Some? {
      var xr := mc.xtnt.value;
      ChainNeverMeetsNoData(bmt, NextVd(true, primVd, xr.chainVd), xr.chainMcid, 0);
    }
  }

  lemma {:induction false} NeverDiffer(bmt: Bmt, primary: uint32, at: Loc)
    requires NeverNoData(bmt)
    ensures !Differ(bmt, primary, at)
    decreases at.left
  {
    if bmt(at.vd, at.page).Ok? && at.cell < BSPG_CELLS {
      var mc := bmt(at.vd, at.page).value[at.cell];
      NeverBroken(bmt, OwnVd(primary, at.vd), mc);
      if mc.nextMcid != 0 && at.left > 0 {
        NeverDiffer(bmt, primary, NextLoc(mc, at));
      }
    }
  }

  /** So with page reads that never report ENODATA, all three always agree: the
      same map, or the same error. */
  lemma {:induction false} FindersAgree(bmt: Bmt, primary: uint32, at: Loc)
    requires NeverNoData(bmt)
    ensures SearchThenRead(bmt, primary, at) == ReadUntilData(bmt, primary, at)
  {
    NeverDiffer(bmt, primary, at);
    FindersAgreeExactly(bmt, primary, at);
  }

  /** What the search locates: an mcell with an extent record, whose map is then read. */
  lemma {:induction false} FoundHasRecord(bmt: Bmt, primary: uint32, at: Loc)
    requires FindCell(bmt, at).Ok?
    ensures var loc := FindCell(bmt, at).value;
            && bmt(loc.vd, loc.page).Ok? && loc.cell < BSPG_CELLS
            && var pg := bmt(loc.vd, loc.page).value;
            && pg[loc.cell].xtnt.Some?
            && SearchThenRead(bmt, primary, at) == MapOfCell(bmt, true, OwnVd(primary, loc.vd), pg, loc.cell)
    decreases at.left
  {
    var pg := bmt(at.vd, at.page).value;
    if pg[at.cell].xtnt.None? {
      FoundHasRecord(bmt, primary, NextLoc(pg[at.cell], at));
    }
  }

  // ---- a disagreement ----

  function OneCell(mc: Mcell): BmtPage {
    seq(BSPG_CELLS, i => if i == 0 then mc else EMPTY_MCELL)
  }

  /** An extent record with one entry whose chain continues in page 9, in an mcell that
      links on to page 1. */
  function BrokenCell(): Mcell {
    Mcell(Some(XtntRec(XTNT_REC_SZ, 0, 0, 288, 0, 1, [Xtnt(0, 160), Xtnt(0, 0)])), None, None, 32, 0)
  }

  /** A complete record, at the end of the links. */
  function SoundCell(): Mcell {
    Mcell(Some(XtntRec(XTNT_REC_SZ, 0, 0, 0, 0, 2, [Xtnt(0, 320), Xtnt(1, XTNT_TERM)])), None, None, 0, 0)
  }

  /** Only pages 0 and 1 can be read. */
  function FailingMedium(): Bmt {
    (vd: uint32, page: uint32) =>
      if page == 0 then Ok(OneCell(BrokenCell())) else if page == 1 then Ok(OneCell(SoundCell())) else Err(ENODATA)
  }

  lemma {:induction false} BrokenCellIsBroken(bmt: Bmt, mc: Mcell)
    requires bmt == FailingMedium() && mc == BrokenCell()
    ensures Broken(bmt, 1, mc)
  {
    var xr := mc.xtnt.value;
    var w := WalkOf(bmt, true, 1, xr);
    assert bmt(1, McidPage(288)) == Err(ENODATA);
    assert w == Walk([], Some(ENODATA));
  }

  /** Directories and files report ENODATA where the fileset search finds a map. */
  lemma {:induction false} FindersDisagree(bmt: Bmt, at: Loc)
    requires bmt == FailingMedium() && at == Loc(1, 0, 0, MAX_XTNTS_HOPS)
    ensures SearchThenRead(bmt, 1, at) == Err(ENODATA)
    ensures ReadUntilData(bmt, 1, at).Ok?
  {
    var mc, next := BrokenCell(), NextLoc(BrokenCell(), at);
    assert bmt(at.vd, at.page) == Ok(OneCell(mc)) && bmt(next.vd, next.page) == Ok(OneCell(SoundCell()));
    BrokenCellIsBroken(bmt, mc);
    NoDataExactly(bmt, 1, OneCell(mc), 0);
    SoundMap(bmt, SoundCell());
  }

  lemma {:induction false} SoundMap(bmt: Bmt, mc: Mcell)
    requires mc == SoundCell()
    ensures MapOfCell(bmt, true, 1, OneCell(mc), 0).Ok?
  {
    var xr := mc.xtnt.value;
    assert WalkOf(bmt, true, 1, xr) == Walk([], None);
  }
}
