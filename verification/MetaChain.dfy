/** What the metadata bootstrap collects, as a list of chain cells (src/domain.c). */
module MetaChain {
  import opened Ods
  import Boundary
  import opened Util
  import opened Metadata
  import opened Bootstrap
  import opened Domain

  // ---- a chain as a list of cells ----

  /** Primary descriptors and those of the cells, in order. */
  function Listed(prim: seq<Xtnt>, cells: seq<Mcell>): seq<Xtnt> {
    if cells == [] then prim else Listed(prim, cells[..|cells| - 1]) + Descriptors(cells[|cells| - 1])
  }

  /** As many as a map holds. */
  function Fitting(xs: seq<Xtnt>): (r: seq<Xtnt>)
    ensures |r| <= MAX_BMT_EXTENTS
  {
    xs[..Min(|xs|, 4096)]
  }

  /** The link to cell k. */
  function LinkTo(first: McellId, cells: seq<Mcell>, k: nat): McellId
    requires k <= |cells|
  {
    if k == 0 then first else cells[k - 1].nextMcid
  }

  /** The map through which cell k is located: the caller's, or what came before. */
  function MapBefore(fixed: Option<seq<Xtnt>>, prim: seq<Xtnt>, cells: seq<Mcell>, k: nat): seq<Xtnt>
    requires k <= |cells|
  {
    if fixed.Some? then fixed.value else Fitting(Listed(prim, cells[..k]))
  }

  /** The page a link names can be located and read. */
  predicate PageRead(vol: MetaVolume, through: seq<Xtnt>, id: McellId) {
    Resolve(through, id / 32).Ok? && vol(Resolve(through, id / 32).value).Ok?
  }

  /** The link leads to this overflow mcell. */
  predicate LeadsToCell(vol: MetaVolume, through: seq<Xtnt>, id: McellId, mc: Mcell) {
    && id != 0 && PageRead(vol, through, id) && id % 32 < 28
    && mc == vol(Resolve(through, id / 32).value).value[id % 32] && HasOverflow(mc)
  }

  /** The link is nil, its page cannot be read, or the cell is out of range or has neither
      overflow record. */
  predicate LeadsNowhere(vol: MetaVolume, through: seq<Xtnt>, id: McellId) {
    || id == 0 || !PageRead(vol, through, id) || id % 32 >= 28
    || !HasOverflow(vol(Resolve(through, id / 32).value).value[id % 32])
  }

  predicate Linked(vol: MetaVolume, fixed: Option<seq<Xtnt>>, prim: seq<Xtnt>, first: McellId, cells: seq<Mcell>,
                   k: nat)
    requires k < |cells|
  {
    LeadsToCell(vol, MapBefore(fixed, prim, cells, k), LinkTo(first, cells, k), cells[k])
  }

  /** The chain cells in order, each the one its predecessor links to, up to where the chain
      leads nowhere or has 64 cells. */
  predicate IsChain(vol: MetaVolume, fixed: Option<seq<Xtnt>>, prim: seq<Xtnt>, first: McellId, cells: seq<Mcell>) {
    && |cells| <= 64
    && (forall k :: 0 <= k < |cells| ==> Linked(vol, fixed, prim, first, cells, k))
    && (|cells| == 64
        || LeadsNowhere(vol, MapBefore(fixed, prim, cells, |cells|), LinkTo(first, cells, |cells|)))
  }

  // ---- the bootstrap collects it ----

  lemma {:induction false} FittingExtends(a: seq<Xtnt>, b: seq<Xtnt>)
    ensures Extend(Fitting(a), b) == Fitting(a + b)
  {
  }

  lemma {:induction false} ListedStep(prim: seq<Xtnt>, cells: seq<Mcell>, k: nat)
    requires k < |cells|
    ensures Listed(prim, cells[..k + 1]) == Listed(prim, cells[..k]) + Descriptors(cells[k])
  {
    assert cells[..k + 1][..k] == cells[..k] && cells[..k + 1][k] == cells[k];
  }

  lemma {:induction false} BuildTakesCell(vol: MetaVolume, fixed: Option<seq<Xtnt>>, xs: seq<Xtnt>, id: McellId,
                                          mc: Mcell, hops: nat)
    requires |xs| <= MAX_BMT_EXTENTS && hops < MAX_META_HOPS && LeadsToCell(vol, fixed.GetOr(xs), id, mc)
    ensures Build(vol, fixed, xs, id, hops).entries
            == Build(vol, fixed, Extend(xs, Descriptors(mc)), mc.nextMcid, hops + 1).entries
  {
    assert Step(vol, fixed, xs, id) == Some((Extend(xs, Descriptors(mc)), mc.nextMcid));
  }

  lemma {:induction false} BuildEnds(vol: MetaVolume, fixed: Option<seq<Xtnt>>, xs: seq<Xtnt>, id: McellId, hops: nat)
    requires |xs| <= MAX_BMT_EXTENTS && hops <= MAX_META_HOPS
    requires hops == MAX_META_HOPS || LeadsNowhere(vol, fixed.GetOr(xs), id)
    ensures Build(vol, fixed, xs, id, hops).entries == xs
  {
  }

  /** The walk at cell k. */
  lemma {:induction false} ListedCell(vol: MetaVolume, fixed: Option<seq<Xtnt>>, prim: seq<Xtnt>, first: McellId,
                                      cells: seq<Mcell>, k: nat, xs: seq<Xtnt>, next: seq<Xtnt>)
    requires k < |cells| <= 64 && Linked(vol, fixed, prim, first, cells, k)
    requires xs == Fitting(Listed(prim, cells[..k])) && next == Fitting(Listed(prim, cells[..k + 1]))
    ensures Build(vol, fixed, xs, LinkTo(first, cells, k), k).entries
            == Build(vol, fixed, next, LinkTo(first, cells, k + 1), k + 1).entries
  {
    BuildTakesCell(vol, fixed, xs, LinkTo(first, cells, k), cells[k], k);
    ListedStep(prim, cells, k);
    FittingExtends(Listed(prim, cells[..k]), Descriptors(cells[k]));
  }

  /** From cell k on, the walk collects the rest of the list. */
  lemma {:induction false} BuildIsListed(vol: MetaVolume, fixed: Option<seq<Xtnt>>, prim: seq<Xtnt>, first: McellId,
                                         cells: seq<Mcell>, k: nat, xs: seq<Xtnt>)
    requires IsChain(vol, fixed, prim, first, cells) && k <= |cells| && xs == Fitting(Listed(prim, cells[..k]))
    ensures Build(vol, fixed, xs, LinkTo(first, cells, k), k).entries == Fitting(Listed(prim, cells))
    decreases |cells| - k
  {
    if k == |cells| {
      assert cells[..k] == cells;
      BuildEnds(vol, fixed, xs, LinkTo(first, cells, k), k);
    } else {
      assert Linked(vol, fixed, prim, first, cells, k);
      var next := Fitting(Listed(prim, cells[..k + 1]));
      ListedCell(vol, fixed, prim, first, cells, k, xs, next);
      BuildIsListed(vol, fixed, prim, first, cells, k + 1, next);
    }
  }

  /** A metadata file has these chain cells and this map: the primary descriptors and those
      of the cells, in order, as many as fit. */
  predicate HasMap(vol: MetaVolume, pg0: BmtPage, cellIdx: uint32, fixed: Option<seq<Xtnt>>, cells: seq<Mcell>,
                   entries: seq<Xtnt>)
  {
    && cellIdx < 28 && pg0[cellIdx].xtnt.Some? && pg0[cellIdx].xtnt.value.dataSz >= 76
    && var xr := pg0[cellIdx].xtnt.value;
    && IsChain(vol, fixed, xr.xtnts[..Min(xr.xCnt, 2)], xr.chainMcid, cells)
    && entries == Fitting(Listed(xr.xtnts[..Min(xr.xCnt, 2)], cells))
  }

  /** The bootstrap builds that map: XTRA and SHADOW records alike, through the caller's map
      or through what it has built so far. */
  lemma {:induction false} MetaMapLists(vol: MetaVolume, pg0: BmtPage, cellIdx: uint32, fixed: Option<seq<Xtnt>>,
                                        cells: seq<Mcell>, entries: seq<Xtnt>)
    requires HasMap(vol, pg0, cellIdx, fixed, cells, entries)
    ensures MetaError(pg0, cellIdx) == None && MetaMap(vol, pg0, cellIdx, fixed).entries == entries
  {
    var xr := pg0[cellIdx].xtnt.value;
    var prim := xr.xtnts[..Min(xr.xCnt, 2)];
    assert cells[..0] == [];
    BuildIsListed(vol, fixed, prim, xr.chainMcid, cells, 0, Fitting(prim));
    assert Fitting(prim) == prim == Extend([], prim);
  }

  lemma {:induction false} PrefixLinked(vol: MetaVolume, fixed: Option<seq<Xtnt>>, prim: seq<Xtnt>, first: McellId,
                                        cells: seq<Mcell>, mc: Mcell, k: nat)
    requires k < |cells| && Linked(vol, fixed, prim, first, cells, k)
    ensures Linked(vol, fixed, prim, first, cells + [mc], k)
  {
    assert (cells + [mc])[..k] == cells[..k];
  }

  /** Some cells of a chain, continued to its end. */
  lemma {:induction false} ChainFrom(vol: MetaVolume, fixed: Option<seq<Xtnt>>, prim: seq<Xtnt>, first: McellId,
                                     cells: seq<Mcell>)
      returns (full: seq<Mcell>)
    requires |cells| <= 64 && forall k :: 0 <= k < |cells| ==> Linked(vol, fixed, prim, first, cells, k)
    ensures IsChain(vol, fixed, prim, first, full)
    decreases 64 - |cells|
  {
    var n := |cells|;
    var through, id := MapBefore(fixed, prim, cells, n), LinkTo(first, cells, n);
    if n == 64 || LeadsNowhere(vol, through, id) {
      return cells;
    }
    var mc := vol(Resolve(through, id / 32).value).value[id % 32];
    forall k | 0 <= k < n ensures Linked(vol, fixed, prim, first, cells + [mc], k) {
      PrefixLinked(vol, fixed, prim, first, cells, mc, k);
    }
    assert (cells + [mc])[..n] == cells[..n];
    full := ChainFrom(vol, fixed, prim, first, cells + [mc]);
  }

  /** Every bootstrap that succeeds has such a chain and no other map. */
  lemma {:induction false} MetaMapHasChain(vol: MetaVolume, pg0: BmtPage, cellIdx: uint32, fixed: Option<seq<Xtnt>>)
      returns (cells: seq<Mcell>)
    requires MetaError(pg0, cellIdx) == None
    ensures HasMap(vol, pg0, cellIdx, fixed, cells, MetaMap(vol, pg0, cellIdx, fixed).entries)
  {
    var xr := pg0[cellIdx].xtnt.value;
    var prim := xr.xtnts[..Min(xr.xCnt, 2)];
    cells := ChainFrom(vol, fixed, prim, xr.chainMcid, []);
    MetaMapLists(vol, pg0, cellIdx, fixed, cells, Fitting(Listed(prim, cells)));
  }

  // ---- a volume's BMT map ----

  /** Before version 4 the BMT is cell 0 and is read through itself; from version 4 on it is
      cell 4, and its chain lies in the RBMT, which is cell 0. */
  lemma {:induction false} VolumeMapLists(v: Volume, pg0: BmtPage, version: nat, own: seq<Mcell>, ownMap: seq<Xtnt>,
                                          bmt: seq<Mcell>, bmtMap: seq<Xtnt>)
    requires HasMap(v.meta, pg0, 0, None, own, ownMap)
    requires version >= 4 ==> HasMap(v.meta, pg0, 4, Some(ownMap), bmt, bmtMap)
    ensures VolumeMap(v, pg0, version) == Ok(if version < 4 then ownMap else bmtMap)
  {
    MetaMapLists(v.meta, pg0, 0, None, own, ownMap);
    if version >= 4 {
      MetaMapLists(v.meta, pg0, 4, Some(ownMap), bmt, bmtMap);
    }
  }

  // ---- a version 3 volume with a SHADOW record ----

  /** Metadata page 0: the BMT's primary record in cell 0, its overflow in cell 1. */
  function ShadowPage(): BmtPage {
    seq(BSPG_CELLS, i => ShadowCell(i))
  }

  function ShadowCell(i: int): Mcell {
    if i == 0 then Mcell(Some(ShadowPrimary()), None, None, 0, 0)
    else if i == 1 then Mcell(None, None, Some(ShadowOverflow()), 0, 0)
    else EMPTY_MCELL
  }

  function ShadowPrimary(): XtntRec {
    XtntRec(XTNT_REC_SZ, 0, 0, 1, 0, 2, [Xtnt(0, 32), Xtnt(1, XTNT_TERM)])
  }

  function ShadowOverflow(): ShadowRec {
    ShadowRec(256, 2, [Xtnt(1, 160), Xtnt(5, XTNT_TERM)] + seq(29, _ => Xtnt(0, 0)))
  }

  /** Its BMT map goes on with the SHADOW record's descriptors. */
  lemma {:induction false} ShadowOverflowIsCollected(vol: MetaVolume, pg0: BmtPage)
    requires pg0 == ShadowPage() && vol(2) == Ok(pg0)
    ensures MetaError(pg0, 0) == None
    ensures MetaMap(vol, pg0, 0, None).entries
            == [Xtnt(0, 32), Xtnt(1, XTNT_TERM), Xtnt(1, 160), Xtnt(5, XTNT_TERM)]
  {
    var prim, mc := [Xtnt(0, 32), Xtnt(1, XTNT_TERM)], pg0[1];
    var more := [Xtnt(1, 160), Xtnt(5, XTNT_TERM)];
    FirstPage(prim);
    assert ShadowOverflow().xtnts[..2] == more;
    OneShadowCell(vol, pg0, prim, mc, more, [mc]);
    MetaMapLists(vol, pg0, 0, None, [mc], prim + more);
  }

  lemma {:induction false} FirstPage(prim: seq<Xtnt>)
    requires prim == [Xtnt(0, 32), Xtnt(1, XTNT_TERM)]
    ensures Resolve(prim, 0) == Ok(2)
  {
    Boundary.FirstCoverIs(XStarts(prim), 0, 0);
  }

  lemma {:induction false} OneShadowCell(vol: MetaVolume, pg0: BmtPage, prim: seq<Xtnt>, mc: Mcell, more: seq<Xtnt>,
                                         cells: seq<Mcell>)
    requires pg0 == ShadowPage() && vol(2) == Ok(pg0) && mc == pg0[1] && cells == [mc]
    requires prim == ShadowPrimary().xtnts && Resolve(prim, 0) == Ok(2)
    requires |more| == 2 && Descriptors(mc) == more
    ensures HasMap(vol, pg0, 0, None, cells, prim + more)
  {
    assert cells[..0] == [] && prim[..2] == prim && Fitting(prim) == prim;
    assert Linked(vol, None, prim, 1, cells, 0);
    assert LinkTo(1, cells, 1) == 0;
  }
}
