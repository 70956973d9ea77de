/** The chain of a file's overflow mcells as a list (src/extents.c). */
module ChainCells {
  import opened Ods
  import opened Metadata
  import opened Chain

  /** A chain cell and the volume it lies on. */
  datatype Placed = Placed(vd: uint32, mc: Mcell)

  /** The record it contributes: its own volume, and its XTRA or else its SHADOW descriptors. */
  function RecordOf(p: Placed): ChainRec {
    if p.mc.xtra.Some? then Xtra(p.vd, Descriptors(p.mc)) else Shadow(p.vd, Descriptors(p.mc))
  }

  function Records(cells: seq<Placed>): (recs: seq<ChainRec>)
    ensures |recs| == |cells|
    ensures forall k :: 0 <= k < |cells| ==> recs[k] == RecordOf(cells[k])
  {
    seq(|cells|, k requires 0 <= k < |cells| => RecordOf(cells[k]))
  }

  /** The mcell that a link to `id` on volume vd names. */
  predicate Names(bmt: Bmt, vd: uint32, id: McellId, mc: Mcell) {
    bmt(vd, id / 32).Ok? && id % 32 < 28 && bmt(vd, id / 32).value[id % 32] == mc
  }

  /** The record that decides is long enough. */
  predicate LongEnough(mc: Mcell) {
    if mc.xtra.Some? then mc.xtra.value.dataSz >= 4 else mc.shadow.Some? ==> mc.shadow.value.dataSz >= 8
  }

  /** The mcell id of the link to cell k. */
  function LinkTo(first: McellId, cells: seq<Placed>, k: nat): McellId
    requires k <= |cells|
  {
    if k == 0 then first else cells[k - 1].mc.nextMcid
  }

  /** Its volume: in a domain the one the link names, unless that is 0. */
  function LinkVd(dom: bool, vd: uint32, cells: seq<Placed>, k: nat): uint32
    requires k <= |cells|
  {
    if k == 0 then vd
    else if dom && cells[k - 1].mc.nextVd != 0 then cells[k - 1].mc.nextVd
    else cells[k - 1].vd
  }

  predicate Linked(bmt: Bmt, dom: bool, vd: uint32, first: McellId, cells: seq<Placed>, k: nat)
    requires k < |cells|
  {
    && LinkTo(first, cells, k) != 0 && cells[k].vd == LinkVd(dom, vd, cells, k)
    && Names(bmt, cells[k].vd, LinkTo(first, cells, k), cells[k].mc)
    && HasOverflow(cells[k].mc) && LongEnough(cells[k].mc)
  }

  /** Where a chain ends without error: at a nil link or a cell with neither record. */
  predicate EndsAt(bmt: Bmt, vd: uint32, id: McellId) {
    id == 0 || (bmt(vd, id / 32).Ok? && id % 32 < 28 && !HasOverflow(bmt(vd, id / 32).value[id % 32]))
  }

  /** Where it fails: at an unreadable page, a cell out of range or a record too short. */
  predicate FailsAt(bmt: Bmt, vd: uint32, id: McellId, e: Errno) {
    id != 0 &&
    match bmt(vd, id / 32)
    case Err(e') => e == e'
    case Ok(pg) => e == EILSEQ && (id % 32 >= 28 || !LongEnough(pg[id % 32]))
  }

  /** The chain from `first` on volume vd: each cell the one its predecessor links to, up to
      the end of the chain, its 512th cell, or the error that cuts it short. */
  predicate IsChain(bmt: Bmt, dom: bool, vd: uint32, first: McellId, cells: seq<Placed>, err: Option<Errno>) {
    var n := |cells|;
    && n <= 512
    && (forall k :: 0 <= k < n ==> Linked(bmt, dom, vd, first, cells, k))
    && match err
       case None => n == 512 || EndsAt(bmt, LinkVd(dom, vd, cells, n), LinkTo(first, cells, n))
       case Some(e) => n < 512 && FailsAt(bmt, LinkVd(dom, vd, cells, n), LinkTo(first, cells, n), e)
  }

  // ---- the walk follows it ----

  lemma {:induction false} FollowTakesCell(bmt: Bmt, dom: bool, vd: uint32, id: McellId, mc: Mcell, hops: nat)
    requires hops < MAX_CHAIN_HOPS && id != 0 && Names(bmt, vd, id, mc) && HasOverflow(mc) && LongEnough(mc)
    ensures var rest := Follow(bmt, dom, if dom && mc.nextVd != 0 then mc.nextVd else vd, mc.nextMcid, hops + 1);
            Follow(bmt, dom, vd, id, hops) == Walk([RecordOf(Placed(vd, mc))] + rest.recs, rest.err)
  {
  }

  lemma {:induction false} FollowStops(bmt: Bmt, dom: bool, vd: uint32, id: McellId, hops: nat, err: Option<Errno>)
    requires hops <= MAX_CHAIN_HOPS
    requires match err
             case None => hops == 512 || EndsAt(bmt, vd, id)
             case Some(e) => hops < 512 && FailsAt(bmt, vd, id, e)
    ensures Follow(bmt, dom, vd, id, hops) == Walk([], err)
  {
  }

  lemma {:induction false} RecordsStep(cells: seq<Placed>, k: nat)
    requires k < |cells|
    ensures [RecordOf(cells[k])] + Records(cells[k + 1..]) == Records(cells[k..])
  {
  }

  lemma {:induction false} FollowCell(bmt: Bmt, dom: bool, vd: uint32, first: McellId, cells: seq<Placed>, k: nat,
                                      rest: Walk)
    requires k < |cells| <= 512 && Linked(bmt, dom, vd, first, cells, k)
    requires rest == Follow(bmt, dom, LinkVd(dom, vd, cells, k + 1), LinkTo(first, cells, k + 1), k + 1)
    ensures Follow(bmt, dom, LinkVd(dom, vd, cells, k), LinkTo(first, cells, k), k)
            == Walk([RecordOf(cells[k])] + rest.recs, rest.err)
  {
    FollowTakesCell(bmt, dom, cells[k].vd, LinkTo(first, cells, k), cells[k].mc, k);
  }

  lemma {:induction false} FollowFrom(bmt: Bmt, dom: bool, vd: uint32, first: McellId, cells: seq<Placed>,
                                      err: Option<Errno>, k: nat)
      returns (w: Walk)
    requires IsChain(bmt, dom, vd, first, cells, err) && k <= |cells|
    ensures w == Follow(bmt, dom, LinkVd(dom, vd, cells, k), LinkTo(first, cells, k), k)
    ensures w == Walk(Records(cells[k..]), err)
    decreases |cells| - k
  {
    w := Follow(bmt, dom, LinkVd(dom, vd, cells, k), LinkTo(first, cells, k), k);
    if k == |cells| {
      FollowStops(bmt, dom, LinkVd(dom, vd, cells, k), LinkTo(first, cells, k), k, err);
    } else {
      var rest := FollowFrom(bmt, dom, vd, first, cells, err, k + 1);
      FollowCell(bmt, dom, vd, first, cells, k, rest);
      RecordsStep(cells, k);
    }
  }

  /** The walk yields the records of the chain's cells, each with the volume of its own cell,
      and the chain's error. */
  lemma {:induction false} FollowLists(bmt: Bmt, dom: bool, vd: uint32, first: McellId, cells: seq<Placed>,
                                       err: Option<Errno>)
    requires IsChain(bmt, dom, vd, first, cells, err)
    ensures Follow(bmt, dom, vd, first, 0) == Walk(Records(cells), err)
  {
    var w := FollowFrom(bmt, dom, vd, first, cells, err, 0);
    assert cells[0..] == cells;
  }

  lemma {:induction false} PrefixLinked(bmt: Bmt, dom: bool, vd: uint32, first: McellId, cells: seq<Placed>,
                                        p: Placed, k: nat)
    requires k < |cells| && Linked(bmt, dom, vd, first, cells, k)
    ensures Linked(bmt, dom, vd, first, cells + [p], k)
  {
  }

  /** Some cells of a chain, continued to its end. */
  lemma {:induction false} ChainFrom(bmt: Bmt, dom: bool, vd: uint32, first: McellId, cells: seq<Placed>)
      returns (full: seq<Placed>, err: Option<Errno>)
    requires |cells| <= 512 && forall k :: 0 <= k < |cells| ==> Linked(bmt, dom, vd, first, cells, k)
    ensures IsChain(bmt, dom, vd, first, full, err)
    decreases 512 - |cells|
  {
    var n := |cells|;
    var v, id := LinkVd(dom, vd, cells, n), LinkTo(first, cells, n);
    if n == 512 || EndsAt(bmt, v, id) {
      return cells, None;
    }
    if bmt(v, id / 32).Err? {
      return cells, Some(bmt(v, id / 32).errno);
    }
    if FailsAt(bmt, v, id, EILSEQ) {
      return cells, Some(EILSEQ);
    }
    var p := Placed(v, bmt(v, id / 32).value[id % 32]);
    forall k | 0 <= k < n ensures Linked(bmt, dom, vd, first, cells + [p], k) {
      PrefixLinked(bmt, dom, vd, first, cells, p, k);
    }
    full, err := ChainFrom(bmt, dom, vd, first, cells + [p]);
  }

  /** Every walk is along such a chain. */
  lemma {:induction false} WalkHasChain(bmt: Bmt, dom: bool, vd: uint32, first: McellId)
      returns (cells: seq<Placed>, err: Option<Errno>)
    ensures IsChain(bmt, dom, vd, first, cells, err)
    ensures Follow(bmt, dom, vd, first, 0) == Walk(Records(cells), err)
  {
    cells, err := ChainFrom(bmt, dom, vd, first, []);
    FollowLists(bmt, dom, vd, first, cells, err);
  }
}
