/** The extent-chain walk (src/extents.c): from a primary mcell along a chain of
    overflow cells that may cross volumes, to a flat extent map. */
module Chain {
  import opened Ods
  import opened Metadata
  import opened Stripe

  const MAX_CHAIN_HOPS: nat := 512

  /** A BMT page of the volume under an index. */
  type Bmt = (uint32, uint32) -> Result<BmtPage>

  /** One overflow record of the chain, with the volume of its own mcell. */
  datatype ChainRec = Xtra(vd: uint32, xtnts: seq<Xtnt>) | Shadow(vd: uint32, xtnts: seq<Xtnt>)

  /** The records in chain order, and the error that cut the chain short, if any. */
  datatype Walk = Walk(recs: seq<ChainRec>, err: Option<Errno>)

  /** What a chain cell contributes: XTRA first, then SHADOW; neither stops the walk. */
  function RecordIn(mc: Mcell, vd: uint32): Result<Option<ChainRec>> {
    if mc.xtra.Some? then
      if mc.xtra.value.dataSz < 4 then Err(EILSEQ)
      else Ok(Some(Xtra(vd, Clamped(mc.xtra.value.xtnts, mc.xtra.value.xCnt))))
    else if mc.shadow.Some? then
      if mc.shadow.value.dataSz < 8 then Err(EILSEQ)
      else Ok(Some(Shadow(vd, Clamped(mc.shadow.value.xtnts, mc.shadow.value.xCnt))))
    else Ok(None)
  }

  /** A link's volume: 0 stays on the current one; legacy mode never leaves it. */
  function NextVd(dom: bool, vd: uint32, link: uint32): uint32 {
    if dom && link != 0 then link else vd
  }

  function CellAt(bmt: Bmt, vd: uint32, mcid: McellId): Result<Mcell> {
    match bmt(vd, McidPage(mcid))
    case Err(e) => Err(e)
    case Ok(pg) => if McidCell(mcid) >= BSPG_CELLS then Err(EILSEQ) else Ok(pg[McidCell(mcid)])
  }

  function Follow(bmt: Bmt, dom: bool, vd: uint32, mcid: McellId, hops: nat): Walk
    requires hops <= MAX_CHAIN_HOPS
    decreases MAX_CHAIN_HOPS - hops
  {
    if mcid == 0 || hops == MAX_CHAIN_HOPS then Walk([], None)
    else
      match CellAt(bmt, vd, mcid)
      case Err(e) => Walk([], Some(e))
      case Ok(mc) =>
        match RecordIn(mc, vd)
        case Err(e) => Walk([], Some(e))
        case Ok(None) => Walk([], None)
        case Ok(Some(rec)) =>
          var rest := Follow(bmt, dom, NextVd(dom, vd, mc.nextVd), mc.nextMcid, hops + 1);
          Walk([rec] + rest.recs, rest.err)
  }

  // ---- collecting records ----

  function Tag(xs: seq<Xtnt>, vd: uint32): (r: seq<Extent>)
    ensures |r| == |xs|
  {
    seq(|xs|, i requires 0 <= i < |xs| => Extent(xs[i].bsPage, xs[i].vdBlk, vd))
  }

  /** The scratch array, where each stripe column starts in it, and whether the
      primary stubs have been dropped. */
  datatype Scratch = Scratch(raw: seq<Extent>, colStart: seq<nat>, foundShadow: bool)

  function AddEntries(st: Scratch, more: seq<Extent>): Result<Scratch> {
    if |st.raw| + |more| > MAX_EXTENTS then Err(EOVERFLOW)
    else Ok(st.(raw := st.raw + more))
  }

  /** A shadow record drops what precedes the first one, and opens a column. */
  function OpenColumn(st: Scratch, isStripe: bool): Result<Scratch> {
    var raw := if st.foundShadow then st.raw else [];
    if |st.colStart| < MAX_STRIPE_COLS then Ok(Scratch(raw, st.colStart + [|raw|], true))
    else if isStripe then Err(EILSEQ)
    else Ok(Scratch(raw, st.colStart, true))
  }

  function AddRecord(st: Scratch, rec: ChainRec, isStripe: bool): Result<Scratch> {
    match rec
    case Xtra(vd, xs) => AddEntries(st, Tag(xs, vd))
    case Shadow(vd, xs) =>
      match OpenColumn(st, isStripe)
      case Err(e) => Err(e)
      case Ok(st') => AddEntries(st', Tag(xs, vd))
  }

  function AddAll(st: Scratch, recs: seq<ChainRec>, isStripe: bool): Result<Scratch>
    decreases |recs|
  {
    if recs == [] then Ok(st)
    else
      match AddRecord(st, recs[0], isStripe)
      case Err(e) => Err(e)
      case Ok(st') => AddAll(st', recs[1..], isStripe)
  }

  /** collect_array: append the valid entries one by one. */
  method CollectArray(xs: seq<Xtnt>, cnt: uint16, raw: seq<Extent>, vd: uint32) returns (r: Result<seq<Extent>>)
    requires |raw| <= MAX_EXTENTS
    ensures var more := Tag(Clamped(xs, cnt), vd);
            r == if |raw| + |more| > MAX_EXTENTS then Err(EOVERFLOW) else Ok(raw + more)
  {
    var n := if cnt > |xs| then |xs| else cnt;
    ghost var more := Tag(Clamped(xs, cnt), vd);
    var out := raw;
    var i := 0;
    while i < n
      invariant 0 <= i <= n && |out| <= MAX_EXTENTS
      invariant out == raw + more[..i]
    {
      if |out| >= MAX_EXTENTS {
        return Err(EOVERFLOW);
      }
      out := out + [Extent(xs[i].bsPage, xs[i].vdBlk, vd)];
      i := i + 1;
    }
    assert more[..n] == more;
    return Ok(out);
  }

  /** One hop of the collection: scan the cell's records into the scratch array. */
  method CollectCell(mc: Mcell, vd: uint32, st: Scratch, isStripe: bool) returns (r: Result<Option<Scratch>>)
    requires |st.raw| <= MAX_EXTENTS
    ensures match RecordIn(mc, vd)
            case Err(e) => r == Err(e)
            case Ok(None) => r == Ok(None)
            case Ok(Some(rec)) =>
              (match AddRecord(st, rec, isStripe)
               case Err(e) => r == Err(e)
               case Ok(st') => r == Ok(Some(st')) && |st'.raw| <= MAX_EXTENTS)
  {
    if mc.xtra.Some? {
      var xtra := mc.xtra.value;
      if xtra.dataSz < 4 {
        return Err(EILSEQ);
      }
      var got := CollectArray(xtra.xtnts, xtra.xCnt, st.raw, vd);
      return if got.Err? then Err(got.errno) else Ok(Some(st.(raw := got.value)));
    }
    if mc.shadow.None? {
      return Ok(None);
    }
    var shadow := mc.shadow.value;
    if shadow.dataSz < 8 {
      return Err(EILSEQ);
    }
    var raw, colStart := st.raw, st.colStart;
    if !st.foundShadow {
      raw := [];
    }
    if |colStart| >= MAX_STRIPE_COLS {
      if isStripe {
        return Err(EILSEQ);
      }
    } else {
      colStart := colStart + [|raw|];
    }
    var got := CollectArray(shadow.xtnts, shadow.xCnt, raw, vd);
    return if got.Err? then Err(got.errno) else Ok(Some(Scratch(got.value, colStart, true)));
  }

  /** Walking and collecting at once equals collecting the walked records. */
  function Gather(w: Walk, st: Scratch, isStripe: bool): Result<Scratch> {
    match AddAll(st, w.recs, isStripe)
    case Err(e) => Err(e)
    case Ok(st') => if w.err.Some? then Err(w.err.value) else Ok(st')
  }

  lemma {:induction false} GatherStep(bmt: Bmt, dom: bool, vd: uint32, mcid: McellId, hops: nat, st: Scratch,
                                      isStripe: bool)
    requires hops < MAX_CHAIN_HOPS && mcid != 0
    ensures var g := Gather(Follow(bmt, dom, vd, mcid, hops), st, isStripe);
            match CellAt(bmt, vd, mcid)
            case Err(e) => g == Err(e)
            case Ok(mc) =>
              match RecordIn(mc, vd)
              case Err(e) => g == Err(e)
              case Ok(None) => g == Ok(st)
              case Ok(Some(rec)) =>
                match AddRecord(st, rec, isStripe)
                case Err(e) => g == Err(e)
                case Ok(st') =>
                  g == Gather(Follow(bmt, dom, NextVd(dom, vd, mc.nextVd), mc.nextMcid, hops + 1), st', isStripe)
  {
    var w := Follow(bmt, dom, vd, mcid, hops);
    if w.recs != [] {
      assert w.recs[1..] == Follow(bmt, dom, NextVd(dom, vd, CellAt(bmt, vd, mcid).value.nextVd),
                                   CellAt(bmt, vd, mcid).value.nextMcid, hops + 1).recs;
    }
  }

  /** The chain loop of extents_read_core. */
  method WalkChain(bmt: Bmt, dom: bool, primVd: uint32, first: McellId, st0: Scratch, isStripe: bool)
      returns (r: Result<Scratch>)
    requires |st0.raw| <= MAX_EXTENTS
    ensures r == Gather(Follow(bmt, dom, primVd, first, 0), st0, isStripe)
  {
    ghost var result := Gather(Follow(bmt, dom, primVd, first, 0), st0, isStripe);
    var vd: uint32, mcid: McellId := primVd, first;
    var st, hops := st0, 0;
    while mcid != 0 && hops < MAX_CHAIN_HOPS
      invariant hops <= MAX_CHAIN_HOPS && |st.raw| <= MAX_EXTENTS
      invariant result == Gather(Follow(bmt, dom, vd, mcid, hops), st, isStripe)
      decreases MAX_CHAIN_HOPS - hops
    {
      GatherStep(bmt, dom, vd, mcid, hops, st, isStripe);
      var pg := bmt(vd, McidPage(mcid));
      if pg.Err? {
        return Err(pg.errno);
      }
      if McidCell(mcid) >= BSPG_CELLS {
        return Err(EILSEQ);
      }
      var mc := pg.value[McidCell(mcid)];
      var got := CollectCell(mc, vd, st, isStripe);
      if got.Err? {
        return Err(got.errno);
      }
      if got.value.None? {
        return Ok(st);
      }
      st := got.value.value;
      if dom && mc.nextVd != 0 {
        vd := mc.nextVd;
      }
      mcid := mc.nextMcid;
      hops := hops + 1;
    }
    return Ok(st);
  }
}
