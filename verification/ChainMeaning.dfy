/** What the chain walk collects, and the extent map an mcell yields
    (src/extents.c). */
module ChainMeaning {
  import opened Ods
  import opened Metadata
  import opened Runs
  import opened Stripe
  import opened Chain

  // ---- the collected records, declaratively ----

  function RecEntries(rec: ChainRec): seq<Extent> {
    Tag(rec.xtnts, rec.vd)
  }

  /** What survives of the primary entries and the records: everything after and
      including the first shadow record, or simply everything. */
  function Live(prim: seq<Extent>, recs: seq<ChainRec>): seq<Extent> {
    if recs == [] then prim
    else
      var before := if recs[|recs| - 1].Shadow? && !HasShadow(recs[..|recs| - 1]) then []
                    else Live(prim, recs[..|recs| - 1]);
      before + RecEntries(recs[|recs| - 1])
  }

  predicate HasShadow(recs: seq<ChainRec>) {
    exists i :: 0 <= i < |recs| && recs[i].Shadow?
  }

  /** Stripe columns: each shadow record followed by its XTRA continuations. */
  function Groups(recs: seq<ChainRec>): seq<seq<Extent>> {
    if recs == [] then []
    else
      var g, rec := Groups(recs[..|recs| - 1]), recs[|recs| - 1];
      if rec.Shadow? then g + [RecEntries(rec)]
      else if g == [] then []
      else g[..|g| - 1] + [g[|g| - 1] + RecEntries(rec)]
  }

  /** The scratch array after some records, as the two views above see it. */
  ghost predicate Collected(prim: seq<Extent>, recs: seq<ChainRec>, st: Scratch) {
    && st.raw == Live(prim, recs)
    && st.foundShadow == HasShadow(recs)
    && (st.foundShadow <==> Groups(recs) != [])
    && |st.colStart| == Min(|Groups(recs)|, MAX_STRIPE_COLS)
    && (|Groups(recs)| <= MAX_STRIPE_COLS ==> Partition(st, Groups(recs)))
  }

  /** The column starts and the end of raw cut raw into the groups. */
  ghost predicate Partition(st: Scratch, groups: seq<seq<Extent>>) {
    Cuts(st.raw, st.colStart + [|st.raw|], groups)
  }

  ghost predicate Cuts(raw: seq<Extent>, ends: seq<nat>, groups: seq<seq<Extent>>) {
    && Layout(raw, ends)
    && |ends| == |groups| + 1 && ends[|groups|] == |raw|
    && forall c :: 0 <= c < |groups| ==> IsColumn(raw, ends, c, groups[c])
  }

  predicate IsColumn(raw: seq<Extent>, ends: seq<nat>, c: nat, column: seq<Extent>)
    requires Layout(raw, ends) && c + 1 < |ends|
  {
    raw[ends[c]..ends[c + 1]] == column
  }

  lemma {:induction false} LayoutGrows(raw: seq<Extent>, ends: seq<nat>, more: seq<Extent>)
    requires Layout(raw, ends) && ends[|ends| - 1] == |raw|
    ensures Layout(raw + more, ends[|ends| - 1 := |raw| + |more|])
    ensures Layout(raw + more, ends + [|raw| + |more|])
  {
  }

  /** A slice inside raw is the same slice of a longer array. */
  lemma {:induction false} SliceKept(raw: seq<Extent>, more: seq<Extent>, lo: nat, hi: nat)
    requires lo <= hi <= |raw|
    ensures (raw + more)[lo..hi] == raw[lo..hi]
    ensures (raw + more)[lo..|raw| + |more|] == raw[lo..] + more
  {
  }

  /** The last group, if any, goes on. */
  function ExtendedLast(groups: seq<seq<Extent>>, more: seq<Extent>): seq<seq<Extent>> {
    if groups == [] then [] else groups[..|groups| - 1] + [groups[|groups| - 1] + more]
  }

  lemma {:induction false} XtraGrows(prim: seq<Extent>, recs: seq<ChainRec>, rec: ChainRec)
    requires rec.Xtra?
    ensures Live(prim, recs + [rec]) == Live(prim, recs) + RecEntries(rec)
    ensures Groups(recs + [rec]) == ExtendedLast(Groups(recs), RecEntries(rec))
  {
    assert (recs + [rec])[..|recs|] == recs;
  }

  lemma {:induction false} XtraCuts(st: Scratch, groups: seq<seq<Extent>>, more: seq<Extent>)
    requires groups != [] && |st.colStart| == |groups| && Partition(st, groups)
    ensures Partition(st.(raw := st.raw + more), ExtendedLast(groups, more))
  {
    var ends := st.colStart + [|st.raw|];
    ExtendLast(st.raw, ends, groups, more);
    assert ends[|groups| := |st.raw| + |more|] == st.colStart + [|st.raw + more|];
  }

  lemma {:induction false} XtraKeeps(prim: seq<Extent>, recs: seq<ChainRec>, st: Scratch, rec: ChainRec, isStripe: bool)
    requires Collected(prim, recs, st) && rec.Xtra? && AddRecord(st, rec, isStripe).Ok?
    ensures Collected(prim, recs + [rec], AddRecord(st, rec, isStripe).value)
  {
    XtraGrows(prim, recs, rec);
    ShadowAppend(recs, rec);
    if Groups(recs) != [] && |Groups(recs)| <= MAX_STRIPE_COLS {
      XtraCuts(st, Groups(recs), RecEntries(rec));
    }
  }

  lemma {:induction false} ShadowAppend(recs: seq<ChainRec>, rec: ChainRec)
    ensures HasShadow(recs + [rec]) <==> HasShadow(recs) || rec.Shadow?
  {
    if HasShadow(recs) {
      var i :| 0 <= i < |recs| && recs[i].Shadow?;
      assert (recs + [rec])[i].Shadow?;
    }
    if rec.Shadow? {
      assert (recs + [rec])[|recs|].Shadow?;
    }
  }

  lemma {:induction false} ExtendLast(raw: seq<Extent>, ends: seq<nat>, groups: seq<seq<Extent>>, more: seq<Extent>)
    requires groups != [] && Cuts(raw, ends, groups)
    ensures var n := |groups| - 1;
            Cuts(raw + more, ends[n + 1 := |raw| + |more|], groups[..n] + [groups[n] + more])
  {
    var n := |groups| - 1;
    LayoutGrows(raw, ends, more);
    forall c | 0 <= c <= n
      ensures IsColumn(raw + more, ends[n + 1 := |raw| + |more|], c, (groups[..n] + [groups[n] + more])[c])
    {
      assert IsColumn(raw, ends, c, groups[c]);
      SliceKept(raw, more, ends[c], ends[c + 1]);
    }
  }

  lemma {:induction false} OpenGroup(raw: seq<Extent>, ends: seq<nat>, groups: seq<seq<Extent>>, more: seq<Extent>)
    requires Cuts(raw, ends, groups)
    ensures Cuts(raw + more, ends + [|raw| + |more|], groups + [more])
  {
    LayoutGrows(raw, ends, more);
    forall c | 0 <= c <= |groups|
      ensures IsColumn(raw + more, ends + [|raw| + |more|], c, (groups + [more])[c])
    {
      if c < |groups| {
        assert IsColumn(raw, ends, c, groups[c]);
        SliceKept(raw, more, ends[c], ends[c + 1]);
      }
    }
  }

  lemma {:induction false} ShadowKeeps(prim: seq<Extent>, recs: seq<ChainRec>, st: Scratch, rec: ChainRec,
                                       isStripe: bool)
    requires Collected(prim, recs, st) && rec.Shadow? && AddRecord(st, rec, isStripe).Ok?
    ensures Collected(prim, recs + [rec], AddRecord(st, rec, isStripe).value)
  {
    assert (recs + [rec])[..|recs|] == recs;
    ShadowAppend(recs, rec);
    var kept := if st.foundShadow then st else Scratch([], st.colStart, false);
    if |Groups(recs)| < MAX_STRIPE_COLS {
      OpenGroup(kept.raw, kept.colStart + [|kept.raw|], Groups(recs), RecEntries(rec));
    }
  }

  lemma {:induction false} RecordKeeps(prim: seq<Extent>, recs: seq<ChainRec>, st: Scratch, rec: ChainRec,
                                       isStripe: bool)
    requires Collected(prim, recs, st) && AddRecord(st, rec, isStripe).Ok?
    ensures Collected(prim, recs + [rec], AddRecord(st, rec, isStripe).value)
  {
    if rec.Xtra? {
      XtraKeeps(prim, recs, st, rec, isStripe);
    } else {
      ShadowKeeps(prim, recs, st, rec, isStripe);
    }
  }

  lemma {:induction false} MoveOne(done: seq<ChainRec>, recs: seq<ChainRec>)
    requires recs != []
    ensures done + [recs[0]] + recs[1..] == done + recs
  {
  }

  /** Whatever the walk collects without error is the live part of the chain in
      order, each entry tagged with its own volume, and the column starts cut it
      into shadow groups. */
  lemma {:induction false} CollectedAlong(prim: seq<Extent>, done: seq<ChainRec>, st: Scratch, recs: seq<ChainRec>,
                                          isStripe: bool)
    requires Collected(prim, done, st) && AddAll(st, recs, isStripe).Ok?
    ensures Collected(prim, done + recs, AddAll(st, recs, isStripe).value)
    decreases |recs|
  {
    if recs == [] {
      assert done + recs == done;
    } else {
      var next := AddRecord(st, recs[0], isStripe).value;
      RecordKeeps(prim, done, st, recs[0], isStripe);
      MoveOne(done, recs);
      CollectedAlong(prim, done + [recs[0]], next, recs[1..], isStripe);
    }
  }

  lemma {:induction false} GatheredIsCollected(prim: seq<Extent>, w: Walk, isStripe: bool)
    requires Gather(w, Scratch(prim, [], false), isStripe).Ok?
    ensures Collected(prim, w.recs, Gather(w, Scratch(prim, [], false), isStripe).value)
  {
    assert [] + w.recs == w.recs;
    CollectedAlong(prim, [], Scratch(prim, [], false), w.recs, isStripe);
  }

  // ---- the extent map of an mcell ----

  /** Mode of the walk: a domain with its volume table, or one volume alone. */
  ghost function MapOfCell(bmt: Bmt, dom: bool, primVd: uint32, pg: BmtPage, cell: uint32): Result<seq<Extent>> {
    if cell >= BSPG_CELLS then Err(EINVAL)
    else if pg[cell].xtnt.None? then Err(ENODATA)
    else if pg[cell].xtnt.value.dataSz < XTNT_REC_SZ then Err(EILSEQ)
    else
      var xr := pg[cell].xtnt.value;
      var isStripe := dom && xr.mapType == BSXMT_STRIPE;
      match Gather(WalkOf(bmt, dom, primVd, xr), Scratch(Tag(Clamped(xr.xtnts, xr.xCnt), primVd), [], false), isStripe)
      case Err(e) => Err(e)
      case Ok(st) =>
        if isStripe && |st.colStart| >= 2 then StripedMap(st, xr.segmentSize) else Ok(st.raw)
  }

  function WalkOf(bmt: Bmt, dom: bool, primVd: uint32, xr: XtntRec): Walk {
    Follow(bmt, dom, NextVd(dom, primVd, xr.chainVd), xr.chainMcid, 0)
  }

  ghost function StripedMap(st: Scratch, seg: uint32): Result<seq<Extent>> {
    var ends := st.colStart + [|st.raw|];
    if seg == 0 then Err(EILSEQ)
    else if Accepted(st.raw, ends, |st.colStart|, seg) then
      var s := StripeOf(st.raw, ends, |st.colStart|, seg);
      if Total(s) > UINT32_MAX then Err(ERANGE) else Ok(FlatMap(s, Total(s)))
    else Err(EINVAL)
  }

  /** A striped file's map is the interleaving of its shadow groups. */
  lemma {:induction false} StripedMapOfGroups(prim: seq<Extent>, recs: seq<ChainRec>, st: Scratch, seg: uint32)
    requires Collected(prim, recs, st) && 2 <= |Groups(recs)| <= MAX_STRIPE_COLS && seg > 0
    ensures var s := Stripe(Groups(recs), seg);
            s.Valid() && StripedMap(st, seg) == if Total(s) > UINT32_MAX then Err(ERANGE) else Ok(FlatMap(s, Total(s)))
  {
    var ends := st.colStart + [|st.raw|];
    forall c | 0 <= c < |Groups(recs)| ensures ColumnsOf(st.raw, ends)[c] == Groups(recs)[c] {
      assert IsColumn(st.raw, ends, c, Groups(recs)[c]);
    }
    assert ColumnsOf(st.raw, ends) == Groups(recs);
  }

  lemma {:induction false} StripeLimitsGroups(recs: seq<ChainRec>, st: Scratch)
    requires AddAll(st, recs, true).Ok? && |st.colStart| <= MAX_STRIPE_COLS
    ensures |AddAll(st, recs, true).value.colStart| <= MAX_STRIPE_COLS
    ensures |st.colStart| + ShadowCount(recs) == |AddAll(st, recs, true).value.colStart|
    decreases |recs|
  {
    if recs != [] {
      StripeLimitsGroups(recs[1..], AddRecord(st, recs[0], true).value);
    }
  }

  function ShadowCount(recs: seq<ChainRec>): nat {
    if recs == [] then 0 else (if recs[0].Shadow? then 1 else 0) + ShadowCount(recs[1..])
  }

  lemma {:induction false} ShadowCountAppend(recs: seq<ChainRec>, rec: ChainRec)
    ensures ShadowCount(recs + [rec]) == ShadowCount(recs) + (if rec.Shadow? then 1 else 0)
  {
    if recs != [] {
      assert (recs + [rec])[1..] == recs[1..] + [rec];
      ShadowCountAppend(recs[1..], rec);
    }
  }

  lemma {:induction false} GroupsAreShadows(recs: seq<ChainRec>)
    ensures |Groups(recs)| == ShadowCount(recs)
  {
    if recs != [] {
      var n := |recs| - 1;
      GroupsAreShadows(recs[..n]);
      assert recs == recs[..n] + [recs[n]];
      ShadowCountAppend(recs[..n], recs[n]);
    }
  }

  /** The map an mcell yields, in terms of its chain: for a striped file of two or
      more columns the interleaving of its shadow groups, otherwise the live
      entries in chain order. */
  lemma {:induction false} MapOfCellMeaning(bmt: Bmt, dom: bool, primVd: uint32, pg: BmtPage, cell: uint32)
    requires MapOfCell(bmt, dom, primVd, pg, cell).Ok?
    ensures var xr := pg[cell].xtnt.value;
            var prim, recs := Tag(Clamped(xr.xtnts, xr.xCnt), primVd), WalkOf(bmt, dom, primVd, xr).recs;
            var flat := MapOfCell(bmt, dom, primVd, pg, cell).value;
            if dom && xr.mapType == BSXMT_STRIPE && |Groups(recs)| >= 2 then
              var s := Stripe(Groups(recs), xr.segmentSize);
              s.Valid() && Total(s) <= UINT32_MAX && flat == FlatMap(s, Total(s))
            else flat == Live(prim, recs)
  {
    var xr := pg[cell].xtnt.value;
    var isStripe := dom && xr.mapType == BSXMT_STRIPE;
    var prim := Tag(Clamped(xr.xtnts, xr.xCnt), primVd);
    var w := WalkOf(bmt, dom, primVd, xr);
    var st := Gather(w, Scratch(prim, [], false), isStripe).value;
    GatheredIsCollected(prim, w, isStripe);
    if isStripe {
      StripeLimitsGroups(w.recs, Scratch(prim, [], false));
      GroupsAreShadows(w.recs);
      if |Groups(w.recs)| >= 2 {
        StripedMapOfGroups(prim, w.recs, st, xr.segmentSize);
      }
    }
  }

  /** extents_read_core: the extent map of an mcell, written to the caller's array. */
  method ExtentsReadCore(bmt: Bmt, dom: bool, primVd: uint32, pg: BmtPage, cell: uint32,
                         out: array<Extent>, max: nat)
      returns (err: Option<Errno>, count: nat)
    requires 0 < max <= out.Length
    modifies out
    ensures match MapOfCell(bmt, dom, primVd, pg, cell)
            case Err(e) => err == Some(e)
            case Ok(flat) => Written(flat, max, out[..], err, count)
  {
    count := 0;
    if cell >= BSPG_CELLS {
      return Some(EINVAL), 0;
    }
    if pg[cell].xtnt.None? {
      return Some(ENODATA), 0;
    }
    var xr := pg[cell].xtnt.value;
    if xr.dataSz < XTNT_REC_SZ {
      return Some(EILSEQ), 0;
    }
    var isStripe := dom && xr.mapType == BSXMT_STRIPE;
    var prim := CollectArray(xr.xtnts, xr.xCnt, [], primVd);
    // at most two entries: the original's overflow check here never fires
    assert prim.value == Tag(Clamped(xr.xtnts, xr.xCnt), primVd);
    var chainVd := primVd;
    if dom && xr.chainVd != 0 {
      chainVd := xr.chainVd;
    }
    var got := WalkChain(bmt, dom, chainVd, xr.chainMcid, Scratch(prim.value, [], false), isStripe);
    if got.Err? {
      return Some(got.errno), 0;
    }
    var st := got.value;
    if isStripe && |st.colStart| >= 2 {
      if xr.segmentSize == 0 {
        return Some(EILSEQ), 0;
      }
      GatheredIsCollected(prim.value, WalkOf(bmt, dom, primVd, xr), isStripe);
      StripeLimitsGroups(WalkOf(bmt, dom, primVd, xr).recs, Scratch(prim.value, [], false));
      GroupsAreShadows(WalkOf(bmt, dom, primVd, xr).recs);
      err, count := Interleave(st.raw, st.colStart + [|st.raw|], |st.colStart|, xr.segmentSize, out, max);
      return;
    }
    err, count := CopyOut(st.raw, out, max);
  }

  method CopyOut(raw: seq<Extent>, out: array<Extent>, max: nat) returns (err: Option<Errno>, count: nat)
    requires max <= out.Length
    modifies out
    ensures Written(raw, max, out[..], err, count)
  {
    count := 0;
    while count < |raw|
      invariant count <= |raw| && count <= max
      invariant out[..count] == raw[..count]
    {
      if count >= max {
        return Some(EOVERFLOW), count;
      }
      out[count] := raw[count];
      count := count + 1;
    }
    return None, count;
  }
}
