/** Building a metadata file's extent map from chain cells that are themselves
    located through the map being built (src/domain.c). */
module Bootstrap {
  import opened Ods
  import opened Boundary
  import opened Util
  import opened Metadata

  const MAX_META_HOPS: nat := 64

  /** Reading a volume's metadata pages, by absolute volume page. */
  type MetaVolume = uint32 -> Result<BmtPage>

  /** Append what still fits. */
  function Extend(xs: seq<Xtnt>, more: seq<Xtnt>): (r: seq<Xtnt>)
    requires |xs| <= MAX_BMT_EXTENTS
    ensures |xs| <= |r| <= MAX_BMT_EXTENTS
  {
    xs + more[..Min(|more|, MAX_BMT_EXTENTS - |xs|)]
  }

  /** The overflow entries of a chain cell: XTRA first, then SHADOW. */
  function Overflow(mc: Mcell): Option<seq<Xtnt>> {
    if mc.xtra.Some? then Some(Clamped(mc.xtra.value.xtnts, mc.xtra.value.xCnt))
    else if mc.shadow.Some? then Some(Clamped(mc.shadow.value.xtnts, mc.shadow.value.xCnt))
    else None
  }

  /** The chain cell at `chain`, with its page located through `through`. */
  function ChainCell(vol: MetaVolume, through: seq<Xtnt>, chain: McellId): Option<Mcell> {
    match Resolve(through, McidPage(chain))
    case Err(_) => None
    case Ok(vp) =>
      match vol(vp)
      case Err(_) => None
      case Ok(pg) => if McidCell(chain) >= BSPG_CELLS then None else Some(pg[McidCell(chain)])
  }

  /** A finished map and, hop by hop, where each chain page was found. */
  datatype Built = Built(entries: seq<Xtnt>, located: seq<Result<uint32>>)

  function Hop(at: Result<uint32>, rest: Built): Built {
    Built(rest.entries, [at] + rest.located)
  }

  function Through(fixed: Option<seq<Xtnt>>, xs: seq<Xtnt>): seq<Xtnt> {
    if fixed.Some? then fixed.value else xs
  }

  /** One hop: the grown map and the next cell, or None where the walk stops. */
  function Step(vol: MetaVolume, fixed: Option<seq<Xtnt>>, xs: seq<Xtnt>,
                chain: McellId): (r: Option<(seq<Xtnt>, McellId)>)
    requires |xs| <= MAX_BMT_EXTENTS
    ensures r.Some? ==> |r.value.0| <= MAX_BMT_EXTENTS
  {
    var mc := ChainCell(vol, Through(fixed, xs), chain);
    if mc.None? || Overflow(mc.value).None? then None
    else Some((Extend(xs, Overflow(mc.value).value), mc.value.nextMcid))
  }

  /** Follow the chain from the partial map xs; `fixed` is the caller's map, or
      None to locate chain pages through the partial map itself. */
  function Build(vol: MetaVolume, fixed: Option<seq<Xtnt>>, xs: seq<Xtnt>, chain: McellId, hops: nat): (b: Built)
    requires |xs| <= MAX_BMT_EXTENTS && hops <= MAX_META_HOPS
    ensures |b.entries| <= MAX_BMT_EXTENTS
    decreases MAX_META_HOPS - hops
  {
    if chain == 0 || hops == MAX_META_HOPS then Built(xs, [])
    else
      var at := Resolve(Through(fixed, xs), McidPage(chain));
      var next := Step(vol, fixed, xs, chain);
      if next.None? then Built(xs, [at])
      else Hop(at, Build(vol, fixed, next.value.0, next.value.1, hops + 1))
  }

  method CopyEntries(src: seq<Xtnt>, out: array<Xtnt>, count: nat) returns (count': nat)
    requires count <= MAX_BMT_EXTENTS == out.Length
    modifies out
    ensures count' <= MAX_BMT_EXTENTS && out[..count'] == Extend(old(out[..count]), src)
  {
    ghost var before := out[..count];
    count' := count;
    var i := 0;
    while i < |src|
      invariant 0 <= i <= |src| && count' <= MAX_BMT_EXTENTS
      invariant out[..count'] == before + src[..Min(i, MAX_BMT_EXTENTS - count)]
    {
      if count' < MAX_BMT_EXTENTS {
        out[count'] := src[i];
        count' := count' + 1;
      }
      i := i + 1;
    }
  }

  /** One chain cell, located through the caller's map or the partial one. */
  method ReadChainCell(vol: MetaVolume, through: seq<Xtnt>, chain: McellId) returns (mc: Option<Mcell>)
    ensures mc == ChainCell(vol, through, chain)
  {
    var cvp := ResolvePage(through, McidPage(chain));
    if cvp.Err? {
      return None;
    }
    var pg := vol(cvp.value);
    if pg.Err? || McidCell(chain) >= BSPG_CELLS {
      return None;
    }
    return Some(pg.value[McidCell(chain)]);
  }

  /** Take one hop in place; the next cell is 0 (end of chain) where the walk stops. */
  method TakeStep(vol: MetaVolume, fixed: Option<seq<Xtnt>>, chain: McellId, out: array<Xtnt>, count: nat)
      returns (count': nat, next: McellId)
    requires count <= MAX_BMT_EXTENTS == out.Length
    modifies out
    ensures count' <= MAX_BMT_EXTENTS
    ensures (out[..count'], next) == Step(vol, fixed, old(out[..count]), chain).GetOr((old(out[..count]), 0))
  {
    var mc := ReadChainCell(vol, if fixed.Some? then fixed.value else out[..count], chain);
    if mc.None? {
      return count, 0;
    }
    var more := Overflow(mc.value);
    if more.None? {
      return count, 0;
    }
    count' := CopyEntries(more.value, out, count);
    next := mc.value.nextMcid;
  }

  lemma {:induction false} BuildByStep(vol: MetaVolume, fixed: Option<seq<Xtnt>>, xs: seq<Xtnt>, chain: McellId,
                                       hops: nat)
    requires |xs| <= MAX_BMT_EXTENTS && hops < MAX_META_HOPS && chain != 0
    ensures var r := Step(vol, fixed, xs, chain).GetOr((xs, 0));
            |r.0| <= MAX_BMT_EXTENTS
            && Build(vol, fixed, xs, chain, hops).entries == Build(vol, fixed, r.0, r.1, hops + 1).entries
  {
  }

  lemma {:induction false} BuildStops(vol: MetaVolume, fixed: Option<seq<Xtnt>>, xs: seq<Xtnt>, chain: McellId,
                                      hops: nat)
    requires |xs| <= MAX_BMT_EXTENTS && hops <= MAX_META_HOPS && (chain == 0 || hops == MAX_META_HOPS)
    ensures Build(vol, fixed, xs, chain, hops).entries == xs
  {
  }

  /** One pass of the chain loop. */
  method ChainPass(vol: MetaVolume, fixed: Option<seq<Xtnt>>, chain: McellId, hops: nat, out: array<Xtnt>, count: nat,
                   ghost xs: seq<Xtnt>)
      returns (count': nat, next: McellId, ghost xs': seq<Xtnt>)
    requires count <= MAX_BMT_EXTENTS == out.Length && hops < MAX_META_HOPS && chain != 0
    requires xs == out[..count]
    modifies out
    ensures count' <= MAX_BMT_EXTENTS && xs' == out[..count'] && |xs'| <= MAX_BMT_EXTENTS
    ensures Build(vol, fixed, xs, chain, hops).entries == Build(vol, fixed, xs', next, hops + 1).entries
  {
    BuildByStep(vol, fixed, xs, chain, hops);
    count', next := TakeStep(vol, fixed, chain, out, count);
    xs' := out[..count'];
  }

  /** The chain loop, with `done` hops already taken: `out` grows inside the loop
      that reads it. */
  method FollowChain(vol: MetaVolume, fixed: Option<seq<Xtnt>>, first: McellId, done: nat, out: array<Xtnt>, count: nat)
      returns (count': nat)
    requires count <= MAX_BMT_EXTENTS == out.Length && done <= MAX_META_HOPS
    modifies out
    ensures count' <= MAX_BMT_EXTENTS
    ensures out[..count'] == Build(vol, fixed, old(out[..count]), first, done).entries
  {
    ghost var xs := out[..count];
    ghost var result := Build(vol, fixed, xs, first, done).entries;
    var chain := first;
    var hops := done;
    count' := count;
    while chain != 0 && hops < MAX_META_HOPS
      invariant hops <= MAX_META_HOPS && count' <= MAX_BMT_EXTENTS && |xs| <= MAX_BMT_EXTENTS
      invariant xs == out[..count'] && result == Build(vol, fixed, xs, chain, hops).entries
      decreases MAX_META_HOPS - hops
    {
      count', chain, xs := ChainPass(vol, fixed, chain, hops, out, count', xs);
      hops := hops + 1;
    }
    BuildStops(vol, fixed, xs, chain, hops);
  }

  /** build_meta_extent_map. */
  method BuildMetaExtentMap(vol: MetaVolume, pg0: BmtPage, cellIdx: uint32, fixed: Option<seq<Xtnt>>,
                            out: array<Xtnt>)
      returns (err: Option<Errno>, count: nat)
    requires out.Length == MAX_BMT_EXTENTS
    modifies out
    ensures err == MetaError(pg0, cellIdx)
    ensures err == None ==> count <= out.Length && out[..count] == MetaMap(vol, pg0, cellIdx, fixed).entries
  {
    if cellIdx >= BSPG_CELLS {
      return Some(EILSEQ), 0;
    }
    var xr := pg0[cellIdx].xtnt;
    if xr.None? || xr.value.dataSz < XTNT_REC_SZ {
      return Some(EILSEQ), 0;
    }
    assert out[..0] == [];
    count := CopyEntries(Clamped(xr.value.xtnts, xr.value.xCnt), out, 0);
    count := FollowChain(vol, fixed, xr.value.chainMcid, 0, out, count);
    return None, count;
  }

  function MetaError(pg0: BmtPage, cellIdx: uint32): Option<Errno> {
    if cellIdx >= BSPG_CELLS || pg0[cellIdx].xtnt.None? || pg0[cellIdx].xtnt.value.dataSz < XTNT_REC_SZ
    then Some(EILSEQ) else None
  }

  function MetaMap(vol: MetaVolume, pg0: BmtPage, cellIdx: uint32, fixed: Option<seq<Xtnt>>): Built
    requires MetaError(pg0, cellIdx) == None
  {
    var xr := pg0[cellIdx].xtnt.value;
    Build(vol, fixed, Extend([], Clamped(xr.xtnts, xr.xCnt)), xr.chainMcid, 0)
  }

  // ---- the fixpoint ----

  lemma {:induction false} PrefixOfPrefix(a: seq<Xtnt>, b: seq<Xtnt>, c: seq<Xtnt>)
    requires |a| <= |b| <= |c| && a == b[..|a|] && b == c[..|b|]
    ensures a == c[..|a|]
  {
  }

  lemma {:induction false} StepGrows(vol: MetaVolume, fixed: Option<seq<Xtnt>>, xs: seq<Xtnt>, chain: McellId)
    requires |xs| <= MAX_BMT_EXTENTS && Step(vol, fixed, xs, chain).Some?
    ensures var next := Step(vol, fixed, xs, chain).value.0; |xs| <= |next| && xs == next[..|xs|]
  {
  }

  /** A partial map only grows. */
  lemma {:induction false} BuildGrows(vol: MetaVolume, fixed: Option<seq<Xtnt>>, xs: seq<Xtnt>, chain: McellId,
                                      hops: nat)
    requires |xs| <= MAX_BMT_EXTENTS && hops <= MAX_META_HOPS
    ensures var full := Build(vol, fixed, xs, chain, hops).entries;
            |xs| <= |full| && xs == full[..|xs|]
    decreases MAX_META_HOPS - hops
  {
    var next := Step(vol, fixed, xs, chain);
    if chain != 0 && hops < MAX_META_HOPS && next.Some? {
      StepGrows(vol, fixed, xs, chain);
      BuildGrows(vol, fixed, next.value.0, next.value.1, hops + 1);
      PrefixOfPrefix(xs, next.value.0, Build(vol, fixed, xs, chain, hops).entries);
    }
  }

  predicate EndsInBoundary(xs: seq<Xtnt>) {
    xs != [] && IsMarker(xs[|xs| - 1].vdBlk)
  }

  /** Every chain page met on the way to `full` keeps its entry, or stays on the open run. */
  predicate AllStay(vol: MetaVolume, xs: seq<Xtnt>, chain: McellId, hops: nat, full: seq<Xtnt>)
    requires |xs| <= MAX_BMT_EXTENTS && hops <= MAX_META_HOPS
    decreases MAX_META_HOPS - hops
  {
    chain == 0 || hops == MAX_META_HOPS ||
    var next := Step(vol, None, xs, chain);
    next.None? ||
    (&& Stays(xs, full, McidPage(chain))
     && AllStay(vol, next.value.0, next.value.1, hops + 1, full))
  }

  lemma {:induction false} StayedStep(vol: MetaVolume, xs: seq<Xtnt>, full: seq<Xtnt>, chain: McellId)
    requires |xs| <= |full| && xs == full[..|xs|] && |xs| <= MAX_BMT_EXTENTS
    requires Step(vol, None, xs, chain).Some?
    ensures Resolve(full, McidPage(chain)) == Resolve(xs, McidPage(chain))
            <==> Stays(xs, full, McidPage(chain))
    ensures Resolve(full, McidPage(chain)) == Resolve(xs, McidPage(chain)) ==>
              Step(vol, Some(full), xs, chain) == Step(vol, None, xs, chain)
  {
    ResolveStaysExactly(xs, full, McidPage(chain));
  }

  lemma {:induction false} HopInjective(a: Result<uint32>, b: Result<uint32>, x: Built, y: Built)
    ensures Hop(a, x) == Hop(b, y) <==> a == b && x == y
  {
    if Hop(a, x) == Hop(b, y) {
      assert Hop(a, x).located[1..] == x.located && Hop(b, y).located[1..] == y.located;
    }
  }

  lemma {:induction false} FirstLocated(vol: MetaVolume, fixed: Option<seq<Xtnt>>, xs: seq<Xtnt>, chain: McellId,
                                        hops: nat)
    requires |xs| <= MAX_BMT_EXTENTS && hops < MAX_META_HOPS && chain != 0
    ensures var b := Build(vol, fixed, xs, chain, hops);
            b.located != [] && b.located[0] == Resolve(Through(fixed, xs), McidPage(chain))
  {
  }

  /** Where the walk stops at once, the partial map is the finished one. */
  lemma {:induction false} StoppedIsFixpoint(vol: MetaVolume, xs: seq<Xtnt>, chain: McellId, hops: nat)
    requires |xs| <= MAX_BMT_EXTENTS && hops <= MAX_META_HOPS
    requires chain == 0 || hops == MAX_META_HOPS || Step(vol, None, xs, chain).None?
    ensures var b := Build(vol, None, xs, chain, hops); b.entries == xs && Build(vol, Some(xs), xs, chain, hops) == b
  {
  }

  /** One hop of both builds. */
  lemma {:induction false} RebuildHop(vol: MetaVolume, xs: seq<Xtnt>, chain: McellId, hops: nat, full: seq<Xtnt>)
    requires |xs| <= MAX_BMT_EXTENTS && hops < MAX_META_HOPS && chain != 0
    requires Step(vol, None, xs, chain).Some? && full == Build(vol, None, xs, chain, hops).entries
    ensures var next := Step(vol, None, xs, chain).value;
            var tail := Build(vol, None, next.0, next.1, hops + 1);
            && tail.entries == full
            && (Build(vol, Some(full), xs, chain, hops) == Build(vol, None, xs, chain, hops)
                <==> Stays(xs, full, McidPage(chain))
                     && Build(vol, Some(full), next.0, next.1, hops + 1) == tail)
  {
    var page := McidPage(chain);
    var next := Step(vol, None, xs, chain).value;
    var tail := Build(vol, None, next.0, next.1, hops + 1);
    BuildGrows(vol, None, xs, chain, hops);
    StayedStep(vol, xs, full, chain);
    FirstLocated(vol, None, xs, chain, hops);
    FirstLocated(vol, Some(full), xs, chain, hops);
    if Resolve(full, page) == Resolve(xs, page) {
      HopInjective(Resolve(full, page), Resolve(xs, page), Build(vol, Some(full), next.0, next.1, hops + 1), tail);
    }
  }

  /** Rebuilding with the finished map as the resolving map gives the same map, with every
      chain page located alike, exactly if every chain page met by the bootstrap keeps its
      entry, or loses it to one that goes on with the run that was open. */
  lemma {:induction false} FixpointExactly(vol: MetaVolume, xs: seq<Xtnt>, chain: McellId, hops: nat, full: seq<Xtnt>)
    requires |xs| <= MAX_BMT_EXTENTS && hops <= MAX_META_HOPS
    requires full == Build(vol, None, xs, chain, hops).entries
    ensures Build(vol, Some(full), xs, chain, hops) == Build(vol, None, xs, chain, hops)
            <==> AllStay(vol, xs, chain, hops, full)
    decreases MAX_META_HOPS - hops
  {
    if chain == 0 || hops == MAX_META_HOPS || Step(vol, None, xs, chain).None? {
      StoppedIsFixpoint(vol, xs, chain, hops);
    } else {
      var next := Step(vol, None, xs, chain).value;
      RebuildHop(vol, xs, chain, hops, full);
      FixpointExactly(vol, next.0, next.1, hops + 1, full);
    }
  }

  /** The walk locates every chain page through the same entry as the finished map. */
  predicate SameEntries(vol: MetaVolume, xs: seq<Xtnt>, chain: McellId, hops: nat, full: seq<Xtnt>)
    requires |xs| <= MAX_BMT_EXTENTS && hops <= MAX_META_HOPS
    decreases MAX_META_HOPS - hops
  {
    chain == 0 || hops == MAX_META_HOPS ||
    var next := Step(vol, None, xs, chain);
    next.None? ||
    (&& FirstCover(XStarts(full), McidPage(chain)) == FirstCover(XStarts(xs), McidPage(chain))
     && SameEntries(vol, next.value.0, next.value.1, hops + 1, full))
  }

  /** Every chain page was covered before the open end, or below the next entry. */
  predicate AllKeep(vol: MetaVolume, xs: seq<Xtnt>, chain: McellId, hops: nat, full: seq<Xtnt>)
    requires |xs| <= MAX_BMT_EXTENTS && hops <= MAX_META_HOPS
    decreases MAX_META_HOPS - hops
  {
    chain == 0 || hops == MAX_META_HOPS ||
    var next := Step(vol, None, xs, chain);
    next.None? ||
    (KeepsEntry(xs, full, McidPage(chain)) && AllKeep(vol, next.value.0, next.value.1, hops + 1, full))
  }

  lemma {:induction false} SameEntriesExactly(vol: MetaVolume, xs: seq<Xtnt>, chain: McellId, hops: nat,
                                              full: seq<Xtnt>)
    requires 0 < |xs| <= MAX_BMT_EXTENTS && hops <= MAX_META_HOPS
    requires full == Build(vol, None, xs, chain, hops).entries
    ensures SameEntries(vol, xs, chain, hops, full) <==> AllKeep(vol, xs, chain, hops, full)
    decreases MAX_META_HOPS - hops
  {
    var next := Step(vol, None, xs, chain);
    if chain != 0 && hops < MAX_META_HOPS && next.Some? {
      BuildGrows(vol, None, xs, chain, hops);
      KeptEntry(xs, full, McidPage(chain));
      SameEntriesExactly(vol, next.value.0, next.value.1, hops + 1, full);
    }
  }

  // ---- when nothing can move ----

  predicate CellClosed(mc: Mcell) {
    Overflow(mc).Some? && (Overflow(mc).value == [] || EndsInBoundary(Overflow(mc).value))
  }

  /** Every overflow record met by the bootstrap is empty or ends in a boundary. */
  predicate RecordsClosed(vol: MetaVolume, xs: seq<Xtnt>, chain: McellId, hops: nat)
    requires |xs| <= MAX_BMT_EXTENTS && hops <= MAX_META_HOPS
    decreases MAX_META_HOPS - hops
  {
    chain == 0 || hops == MAX_META_HOPS ||
    var next := Step(vol, None, xs, chain);
    next.None? ||
    (&& CellClosed(ChainCell(vol, xs, chain).value)
     && RecordsClosed(vol, next.value.0, next.value.1, hops + 1))
  }

  lemma {:induction false} StepStaysClosed(vol: MetaVolume, xs: seq<Xtnt>, chain: McellId)
    requires |xs| <= MAX_BMT_EXTENTS && Step(vol, None, xs, chain).Some?
    requires EndsInBoundary(xs) || |xs| == MAX_BMT_EXTENTS
    requires CellClosed(ChainCell(vol, xs, chain).value)
    ensures var next := Step(vol, None, xs, chain).value.0;
            EndsInBoundary(next) || |next| == MAX_BMT_EXTENTS
  {
  }

  lemma {:induction false} ClosedKeepsHop(vol: MetaVolume, xs: seq<Xtnt>, chain: McellId, hops: nat, full: seq<Xtnt>)
    requires 0 < |xs| <= MAX_BMT_EXTENTS && hops <= MAX_META_HOPS && Step(vol, None, xs, chain).Some?
    requires EndsInBoundary(xs) || |xs| == MAX_BMT_EXTENTS
    requires full == Build(vol, None, xs, chain, hops).entries
    ensures KeepsEntry(xs, full, McidPage(chain))
  {
    BuildGrows(vol, None, xs, chain, hops);
    if EndsInBoundary(xs) {
      ClosedKeeps(xs, full, McidPage(chain));
    }
  }

  /** One hop through closed records. */
  lemma {:induction false} ClosedHop(vol: MetaVolume, xs: seq<Xtnt>, chain: McellId, hops: nat, full: seq<Xtnt>,
                                     next: seq<Xtnt>, link: McellId)
    requires 0 < |xs| <= MAX_BMT_EXTENTS && hops < MAX_META_HOPS && chain != 0
    requires Step(vol, None, xs, chain) == Some((next, link))
    requires EndsInBoundary(xs) || |xs| == MAX_BMT_EXTENTS
    requires RecordsClosed(vol, xs, chain, hops) && full == Build(vol, None, xs, chain, hops).entries
    ensures 0 < |next| <= MAX_BMT_EXTENTS && (EndsInBoundary(next) || |next| == MAX_BMT_EXTENTS)
    ensures RecordsClosed(vol, next, link, hops + 1) && full == Build(vol, None, next, link, hops + 1).entries
  {
    StepGrows(vol, None, xs, chain);
    StepStaysClosed(vol, xs, chain);
  }

  /** If records end in boundaries, every chain page keeps its entry, even when the
      map fills up. */
  lemma {:induction false} ClosedAllKeep(vol: MetaVolume, xs: seq<Xtnt>, chain: McellId, hops: nat, full: seq<Xtnt>)
    requires 0 < |xs| <= MAX_BMT_EXTENTS && hops <= MAX_META_HOPS
    requires EndsInBoundary(xs) || |xs| == MAX_BMT_EXTENTS
    requires RecordsClosed(vol, xs, chain, hops) && full == Build(vol, None, xs, chain, hops).entries
    ensures AllKeep(vol, xs, chain, hops, full)
    decreases MAX_META_HOPS - hops
  {
    if chain != 0 && hops < MAX_META_HOPS && Step(vol, None, xs, chain).Some? {
      var (next, link) := Step(vol, None, xs, chain).value;
      ClosedKeepsHop(vol, xs, chain, hops, full);
      ClosedHop(vol, xs, chain, hops, full, next, link);
      ClosedAllKeep(vol, next, link, hops + 1, full);
    }
  }

  lemma {:induction false} KeptStays(vol: MetaVolume, xs: seq<Xtnt>, chain: McellId, hops: nat, full: seq<Xtnt>)
    requires |xs| <= MAX_BMT_EXTENTS && hops <= MAX_META_HOPS && AllKeep(vol, xs, chain, hops, full)
    ensures AllStay(vol, xs, chain, hops, full)
    decreases MAX_META_HOPS - hops
  {
    var next := Step(vol, None, xs, chain);
    if chain != 0 && hops < MAX_META_HOPS && next.Some? {
      KeptStays(vol, next.value.0, next.value.1, hops + 1, full);
    }
  }

  /** The map of a metadata file whose primary entries are present and whose
      records all end in boundaries is a fixpoint of its own construction. */
  lemma {:induction false} MetaMapIsFixpoint(vol: MetaVolume, pg0: BmtPage, cellIdx: uint32, prim: seq<Xtnt>)
    requires MetaError(pg0, cellIdx) == None
    requires var xr := pg0[cellIdx].xtnt.value;
             && prim == Clamped(xr.xtnts, xr.xCnt) && EndsInBoundary(prim)
             && RecordsClosed(vol, prim, xr.chainMcid, 0)
    ensures var b := MetaMap(vol, pg0, cellIdx, None);
            MetaMap(vol, pg0, cellIdx, Some(b.entries)) == b
  {
    var chain := pg0[cellIdx].xtnt.value.chainMcid;
    assert Extend([], prim) == prim;
    ClosedIsFixpoint(vol, prim, chain, 0, Build(vol, None, prim, chain, 0).entries);
  }

  lemma {:induction false} ClosedIsFixpoint(vol: MetaVolume, xs: seq<Xtnt>, chain: McellId, hops: nat, full: seq<Xtnt>)
    requires |xs| <= MAX_BMT_EXTENTS && EndsInBoundary(xs) && hops <= MAX_META_HOPS
    requires RecordsClosed(vol, xs, chain, hops) && full == Build(vol, None, xs, chain, hops).entries
    ensures AllStay(vol, xs, chain, hops, full)
    ensures Build(vol, Some(full), xs, chain, hops) == Build(vol, None, xs, chain, hops)
  {
    ClosedAllKeep(vol, xs, chain, hops, full);
    KeptStays(vol, xs, chain, hops, full);
    FixpointExactly(vol, xs, chain, hops, full);
  }

  // ---- a volume on which the bootstrap is no fixpoint ----

  /** Metadata page 0: cell 0 has one open entry and continues in cell 0 of page 5. */
  function OpenPrimary(): BmtPage {
    seq(BSPG_CELLS, i => if i == 0 then Mcell(Some(OpenRecord()), None, None, 0, 0) else EMPTY_MCELL)
  }

  function OpenRecord(): XtntRec {
    XtntRec(XTNT_REC_SZ, 0, 0, 160, 0, 1, [Xtnt(0, 1600), Xtnt(0, 0)])
  }

  /** Where page 5 lies through that entry: a record that puts page 5 elsewhere. */
  function OpenOverflow(): BmtPage {
    seq(BSPG_CELLS, i => if i == 0 then Mcell(None, Some(OverflowRecord()), None, 0, 0) else EMPTY_MCELL)
  }

  function OverflowRecord(): XtraRec {
    XtraRec(260, 2, [Xtnt(3, 3200), Xtnt(10, XTNT_TERM)] + seq(30, _ => Xtnt(0, 0)))
  }

  function OpenVolume(): MetaVolume {
    (p: uint32) => if p == 105 then Ok(OpenOverflow()) else Err(EIO)
  }

  lemma {:induction false} OpenFirstBuild(vol: MetaVolume, xs: seq<Xtnt>, more: seq<Xtnt>, hops: nat)
    requires vol == OpenVolume() && hops == 0
    requires xs == [Xtnt(0, 1600)] && more == [Xtnt(3, 3200), Xtnt(10, XTNT_TERM)]
    ensures Build(vol, None, xs, 160, hops).entries == xs + more
  {
    OpenEndMoves(xs, more);
    assert Clamped(OverflowRecord().xtnts, 2) == more;
    assert Extend(xs, more) == xs + more;
    assert Step(vol, None, xs, 160) == Some((xs + more, 0));
  }

  lemma {:induction false} OpenRebuild(vol: MetaVolume, xs: seq<Xtnt>, more: seq<Xtnt>, hops: nat)
    requires vol == OpenVolume() && hops == 0
    requires xs == [Xtnt(0, 1600)] && more == [Xtnt(3, 3200), Xtnt(10, XTNT_TERM)]
    ensures Build(vol, Some(xs + more), xs, 160, hops).entries == xs
  {
    OpenEndMoves(xs, more);
    assert Step(vol, Some(xs + more), xs, 160) == None;
  }

  /** Through the finished map, page 5 is looked for where nothing can be read, and
      rebuilding loses the overflow entries. */
  lemma {:induction false} OpenBootstrapIsNoFixpoint(vol: MetaVolume, pg0: BmtPage)
    requires vol == OpenVolume() && pg0 == OpenPrimary()
    ensures MetaError(pg0, 0) == None
    ensures var b := MetaMap(vol, pg0, 0, None);
            |b.entries| == 3 && MetaMap(vol, pg0, 0, Some(b.entries)).entries == [Xtnt(0, 1600)]
  {
    var xs, more := [Xtnt(0, 1600)], [Xtnt(3, 3200), Xtnt(10, XTNT_TERM)];
    assert Extend([], Clamped(OpenRecord().xtnts, 1)) == xs;
    OpenFirstBuild(vol, xs, more, 0);
    OpenRebuild(vol, xs, more, 0);
  }
}
