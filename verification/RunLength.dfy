/** The simple form that the interleaver's fast form refines: describe every
    file page by itself, and join a page to the previous entry whenever that
    entry already describes it. */
module RunLength {
  import opened Ods
  import opened Extents
  import opened Runs

  /** One page: a hole of some kind, or data at an (unbounded) block. */
  datatype Desc = Hole(kind: uint32, vd: uint32) | Data(vd: uint32, blk: nat)

  /** A whole file, page by page. */
  type Pages = s: seq<Desc> | |s| <= UINT32_MAX && forall p :: 0 <= p < |s| && s[p].Hole? ==> IsMarker(s[p].kind)

  /** Does entry e say about page p what d says? */
  predicate Describes(e: Extent, p: int, d: Desc) {
    match d
    case Hole(kind, _) => e.vdBlk == kind
    case Data(vd, blk) => !IsMarker(e.vdBlk) && e.vdIndex == vd && BlockOf(e, p) == blk
  }

  function AsEntry(p: uint32, d: Desc): Extent {
    match d
    case Hole(kind, vd) => Extent(p, kind, vd)
    case Data(vd, blk) => Extent(p, if blk <= UINT32_MAX then blk else XTNT_TERM, vd)
  }

  /** The entries for the first n pages. */
  function Rle(ds: Pages, n: nat): (out: seq<Extent>)
    requires n <= |ds|
    ensures forall k :: 0 <= k < |out| ==> out[k].bsPage < n
    ensures n > 0 ==> out != []
  {
    if n == 0 then [] else AddPage(Rle(ds, n - 1), n - 1, ds[n - 1])
  }

  function AddPage(out: seq<Extent>, p: uint32, d: Desc): seq<Extent> {
    if out != [] && Describes(out[|out| - 1], p, d) then out else out + [AsEntry(p, d)]
  }

  /** Page descriptions d, d' of consecutive pages belong to one run. */
  predicate Continues(d: Desc, d': Desc) {
    match d
    case Hole(kind, _) => d'.Hole? && d'.kind == kind
    case Data(vd, blk) => d' == Data(vd, blk + 16)
  }

  /** First page of the longest run that ends at page p. */
  function Head(ds: Pages, p: nat): (h: nat)
    requires p < |ds|
    ensures h <= p
  {
    if p == 0 || !Continues(ds[p - 1], ds[p]) then p else Head(ds, p - 1)
  }

  /** `start` marks every page that does not continue its predecessor. */
  ghost predicate Pieces(ds: Pages, start: seq<bool>) {
    && |start| == |ds|
    && (ds != [] ==> start[0])
    && forall p {:trigger start[p]} :: 0 < p < |ds| && !start[p] ==> Continues(ds[p - 1], ds[p])
  }

  /** A marked page with data must start below the two sentinel block numbers. */
  predicate Fit(ds: Pages, start: seq<bool>, p: nat)
    requires p < |ds| == |start|
  {
    start[p] && ds[p].Data? ==> ds[p].blk < PERM_HOLE
  }

  ghost predicate Fits(ds: Pages, start: seq<bool>, n: nat)
    requires n <= |ds| == |start|
  {
    forall p :: 0 <= p < n ==> Fit(ds, start, p)
  }

  lemma {:induction false} DescribesNext(e: Extent, p: int, d: Desc, d': Desc)
    requires (d.Hole? ==> IsMarker(d.kind)) && (d'.Hole? ==> IsMarker(d'.kind))
    requires Describes(e, p, d)
    ensures Describes(e, p + 1, d') <==> Continues(d, d')
  {
  }

  lemma {:induction false} AsEntryDescribes(p: uint32, d: Desc)
    requires if d.Hole? then IsMarker(d.kind) else d.blk < PERM_HOLE
    ensures Describes(AsEntry(p, d), p, d)
  {
  }

  function Last(out: seq<Extent>): Extent
    requires out != []
  {
    out[|out| - 1]
  }

  /** While the pieces fit, the last entry describes the last page and starts,
      with its description, at the head of that page's run. */
  lemma {:induction false} RleLast(ds: Pages, start: seq<bool>, p: nat)
    requires p < |ds| && Pieces(ds, start) && Fits(ds, start, p + 1)
    ensures Describes(Last(Rle(ds, p + 1)), p, ds[p])
    ensures Last(Rle(ds, p + 1)) == AsEntry(Head(ds, p), ds[Head(ds, p)])
  {
    if p > 0 {
      RleLast(ds, start, p - 1);
      DescribesNext(Last(Rle(ds, p)), p - 1, ds[p - 1], ds[p]);
    }
    if Head(ds, p) == p {
      assert start[p] && Fit(ds, start, p);
      AsEntryDescribes(p, ds[p]);
    }
  }

  lemma {:induction false} RleExtends(ds: Pages, m: nat, n: nat)
    requires m <= n <= |ds|
    ensures |Rle(ds, m)| <= |Rle(ds, n)| && Rle(ds, m) == Rle(ds, n)[..|Rle(ds, m)|]
    ensures forall k :: |Rle(ds, m)| <= k < |Rle(ds, n)| ==> Rle(ds, n)[k].bsPage >= m
    decreases n - m
  {
    if m < n {
      RleExtends(ds, m, n - 1);
    }
  }

  /** The plan's runs are the pieces between marked pages. */
  ghost predicate Follows(plan: Plan, ds: Pages, start: seq<bool>)
    requires |plan| == |ds| == |start|
  {
    forall f {:trigger plan[f]} :: 0 <= f < |plan| && start[f] ==>
      && plan[f].blk == AsEntry(f, ds[f]).vdBlk && plan[f].vd == AsEntry(f, ds[f]).vdIndex
      && (f + plan[f].len < |plan| ==> start[f + plan[f].len])
      && forall q :: f < q < f + plan[f].len && q < |plan| ==> !start[q]
  }

  /** An unmarked page adds no entry. */
  lemma {:induction false} RleJoins(ds: Pages, start: seq<bool>, p: nat)
    requires 0 < p < |ds| && Pieces(ds, start) && Fits(ds, start, p) && !start[p]
    ensures Rle(ds, p + 1) == Rle(ds, p)
  {
    RleLast(ds, start, p - 1);
    DescribesNext(Last(Rle(ds, p)), p - 1, ds[p - 1], ds[p]);
  }

  /** No piece starts strictly between f and g. */
  predicate Interior(start: seq<bool>, f: nat, g: nat)
    requires g <= |start|
  {
    forall q :: f < q < g ==> !start[q]
  }

  lemma {:induction false} FitsOneMore(ds: Pages, start: seq<bool>, p: nat)
    requires p < |ds| == |start| && Fits(ds, start, p) && !start[p]
    ensures Fits(ds, start, p + 1)
  {
  }

  /** Inside one piece the run-length form does not grow. */
  lemma {:induction false} RleWithinPiece(ds: Pages, start: seq<bool>, f: nat, g: nat)
    requires f < g <= |ds| && Pieces(ds, start) && Fits(ds, start, f + 1) && Interior(start, f, g)
    ensures Fits(ds, start, g) && Rle(ds, g) == Rle(ds, f + 1)
  {
    if g > f + 1 {
      RleWithinPiece(ds, start, f, g - 1);
      FitsOneMore(ds, start, g - 1);
      RleJoins(ds, start, g - 1);
    }
  }

  lemma {:induction false} RunIsPage(plan: Plan, ds: Pages, start: seq<bool>, f: nat)
    requires f < |ds| == |plan| && Pieces(ds, start) && Fits(ds, start, f + 1)
    requires start[f] && Follows(plan, ds, start)
    ensures Emit(Rle(ds, f), f, plan[f]) == Rle(ds, f + 1)
  {
    assert Fit(ds, start, f);
  }

  lemma {:induction false} PieceIsEmit(plan: Plan, ds: Pages, start: seq<bool>, f: nat)
    requires f < |ds| && Advances(plan, |ds|) && Pieces(ds, start) && Fits(ds, start, f + 1)
    requires start[f] && Follows(plan, ds, start)
    ensures Fits(ds, start, f + plan[f].len)
    ensures Emit(Rle(ds, f), f, plan[f]) == Rle(ds, f + plan[f].len)
  {
    RunIsPage(plan, ds, start, f);
    RleWithinPiece(ds, start, f, f + plan[f].len);
  }

  /** Up to any marked page before which all pieces fit, the fast form has
      produced the simple form. */
  lemma {:induction false} FlattenReaches(plan: Plan, ds: Pages, start: seq<bool>, f: nat, g: nat)
    requires Advances(plan, |ds|) && Pieces(ds, start) && Follows(plan, ds, start) && g <= |ds|
    requires Fits(ds, start, g)
    requires f <= g && (f == |ds| || start[f]) && (g == |ds| || start[g])
    ensures Flatten(plan, |ds|, f, Rle(ds, f)) == Flatten(plan, |ds|, g, Rle(ds, g))
    decreases g - f
  {
    if f < g {
      PieceIsEmit(plan, ds, start, f);
      FlattenReaches(plan, ds, start, f + plan[f].len, g);
    }
  }

  /** In the map `flat`, the entry that serves page p is the last one of its prefix `out`. */
  ghost predicate Serves(flat: seq<Extent>, out: seq<Extent>, p: nat) {
    && 0 < |out| < |flat| && out == flat[..|out|] && Last(out).bsPage <= p
    && forall k :: |out| <= k < |flat| ==> flat[k].bsPage > p
  }

  lemma {:induction false} FlattenIsRle(plan: Plan, ds: Pages, start: seq<bool>)
    requires Advances(plan, |ds|) && Pieces(ds, start) && Follows(plan, ds, start)
    requires Fits(ds, start, |ds|)
    ensures Flatten(plan, |ds|, 0, []) == Rle(ds, |ds|) + [Extent(|ds|, XTNT_TERM, 0)]
  {
    FlattenReaches(plan, ds, start, 0, |ds|);
  }

  lemma {:induction false} RleServes(ds: Pages, p: nat)
    requires p < |ds|
    ensures Serves(Rle(ds, |ds|) + [Extent(|ds|, XTNT_TERM, 0)], Rle(ds, p + 1), p)
  {
    RleExtends(ds, p + 1, |ds|);
    PrefixServes(Rle(ds, |ds|), Rle(ds, p + 1), |ds|, p);
  }

  lemma {:induction false} PrefixServes(body: seq<Extent>, out: seq<Extent>, total: uint32, p: nat)
    requires 0 < |out| <= |body| && out == body[..|out|] && Last(out).bsPage <= p < total
    requires forall k :: |out| <= k < |body| ==> body[k].bsPage > p
    ensures Serves(body + [Extent(total, XTNT_TERM, 0)], out, p)
  {
  }

  /** A piece that does not fit is emitted as a marker. */
  lemma {:induction false} MisfitEmit(plan: Plan, ds: Pages, start: seq<bool>, g: nat)
    requires g < |ds| == |plan| == |start| && Follows(plan, ds, start) && !Fit(ds, start, g)
    ensures var out := Emit(Rle(ds, g), g, plan[g]);
            out != [] && Last(out).bsPage <= g
            && Last(out).vdBlk == (if ds[g].blk == PERM_HOLE then PERM_HOLE else XTNT_TERM)
  {
    assert plan[g].blk == AsEntry(g, ds[g]).vdBlk;
  }

  lemma {:induction false} EmitServes(plan: Plan, total: uint32, g: uint32, prev: seq<Extent>)
    requires g < total && Advances(plan, total)
    requires var out := Emit(prev, g, plan[g]); out != [] && Last(out).bsPage <= g
    ensures Serves(Flatten(plan, total, g, prev), Emit(prev, g, plan[g]), g)
  {
    FlattenExtends(plan, total, g + plan[g].len, Emit(prev, g, plan[g]));
  }

  lemma {:induction false} MisfitServes(plan: Plan, ds: Pages, start: seq<bool>, g: nat)
    requires Advances(plan, |ds|) && Pieces(ds, start) && Follows(plan, ds, start)
    requires g < |ds| && !Fit(ds, start, g) && Fits(ds, start, g)
    ensures Serves(Flatten(plan, |ds|, 0, []), Emit(Rle(ds, g), g, plan[g]), g)
  {
    FlattenReaches(plan, ds, start, 0, g);
    MisfitEmit(plan, ds, start, g);
    EmitServes(plan, |ds|, g, Rle(ds, g));
  }
}
