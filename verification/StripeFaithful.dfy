/** The main theorems of the stripe interleaver. */
module StripeFaithful {
  import opened Ods
  import opened Boundary
  import opened Extents
  import opened Placement
  import opened Runs
  import opened RunLength
  import opened Stripe
  import opened StripeMeaning

  // ---- refinement ----

  /** Each visible piece of a mapped column entry, cut at segment boundaries, starts
      below the two sentinel block numbers. */
  predicate PiecesFit(s: Stripe, total: uint32)
    requires s.Valid()
  {
    forall p :: 0 <= p < total ==> Fit(PagesOf(s, total), StartsOf(s, total), p)
  }

  /** The fast form refines the simple one: run by run, the interleaver builds
      the run-length form of the page-by-page description of the file. */
  lemma {:induction false} FlatMapIsRunLength(s: Stripe, total: uint32)
    requires WellFormed(s) && PiecesFit(s, total)
    ensures FlatMap(s, total) == Rle(PagesOf(s, total), total) + [Extent(total, XTNT_TERM, 0)]
  {
    var plan, ds, start := PlanOf(s, total), PagesOf(s, total), StartsOf(s, total);
    PagesInPieces(s, total);
    PlanFollows(s, total);
    FlattenIsRle(plan, ds, start);
  }

  // ---- meaning ----

  /** What the column that holds file page p says about it; a column says
      nothing beyond its own pages, which then read as zeros. */
  function ColumnView(s: Stripe, p: nat): PageView
    requires s.Valid()
  {
    var i := Holder(s.MapOf(p), s.Xm(p));
    if i < 0 then Sparse else EntryView(s.MapOf(p)[i], s.Xm(p))
  }

  /** The flat map serves every file page exactly as its column does. */
  ghost predicate Faithful(s: Stripe, total: uint32)
    requires s.Valid()
  {
    forall p: uint32 :: p < total ==> View(FlatMap(s, total), p) == ColumnView(s, p)
  }

  /** A data page belongs to a block-0 stub of its column if and only if the
      contiguous file run it lies in starts at block 0. */
  predicate StubsKeepTheirHead(s: Stripe, total: uint32)
    requires s.Valid()
  {
    forall p :: 0 <= p < total && DescOf(s, p).Data? ==> StubKeepsHead(s, total, p)
  }

  predicate StubKeepsHead(s: Stripe, total: uint32, p: nat)
    requires s.Valid() && p < total && DescOf(s, p).Data?
  {
    s.MapOf(p)[Holder(s.MapOf(p), s.Xm(p))].vdBlk == 0
    <==> AsEntry(0, DescOf(s, Head(PagesOf(s, total), p))).vdBlk == 0
  }

  /** Hidden pages, which the flat map always serves as zeros, are zeros. */
  predicate HiddenAreZeros(s: Stripe, total: uint32)
    requires s.Valid()
  {
    forall p :: 0 <= p < total && Hidden(s, p) ==> ColumnView(s, p) == Sparse
  }

  lemma {:induction false} ServedView(flat: seq<Extent>, out: seq<Extent>, p: nat)
    requires Sorted(Starts(flat)) && Serves(flat, out, p)
    ensures View(flat, p) == EntryView(Last(out), p)
  {
    assert flat[|out| - 1] == Last(out);
    CoverUnique(Starts(flat), |out| - 1, p);
  }

  lemma {:induction false} ViewByRunLength(s: Stripe, total: uint32, p: uint32)
    requires WellFormed(s) && PiecesFit(s, total) && p < total
    ensures View(FlatMap(s, total), p) == EntryView(Last(Rle(PagesOf(s, total), p + 1)), p)
  {
    FlatMapCanonical(s, total);
    FlatMapIsRunLength(s, total);
    RleServes(PagesOf(s, total), p);
    ServedView(FlatMap(s, total), Rle(PagesOf(s, total), p + 1), p);
  }

  /** While pieces fit, one page is served right exactly when it is a hidden zero page,
      or visible and its stub keeps its head. */
  lemma {:induction false} PageFaithful(s: Stripe, total: uint32, p: uint32)
    requires WellFormed(s) && PiecesFit(s, total) && p < total
    ensures View(FlatMap(s, total), p) == ColumnView(s, p)
            <==> if Hidden(s, p) then ColumnView(s, p) == Sparse
                 else DescOf(s, p).Data? ==> StubKeepsHead(s, total, p)
  {
    var ds := PagesOf(s, total);
    PagesInPieces(s, total);
    RleLast(ds, StartsOf(s, total), p);
    ViewByRunLength(s, total, p);
    var e := Last(Rle(ds, p + 1));
    assert Describes(e, p, DescOf(s, p));
    assert e.vdBlk == AsEntry(0, DescOf(s, Head(ds, p))).vdBlk;
  }

  /** The first piece that does not fit is served wrong. */
  lemma {:induction false} MisfitIsUnfaithful(s: Stripe, total: uint32, g: uint32)
    requires WellFormed(s) && g < total
    requires !Fit(PagesOf(s, total), StartsOf(s, total), g)
    requires Fits(PagesOf(s, total), StartsOf(s, total), g)
    ensures View(FlatMap(s, total), g) != ColumnView(s, g)
  {
    var plan, ds, start := PlanOf(s, total), PagesOf(s, total), StartsOf(s, total);
    FlatMapCanonical(s, total);
    PagesInPieces(s, total);
    PlanFollows(s, total);
    MisfitEmit(plan, ds, start, g);
    MisfitServes(plan, ds, start, g);
    var out := Emit(Rle(ds, g), g, plan[g]);
    ServedView(FlatMap(s, total), out, g);
    MisfitViews(s, g, Last(out));
  }

  lemma {:induction false} MisfitViews(s: Stripe, g: uint32, e: Extent)
    requires WellFormed(s) && DescOf(s, g).Data? && DescOf(s, g).blk >= PERM_HOLE && e.bsPage <= g
    requires e.vdBlk == if DescOf(s, g).blk == PERM_HOLE then PERM_HOLE else XTNT_TERM
    ensures EntryView(e, g) != ColumnView(s, g)
  {
  }

  lemma {:induction false} FirstMisfit(ds: Pages, start: seq<bool>, n: nat) returns (g: nat)
    requires n <= |ds| == |start| && !Fits(ds, start, n)
    ensures g < n && !Fit(ds, start, g) && Fits(ds, start, g)
  {
    g := 0;
    while Fit(ds, start, g)
      invariant g < n && Fits(ds, start, g)
      decreases n - g
    {
      g := g + 1;
    }
  }

  /** The interleaver preserves meaning, for sorted columns, exactly when every visible
      piece fits below the sentinels, every block-0 stub keeps its head, and, where a
      column starts inside a segment, its pages up to the segment's end are zeros. */
  lemma {:induction false} FaithfulExactly(s: Stripe, total: uint32)
    requires WellFormed(s)
    ensures Faithful(s, total)
            <==> PiecesFit(s, total) && StubsKeepTheirHead(s, total) && HiddenAreZeros(s, total)
  {
    if PiecesFit(s, total) {
      FaithfulPages(s, total);
    } else {
      var g := FirstMisfit(PagesOf(s, total), StartsOf(s, total), total);
      MisfitIsUnfaithful(s, total, g);
    }
  }

  lemma {:induction false} FaithfulPages(s: Stripe, total: uint32)
    requires WellFormed(s) && PiecesFit(s, total)
    ensures Faithful(s, total) <==> StubsKeepTheirHead(s, total) && HiddenAreZeros(s, total)
  {
    forall p: uint32 | p < total
      ensures View(FlatMap(s, total), p) == ColumnView(s, p)
              <==> if Hidden(s, p) then ColumnView(s, p) == Sparse
                   else DescOf(s, p).Data? ==> StubKeepsHead(s, total, p)
    {
      PageFaithful(s, total, p);
    }
    if Faithful(s, total) {
      forall p | 0 <= p < total && DescOf(s, p).Data? ensures StubKeepsHead(s, total, p) {
        assert View(FlatMap(s, total), p) == ColumnView(s, p);
      }
      forall p | 0 <= p < total && Hidden(s, p) ensures ColumnView(s, p) == Sparse {
        assert View(FlatMap(s, total), p) == ColumnView(s, p);
      }
    }
  }

  /** No column entry is a block-0 stub. */
  predicate NoStub(s: Stripe) {
    forall c, i :: 0 <= c < |s.cols| && 0 <= i < |s.cols[c]| ==> s.cols[c][i].vdBlk != 0
  }

  /** Without block-0 stubs, fitting pieces and hidden pages alone decide. */
  lemma {:induction false} FaithfulWithoutStubs(s: Stripe, total: uint32)
    requires WellFormed(s) && NoStub(s)
    ensures Faithful(s, total) <==> PiecesFit(s, total) && HiddenAreZeros(s, total)
  {
    FaithfulExactly(s, total);
  }

  /** Every column is empty or starts at a segment boundary, page 0 or later. */
  predicate StartsAligned(s: Stripe)
    requires s.Valid()
  {
    forall c :: 0 <= c < |s.cols| && s.cols[c] != [] ==> s.cols[c][0].bsPage % s.seg == 0
  }

  /** Which pages are hidden: those from a first entry off the segment boundaries to
      the end of that segment. */
  lemma {:induction false} HiddenExactly(s: Stripe, f: nat)
    requires s.Valid()
    ensures Hidden(s, f)
            <==> s.MapOf(f) != [] && var b := s.MapOf(f)[0].bsPage;
                 b % s.seg != 0 && b / s.seg == f / s.seg / |s.cols| && b % s.seg <= f % s.seg
  {
    DivMod(f, s.seg);
    if s.MapOf(f) != [] {
      InsideSegment(s.MapOf(f)[0].bsPage, f / s.seg / |s.cols|, f % s.seg, s.seg);
    }
  }

  /** Late but aligned columns are as good as columns that start at page 0. */
  lemma {:induction false} FaithfulWhenAligned(s: Stripe, total: uint32)
    requires WellFormed(s) && StartsAligned(s)
    ensures Faithful(s, total) <==> PiecesFit(s, total) && StubsKeepTheirHead(s, total)
  {
    FaithfulExactly(s, total);
    forall p | 0 <= p < total ensures !Hidden(s, p) {
      HiddenExactly(s, p);
    }
  }
}
