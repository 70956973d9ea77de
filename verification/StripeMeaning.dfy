/** The file page by page: what the interleaver sees of each page of sorted columns,
    where its pieces start, and that it emits exactly those pieces. */
module StripeMeaning {
  import opened Ods
  import opened Boundary
  import opened Extents
  import opened Placement
  import opened Runs
  import opened RunLength
  import opened Stripe

  // ---- canonical output, for any columns ----

  /** For any columns at all, the output is sorted, starts at page 0, has no two
      neighbours that could be one entry, and counts exactly `total` pages. */
  lemma {:induction false} FlatMapCanonical(s: Stripe, total: uint32)
    requires s.Valid()
    ensures exists body :: Canonical(body, total) && FlatMap(s, total) == body + [Extent(total, XTNT_TERM, 0)]
    ensures Terminated(FlatMap(s, total)) && PageCount(FlatMap(s, total)) == total
  {
    FlattenCanonical(PlanOf(s, total), total, 0, []);
    var body :| Canonical(body, total) && FlatMap(s, total) == body + [Extent(total, XTNT_TERM, 0)];
    FlatPageCount(body, total);
  }

  // ---- sorted columns ----

  predicate WellFormed(s: Stripe) {
    s.Valid() && forall c :: 0 <= c < |s.cols| ==> Sorted(Starts(s.cols[c]))
  }

  /** Index of the entry that holds a column page, or -1 before the first entry. */
  function Holder(ce: seq<Extent>, xm: nat): int {
    FirstCover(Starts(ce), xm)
  }

  lemma {:induction false} HolderIs(ce: seq<Extent>, i: nat, xm: nat)
    requires Sorted(Starts(ce)) && Covers(Starts(ce), i, xm)
    ensures Holder(ce, xm) == i
  {
    CoverUnique(Starts(ce), i, xm);
  }

  /** A column holds nothing before its first entry and everything from there on. */
  predicate Reached(ce: seq<Extent>, xm: nat) {
    ce != [] && ce[0].bsPage <= xm
  }

  lemma {:induction false} HolderExists(ce: seq<Extent>, xm: nat)
    requires Sorted(Starts(ce))
    ensures Holder(ce, xm) >= 0 <==> Reached(ce, xm)
  {
    FirstCoverIsLast(Starts(ce), xm);
    if Holder(ce, xm) >= 0 {
      assert Starts(ce)[0] <= Starts(ce)[Holder(ce, xm)];
    }
  }

  /** One column page, with its block as an unbounded number. */
  function DescAt(ce: seq<Extent>, xm: nat): (d: Desc)
    ensures d.Hole? ==> IsMarker(d.kind)
  {
    var i := Holder(ce, xm);
    if i < 0 then Hole(XTNT_TERM, 0)
    else if IsMarker(ce[i].vdBlk) then Hole(ce[i].vdBlk, ce[i].vdIndex)
    else Data(ce[i].vdIndex, BlockOf(ce[i], xm))
  }

  /** Does a piece (the part of a column entry inside one segment) start here? */
  predicate StartsPiece(ce: seq<Extent>, xm: nat) {
    var i := Holder(ce, xm);
    i >= 0 && ce[i].bsPage == xm
  }

  lemma {:induction false} DescContinues(ce: seq<Extent>, xm: nat)
    requires Sorted(Starts(ce)) && !StartsPiece(ce, xm + 1)
    ensures Continues(DescAt(ce, xm), DescAt(ce, xm + 1))
  {
    HolderExists(ce, xm + 1);
    HolderExists(ce, xm);
    if Reached(ce, xm + 1) {
      HolderIs(ce, Holder(ce, xm + 1), xm);
    }
  }

  /** A probed run stays inside one entry, and ends where the next one starts. */
  lemma {:induction false} ProbeSpans(ce: seq<Extent>, xm: uint32, k: nat)
    requires Sorted(Starts(ce)) && Reached(ce, xm) && xm < UINT32_MAX && 0 < k && xm + k < UINT32_MAX
    ensures k < ProbeAt(ce, xm).run ==> !StartsPiece(ce, xm + k)
    ensures k == ProbeAt(ce, xm).run ==> StartsPiece(ce, xm + k)
  {
    HolderExists(ce, xm);
    HolderExists(ce, xm + k);
    var i := Holder(ce, xm);
    if k < ProbeAt(ce, xm).run {
      HolderIs(ce, i, xm + k);
    } else if k == ProbeAt(ce, xm).run {
      var j := Holder(ce, xm + k);
      FirstCoverIsLast(Starts(ce), xm + k);
      assert j >= i + 1;
      assert Starts(ce)[i + 1] <= Starts(ce)[j];
    }
  }

  /** Before the first entry a probe sees an unlimited hole. */
  lemma {:induction false} ProbeBefore(ce: seq<Extent>, xm: uint32)
    requires Sorted(Starts(ce)) && !Reached(ce, xm)
    ensures ProbeAt(ce, xm) == Probe(XTNT_TERM, 0, UINT32_MAX)
  {
    HolderExists(ce, xm);
  }

  lemma {:induction false} ProbeIsDesc(ce: seq<Extent>, xm: uint32)
    requires xm < UINT32_MAX
    ensures ProbeAt(ce, xm).blk == AsEntry(0, DescAt(ce, xm)).vdBlk
    ensures ProbeAt(ce, xm).vd == AsEntry(0, DescAt(ce, xm)).vdIndex
  {
  }

  // ---- the file, page by page ----

  lemma {:induction false} XmAdvances(f: nat, k: nat, seg: nat, n: nat)
    requires seg > 0 && n > 0 && f % seg + k < seg
    ensures (f + k) % seg == f % seg + k
    ensures ColOf(f + k, seg, n) == ColOf(f, seg, n) && XmOf(f + k, seg, n) == XmOf(f, seg, n) + k
  {
    DivMod(f, seg);
    DivModUnique(f + k, f / seg, f % seg + k, seg);
  }

  lemma {:induction false} SegmentEnds(f: nat, seg: nat)
    requires seg > 0
    ensures (f + (seg - f % seg)) % seg == 0
  {
    DivMod(f, seg);
    MulSucc(f / seg, seg);
    DivModUnique(f + (seg - f % seg), f / seg + 1, 0, seg);
  }

  /** Column page at which the segment of file page f begins. */
  function SegmentStart(s: Stripe, f: nat): nat
    requires s.Valid()
  {
    s.Xm(f) - f % s.seg
  }

  /** The column's first entry starts inside this segment, not at its beginning, and
      at or before this page: the unlimited hole probed at the beginning hides it. */
  predicate Hidden(s: Stripe, f: nat)
    requires s.Valid()
  {
    Reached(s.MapOf(f), s.Xm(f)) && !Reached(s.MapOf(f), SegmentStart(s, f))
  }

  /** What the interleaver sees of a file page. */
  function DescOf(s: Stripe, f: nat): (d: Desc)
    requires s.Valid()
    ensures d.Hole? ==> IsMarker(d.kind)
  {
    if Hidden(s, f) then Hole(XTNT_TERM, 0) else DescAt(s.MapOf(f), s.Xm(f))
  }

  function PagesOf(s: Stripe, total: uint32): (ds: Pages)
    requires s.Valid()
    ensures |ds| == total
    ensures forall f :: 0 <= f < total ==> ds[f] == DescOf(s, f)
  {
    seq(total, f requires 0 <= f < total => DescOf(s, f))
  }

  predicate Start(s: Stripe, f: nat)
    requires s.Valid()
  {
    f % s.seg == 0 || (!Hidden(s, f) && StartsPiece(s.MapOf(f), s.Xm(f)))
  }

  function StartsOf(s: Stripe, total: uint32): (start: seq<bool>)
    requires s.Valid()
    ensures |start| == total
    ensures forall f :: 0 <= f < total ==> start[f] == Start(s, f)
  {
    seq(total, f requires 0 <= f < total => Start(s, f))
  }

  lemma {:induction false} PagesInPieces(s: Stripe, total: uint32)
    requires WellFormed(s)
    ensures Pieces(PagesOf(s, total), StartsOf(s, total))
  {
    var ds, start := PagesOf(s, total), StartsOf(s, total);
    assert 0 % s.seg == 0;
    forall p | 0 < p < total && !start[p] ensures Continues(ds[p - 1], ds[p]) {
      PageContinues(s, p);
    }
  }

  lemma {:induction false} PageContinues(s: Stripe, p: nat)
    requires WellFormed(s) && 0 < p && !Start(s, p)
    ensures Continues(DescOf(s, p - 1), DescOf(s, p))
  {
    DivMod(p - 1, s.seg);
    if (p - 1) % s.seg == s.seg - 1 {
      SegmentEnds(p - 1, s.seg);
    }
    XmAdvances(p - 1, 1, s.seg, |s.cols|);
    var ce, xm := s.MapOf(p - 1), s.Xm(p - 1);
    HolderExists(ce, xm);
    HolderExists(ce, xm + 1);
    if !Hidden(s, p) {
      DescContinues(ce, xm);
    }
  }

  /** From a start on: the run's interior holds no start; its end is one. */
  lemma {:induction false} RunSpans(s: Stripe, total: uint32, f: uint32, k: nat)
    requires WellFormed(s) && f < total && Start(s, f) && 0 < k && f + k < total
    ensures k < RunAt(s, total, f).len ==> !Start(s, f + k)
    ensures k == RunAt(s, total, f).len ==> Start(s, f + k)
  {
    DivMod(f, s.seg);
    if f % s.seg + k < s.seg {
      RunInSegment(s, total, f, k);
    } else if k == s.seg - f % s.seg {
      SegmentEnds(f, s.seg);
    }
  }

  lemma {:induction false} RunInSegment(s: Stripe, total: uint32, f: uint32, k: nat)
    requires WellFormed(s) && f < total && Start(s, f) && 0 < k && f + k < total && f % s.seg + k < s.seg
    ensures k < RunAt(s, total, f).len ==> !Start(s, f + k)
    ensures k == RunAt(s, total, f).len ==> Start(s, f + k)
  {
    XmAdvances(f, k, s.seg, |s.cols|);
    var ce, xm := s.MapOf(f), s.Xm(f);
    HolderExists(ce, xm);
    HolderExists(ce, xm + k);
    if Reached(ce, xm) {
      ProbeSpans(ce, xm, k);
    } else {
      ProbeBefore(ce, xm);
    }
  }

  lemma {:induction false} RunFollows(s: Stripe, total: uint32, f: uint32)
    requires WellFormed(s) && f < total && Start(s, f)
    ensures var r := RunAt(s, total, f);
            && r.blk == AsEntry(f, DescOf(s, f)).vdBlk && r.vd == AsEntry(f, DescOf(s, f)).vdIndex
            && (f + r.len < total ==> Start(s, f + r.len))
            && forall q :: f < q < f + r.len && q < total ==> !Start(s, q)
  {
    var n := RunAt(s, total, f).len;
    StartIsSeen(s, f);
    ProbeIsDesc(s.MapOf(f), s.Xm(f));
    if f + n < total {
      RunSpans(s, total, f, n);
    }
    forall q | f < q < f + n && q < total ensures !Start(s, q) {
      RunSpans(s, total, f, q - f);
    }
  }

  /** No piece starts at a hidden page. */
  lemma {:induction false} StartIsSeen(s: Stripe, f: nat)
    requires s.Valid() && Start(s, f)
    ensures !Hidden(s, f)
  {
  }

  lemma {:induction false} PlanFollows(s: Stripe, total: uint32)
    requires WellFormed(s)
    ensures Follows(PlanOf(s, total), PagesOf(s, total), StartsOf(s, total))
  {
    forall f: uint32 | f < total && Start(s, f)
      ensures var r := RunAt(s, total, f);
              && r.blk == AsEntry(f, DescOf(s, f)).vdBlk && r.vd == AsEntry(f, DescOf(s, f)).vdIndex
              && (f + r.len < total ==> Start(s, f + r.len))
              && forall q :: f < q < f + r.len && q < total ==> !Start(s, q)
    {
      RunFollows(s, total, f);
    }
  }
}
