/** How large the interleaved map gets, what reading it amounts to for a
    well-built file, and inputs outside the well-formed ones. */
module StripeLimits {
  import opened Ods
  import opened Boundary
  import opened Extents
  import opened Placement
  import opened Runs
  import opened RunLength
  import opened Stripe
  import opened StripeMeaning
  import opened StripeFaithful

  // ---- size of the output ----

  function CeilDiv(a: nat, b: nat): nat
    requires b > 0
  {
    if a % b == 0 then a / b else a / b + 1
  }

  lemma {:induction false} CeilDivSucc(a: nat, b: nat)
    requires b > 0
    ensures CeilDiv(a + 1, b) == CeilDiv(a, b) + (if a % b == 0 then 1 else 0)
  {
    DivMod(a, b);
    if a % b + 1 < b {
      DivModUnique(a + 1, a / b, a % b + 1, b);
    } else {
      MulSucc(a / b, b);
      DivModUnique(a + 1, a / b + 1, 0, b);
    }
  }

  function EntryCount(cols: seq<seq<Extent>>): nat {
    if cols == [] then 0 else EntryCount(cols[..|cols| - 1]) + |cols[|cols| - 1]|
  }

  function ColumnEntryPages(s: Stripe, c: nat): (pages: seq<nat>)
    requires s.Valid() && c < |s.cols|
    ensures |pages| == |s.cols[c]|
    ensures forall i :: 0 <= i < |pages| ==> pages[i] == FilePageOf(c, s.cols[c][i].bsPage, s.seg, |s.cols|)
  {
    seq(|s.cols[c]|, i requires 0 <= i < |s.cols[c]| => FilePageOf(c, s.cols[c][i].bsPage, s.seg, |s.cols|))
  }

  /** File pages at which the entries of the first `upTo` columns start. */
  function EntryPages(s: Stripe, upTo: nat): seq<nat>
    requires s.Valid() && upTo <= |s.cols|
  {
    if upTo == 0 then [] else EntryPages(s, upTo - 1) + ColumnEntryPages(s, upTo - 1)
  }

  lemma {:induction false} EntryPagesCount(s: Stripe, upTo: nat)
    requires s.Valid() && upTo <= |s.cols|
    ensures |EntryPages(s, upTo)| == EntryCount(s.cols[..upTo])
  {
    if upTo > 0 {
      EntryPagesCount(s, upTo - 1);
      assert s.cols[..upTo][..upTo - 1] == s.cols[..upTo - 1];
    }
  }

  lemma {:induction false} EntryPagesHave(s: Stripe, upTo: nat, c: nat, i: nat)
    requires s.Valid() && c < upTo <= |s.cols| && i < |s.cols[c]|
    ensures FilePageOf(c, s.cols[c][i].bsPage, s.seg, |s.cols|) in EntryPages(s, upTo)
  {
    if c < upTo - 1 {
      EntryPagesHave(s, upTo - 1, c, i);
    } else {
      assert ColumnEntryPages(s, c)[i] in ColumnEntryPages(s, c);
    }
  }

  /** Occurrences at or after page lo. */
  function Hits(pages: seq<nat>, lo: nat): (h: nat)
    ensures h <= |pages|
  {
    if pages == [] then 0
    else Hits(pages[..|pages| - 1], lo) + (if pages[|pages| - 1] >= lo then 1 else 0)
  }

  lemma {:induction false} HitsStep(pages: seq<nat>, lo: nat)
    ensures Hits(pages, lo + 1) + (if lo in pages then 1 else 0) <= Hits(pages, lo)
  {
    if pages != [] {
      var rest := pages[..|pages| - 1];
      assert pages == rest + [pages[|pages| - 1]];
      HitsStep(rest, lo);
    }
  }

  /** A run can only start at a segment boundary or where an entry starts. */
  predicate Mark(s: Stripe, f: nat)
    requires s.Valid()
  {
    f % s.seg == 0 || exists i :: 0 <= i < |s.MapOf(f)| && s.MapOf(f)[i].bsPage == s.Xm(f)
  }

  function MarksOf(s: Stripe, total: uint32): (marks: seq<bool>)
    requires s.Valid()
    ensures |marks| == total
    ensures forall f :: 0 <= f < total ==> marks[f] == Mark(s, f)
  {
    seq(total, f requires 0 <= f < total => Mark(s, f))
  }

  lemma {:induction false} MarkIsEntryPage(s: Stripe, f: nat)
    requires s.Valid() && Mark(s, f) && f % s.seg != 0
    ensures f in EntryPages(s, |s.cols|)
  {
    var i :| 0 <= i < |s.MapOf(f)| && s.MapOf(f)[i].bsPage == s.Xm(f);
    FilePageOfPlace(f, s.seg, |s.cols|);
    EntryPagesHave(s, |s.cols|, s.Col(f), i);
  }

  lemma {:induction false} MarksBounded(s: Stripe, total: uint32, lo: nat)
    requires s.Valid() && lo <= total
    ensures CountMarks(MarksOf(s, total), lo) + CeilDiv(lo, s.seg)
            <= CeilDiv(total, s.seg) + Hits(EntryPages(s, |s.cols|), lo)
    decreases total - lo
  {
    if lo < total {
      MarksBounded(s, total, lo + 1);
      CeilDivSucc(lo, s.seg);
      HitsStep(EntryPages(s, |s.cols|), lo);
      if Mark(s, lo) && lo % s.seg != 0 {
        MarkIsEntryPage(s, lo);
      }
    }
  }

  lemma {:induction false} ProbeEndsAtEntry(ce: seq<Extent>, xm: uint32)
    requires xm + ProbeAt(ce, xm).run < UINT32_MAX
    ensures exists i :: 0 <= i < |ce| && ce[i].bsPage == xm + ProbeAt(ce, xm).run
  {
    var i := FirstCover(Starts(ce), xm);
    assert ce[i + 1].bsPage == xm + ProbeAt(ce, xm).run;
  }

  /** Shape of a run: either it ends its segment, or its probe ends with it. */
  lemma {:induction false} RunShape(s: Stripe, total: uint32, f: uint32, n: nat)
    requires s.Valid() && f < total && n == RunAt(s, total, f).len && f + n < total
    ensures f % s.seg + n <= s.seg
    ensures f % s.seg + n < s.seg ==> n == ProbeAt(s.MapOf(f), s.Xm(f)).run
  {
  }

  lemma {:induction false} RunEndsAtMark(s: Stripe, total: uint32, f: uint32, n: nat)
    requires s.Valid() && f < total && n == RunAt(s, total, f).len && f + n < total
    ensures Mark(s, f + n)
  {
    RunShape(s, total, f, n);
    if f % s.seg + n < s.seg {
      XmAdvances(f, n, s.seg, |s.cols|);
      ProbeEndsAtEntry(s.MapOf(f), s.Xm(f));
      var i :| 0 <= i < |s.MapOf(f)| && s.MapOf(f)[i].bsPage == s.Xm(f) + n;
      assert s.MapOf(f + n)[i].bsPage == s.Xm(f + n);
    } else {
      SegmentEnds(f, s.seg);
    }
  }

  /** For any columns at all, the map has at most one entry per segment and per
      column entry, plus the terminator: with that capacity, no overflow. */
  lemma {:induction false} FlatMapFits(s: Stripe, total: uint32)
    requires s.Valid()
    ensures |FlatMap(s, total)| <= CeilDiv(total, s.seg) + EntryCount(s.cols) + 1
  {
    var plan, marks := PlanOf(s, total), MarksOf(s, total);
    forall g | 0 <= g < total && marks[g] && g + plan[g].len < total ensures marks[g + plan[g].len] {
      RunEndsAtMark(s, total, g, plan[g].len);
    }
    assert 0 % s.seg == 0 && CeilDiv(0, s.seg) == 0;
    FlattenSize(plan, total, marks, 0, []);
    MarksBounded(s, total, 0);
    EntryPagesCount(s, |s.cols|);
    assert s.cols[..|s.cols|] == s.cols;
  }

  // ---- a well-built file ----

  /** A column as the allocator writes it: well-formed, closed by a TERM, and with
      no mapped entry at its end. */
  predicate Closed(ce: seq<Extent>) {
    Terminated(ce) && !HasEmptyTail(ce)
  }

  lemma {:induction false} ColumnReadsItself(s: Stripe, p: nat)
    requires s.Valid() && Closed(s.MapOf(p)) && s.Xm(p) < PageCount(s.MapOf(p))
    ensures ColumnView(s, p) == View(s.MapOf(p), s.Xm(p))
  {
    PageCountOfTerminated(s.MapOf(p));
    AbsentFromTerm(s.MapOf(p), s.Xm(p));
  }

  lemma {:induction false} ClosedIsFaithful(s: Stripe)
    requires s.Valid() && NoStub(s) && forall c :: 0 <= c < |s.cols| ==> Closed(s.cols[c])
    requires Total(s) <= UINT32_MAX && PiecesFit(s, Total(s))
    ensures Faithful(s, Total(s))
  {
    assert WellFormed(s);
    FaithfulWithoutStubs(s, Total(s));
  }

  /** Closed, balanced, stub-free columns whose pieces fit. */
  predicate WellBuilt(s: Stripe)
    requires s.Valid()
  {
    && NoStub(s) && (forall c :: 0 <= c < |s.cols| ==> Closed(s.cols[c]))
    && Balanced(Counts(s.cols), s.seg) && Total(s) <= UINT32_MAX && PiecesFit(s, Total(s))
  }

  lemma {:induction false} BelowTotalReads(s: Stripe, p: uint32)
    requires s.Valid() && WellBuilt(s) && p < Total(s)
    ensures s.Xm(p) < PageCount(s.MapOf(p))
    ensures View(FlatMap(s, Total(s)), p) == View(s.MapOf(p), s.Xm(p))
  {
    assert WellFormed(s);
    PlacedInShare(p, Sum(Counts(s.cols)), s.seg, |s.cols|);
    ColumnReadsItself(s, p);
    ClosedIsFaithful(s);
  }

  /** Every page of every column of a well-built file is a page of the flat map, and the
      flat map says of it what its column says. */
  lemma {:induction false} ColumnPageIsServed(s: Stripe, c: nat, xm: nat, f: nat)
    requires s.Valid() && WellBuilt(s) && c < |s.cols| && xm < PageCount(s.cols[c])
    requires f == FilePageOf(c, xm, s.seg, |s.cols|)
    ensures f < PageCount(FlatMap(s, Total(s))) && View(FlatMap(s, Total(s)), f) == View(s.cols[c], xm)
  {
    ConservationExact(Counts(s.cols), s.seg);
    assert xm < Counts(s.cols)[c];
    PlaceOfFilePage(c, xm, s.seg, |s.cols|);
    FlatMapCanonical(s, Total(s));
    BelowTotalReads(s, f);
  }

  /** For well-built columns, file page p is a page of the flat map exactly if page Xm(p) is
      one of column Col(p), and reads as that page. */
  lemma {:induction false} StripedReadIsColumnRead(s: Stripe, p: uint32)
    requires s.Valid() && WellBuilt(s)
    ensures p < PageCount(FlatMap(s, Total(s))) <==> s.Xm(p) < PageCount(s.MapOf(p))
    ensures s.Xm(p) < PageCount(s.MapOf(p)) ==> View(FlatMap(s, Total(s)), p) == View(s.MapOf(p), s.Xm(p))
  {
    if s.Xm(p) < PageCount(s.MapOf(p)) {
      FilePageOfPlace(p, s.seg, |s.cols|);
      ColumnPageIsServed(s, s.Col(p), s.Xm(p), p);
    } else {
      FlatMapCanonical(s, Total(s));
      if p < Total(s) {
        BelowTotalReads(s, p);
        assert false;
      }
    }
  }

  // ---- outside the hypotheses ----

  /** A stub page whose file predecessor has the same block is served wrong. */
  lemma {:induction false} CutStubIsUnfaithful(s: Stripe, total: uint32, p: nat)
    requires WellFormed(s) && 0 < p < total && DescOf(s, p) == DescOf(s, p - 1) && DescOf(s, p).Data?
    requires 0 < DescOf(s, p).blk <= UINT32_MAX
    requires s.MapOf(p)[Holder(s.MapOf(p), s.Xm(p))].vdBlk == 0
    ensures !Faithful(s, total)
  {
    var ds := PagesOf(s, total);
    assert !Continues(ds[p - 1], ds[p]);
    assert Head(ds, p) == p;
    assert !StubKeepsHead(s, total, p);
    FaithfulExactly(s, total);
  }

  /** Two single-page-segment columns that are block-0 clone stubs of two pages. */
  predicate TwoStubs(s: Stripe) {
    var column := [Extent(0, 0, 1), Extent(2, XTNT_TERM, 1)];
    s == Stripe([column, column], 1)
  }

  lemma {:induction false} StubPage(s: Stripe, p: nat)
    requires TwoStubs(s) && p < 4
    ensures DescOf(s, p) == Data(1, 16 * (p / 2))
    ensures s.MapOf(p)[Holder(s.MapOf(p), s.Xm(p))].vdBlk == 0
  {
    assert s.Xm(p) == p / 2;
    HolderIs(s.MapOf(p), 0, p / 2);
  }

  lemma {:induction false} StubsFit(s: Stripe, total: uint32)
    requires TwoStubs(s) && total == 4
    ensures WellFormed(s) && PiecesFit(s, total)
  {
    forall p | 0 <= p < total ensures Fit(PagesOf(s, total), StartsOf(s, total), p) {
      StubPage(s, p);
    }
  }

  /** Cut into single pages, page 3 of such a file is no longer recognised as a
      clone hole, although every piece fits. */
  lemma {:induction false} StubsAreNotFaithful(s: Stripe, total: uint32)
    requires TwoStubs(s) && total == 4
    ensures WellFormed(s) && PiecesFit(s, total) && !Faithful(s, total)
  {
    StubsFit(s, total);
    StubPage(s, total - 2);
    StubPage(s, total - 1);
    CutStubIsUnfaithful(s, total, total - 1);
  }

  /** A run does not reach beyond the next piece start. */
  lemma {:induction false} NextStart(plan: Plan, ds: Pages, start: seq<bool>, f: nat, g: nat)
    requires Advances(plan, |ds|) && |start| == |ds| && Follows(plan, ds, start)
    requires f < g < |ds| && start[f] && start[g]
    ensures f < f + plan[f].len <= g && start[f + plan[f].len]
  {
    assert start[g];
  }

  /** The emission loop passes through every piece start, whatever fits. */
  lemma {:induction false} FlattenVisits(plan: Plan, ds: Pages, start: seq<bool>, f: nat, g: nat, prev: seq<Extent>)
      returns (out: seq<Extent>)
    requires Advances(plan, |ds|) && |start| == |ds| && Follows(plan, ds, start)
    requires f <= g < |ds| && start[f] && start[g] && Canonical(prev, f)
    ensures Canonical(out, g) && Flatten(plan, |ds|, f, prev) == Flatten(plan, |ds|, g, out)
    decreases g - f
  {
    if f == g {
      return prev;
    }
    var f', next := f + plan[f].len, Emit(prev, f, plan[f]);
    NextStart(plan, ds, start, f, g);
    EmitCanonical(prev, f, plan[f], f');
    out := FlattenVisits(plan, ds, start, f', g, next);
  }

  /** A run of zeros is emitted as, or joins, an entry of zeros. */
  lemma {:induction false} ZeroRunEmits(prev: seq<Extent>, f: uint32, r: Run)
    requires Canonical(prev, f) && r.blk == XTNT_TERM
    ensures var out := Emit(prev, f, r); out != [] && Last(out).vdBlk == XTNT_TERM && Last(out).bsPage <= f
  {
  }

  /** All pages of a run of zeros are served as zeros. */
  lemma {:induction false} ZeroRunServes(plan: Plan, total: uint32, f: uint32, prev: seq<Extent>, p: uint32,
                                         out: seq<Extent>)
    requires f <= p < total && Advances(plan, total) && Canonical(prev, f) && out == Emit(prev, f, plan[f])
    requires plan[f].blk == XTNT_TERM && p < f + plan[f].len
    ensures Serves(Flatten(plan, total, f, prev), out, p) && EntryView(Last(out), p) == Sparse
  {
    ZeroRunEmits(prev, f, plan[f]);
    FlattenExtends(plan, total, f + plan[f].len, out);
  }

  /** The run at the beginning of a hidden page's segment is a hole that reaches it. */
  lemma {:induction false} HiddenRun(s: Stripe, total: uint32, p: uint32, f: uint32)
    requires WellFormed(s) && p < total && Hidden(s, p) && f == p - p % s.seg
    ensures Start(s, f) && RunAt(s, total, f).blk == XTNT_TERM && p < f + RunAt(s, total, f).len
  {
    var r := p % s.seg;
    DivMod(p, s.seg);
    DivModUnique(f, p / s.seg, 0, s.seg);
    XmAdvances(f, r, s.seg, |s.cols|);
    ProbeBefore(s.MapOf(f), s.Xm(f));
  }

  /** The emission loop reaches the beginning of every segment. */
  lemma {:induction false} SegmentVisited(s: Stripe, total: uint32, f: uint32) returns (out: seq<Extent>)
    requires WellFormed(s) && f < total && Start(s, f)
    ensures Canonical(out, f) && FlatMap(s, total) == Flatten(PlanOf(s, total), total, f, out)
  {
    assert 0 % s.seg == 0;
    PlanFollows(s, total);
    out := FlattenVisits(PlanOf(s, total), PagesOf(s, total), StartsOf(s, total), 0, f, []);
  }

  /** For any sorted columns: where a column starts inside a segment, the flat map
      serves its pages up to the segment's end as zeros, whatever the column maps. */
  lemma {:induction false} HiddenReadsAsZeros(s: Stripe, total: uint32, p: uint32)
    requires WellFormed(s) && p < total && Hidden(s, p)
    ensures View(FlatMap(s, total), p) == Sparse
  {
    var plan, f := PlanOf(s, total), p - p % s.seg;
    HiddenRun(s, total, p, f);
    FlatMapCanonical(s, total);
    var prev := SegmentVisited(s, total, f);
    var out := Emit(prev, f, plan[f]);
    ZeroRunServes(plan, total, f, prev, p, out);
    ServedView(FlatMap(s, total), out, p);
  }

  /** Two columns in two-page segments: the first starts at page 1 of its segment. */
  predicate LateStart(s: Stripe) {
    s == Stripe([[Extent(1, 160, 1), Extent(2, XTNT_TERM, 1)], [Extent(0, 320, 1), Extent(2, XTNT_TERM, 1)]], 2)
  }

  lemma {:induction false} LateStartSorted(s: Stripe)
    requires LateStart(s)
    ensures WellFormed(s) && NoStub(s)
  {
    forall c | 0 <= c < |s.cols| ensures Sorted(Starts(s.cols[c])) {
      assert |s.cols[c]| == 2;
    }
  }

  lemma {:induction false} LatePage(s: Stripe, p: uint32)
    requires LateStart(s) && p == 1
    ensures s.MapOf(p) == s.cols[0] && s.Xm(p) == 1 && Hidden(s, p)
  {
    assert s.Xm(p) == 1 && s.Col(p) == 0;
  }

  lemma {:induction false} LateView(s: Stripe, p: uint32, ce: seq<Extent>)
    requires s.Valid() && s.MapOf(p) == ce && s.Xm(p) == 1
    requires ce == [Extent(1, 160, 1), Extent(2, XTNT_TERM, 1)]
    ensures ColumnView(s, p) == At(1, 160)
  {
    FirstCoverIs(Starts(ce), 0, 1);
  }

  /** Its page 1 is mapped to block 160 and reads as zeros, although everything fits
      and there are no stubs. */
  lemma {:induction false} LateColumnLosesPages(s: Stripe, total: uint32, p: uint32)
    requires LateStart(s) && total == 4 && p == 1
    ensures WellFormed(s) && NoStub(s)
    ensures View(FlatMap(s, total), p) == Sparse && ColumnView(s, p) == At(1, 160)
  {
    LateStartSorted(s);
    LatePage(s, p);
    HiddenReadsAsZeros(s, total, p);
    LateView(s, p, s.cols[0]);
  }
}
