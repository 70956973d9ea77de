/** Page lookup through a collected extent map (src/extents.c): what a page of
    the bitfile means, the page reader, the column lookup of the stripe
    interleaver, and the page count. */
module Extents {
  import opened Ods
  import opened Boundary

  function Starts(xs: seq<Extent>): (s: seq<uint32>)
    ensures |s| == |xs|
    ensures forall i :: 0 <= i < |s| ==> s[i] == xs[i].bsPage
  {
    seq(|xs|, i requires 0 <= i < |xs| => xs[i].bsPage)
  }

  /** What a map says about one page. */
  datatype PageView =
    | Absent                            // beyond the map
    | CloneHole                         // served by the original fileset
    | Sparse                            // reads as zeros
    | OutOfRange                        // block does not fit 32 bits
    | At(vd: uint32, block: uint32)

  /** 64-bit block number of page p inside the run described by e. */
  function BlockOf(e: Extent, p: int): int {
    e.vdBlk + 16 * (p - e.bsPage)
  }

  function EntryView(e: Extent, p: int): PageView
    requires e.bsPage <= p
  {
    if e.vdBlk == PERM_HOLE || e.vdBlk == 0 then CloneHole
    else if e.vdBlk == XTNT_TERM then Sparse
    else if BlockOf(e, p) > UINT32_MAX then OutOfRange
    else At(e.vdIndex, BlockOf(e, p))
  }

  function View(xs: seq<Extent>, p: int): PageView {
    var i := FirstCover(Starts(xs), p);
    if i < 0 || (i == |xs| - 1 && IsMarker(xs[i].vdBlk)) then Absent
    else EntryView(xs[i], p)
  }

  /** The attached volumes: vd_index to volume, and pages of each volume. */
  datatype Store = Store(vol: uint32 -> Option<nat>, read: (nat, uint32) -> Result<Page>)

  datatype PageRead = PageRead(data: Result<Page>, hole: bool)

  /** The meaning of a page, turned into bytes. */
  function ReadPage(st: Store, xs: seq<Extent>, p: uint32): PageRead {
    if |xs| == 0 then PageRead(Err(EINVAL), false)
    else
      match View(xs, p)
      case Absent => PageRead(Err(ENOENT), false)
      case CloneHole => PageRead(Ok(ZeroPage()), true)
      case Sparse => PageRead(Ok(ZeroPage()), false)
      case OutOfRange =>
        PageRead(Err(if st.vol(xs[FirstCover(Starts(xs), p)].vdIndex).None? then ENODEV else ERANGE), false)
      case At(vd, block) =>
        match st.vol(vd)
        case None => PageRead(Err(ENODEV), false)
        case Some(v) => PageRead(st.read(v, block / 16), false)
  }

  method ReadDataCore(st: Store, xs: seq<Extent>, pageNum: uint32) returns (res: PageRead)
    ensures res == ReadPage(st, xs, pageNum)
  {
    if |xs| == 0 {
      return PageRead(Err(EINVAL), false);
    }
    ghost var starts := Starts(xs);
    var found := -1;
    var i := 0;
    while i < |xs|
      invariant 0 <= i <= |xs|
      invariant found == -1
      invariant forall k :: 0 <= k < i ==> !Covers(starts, k, pageNum)
    {
      if pageNum >= xs[i].bsPage {
        if i + 1 < |xs| {
          if pageNum < xs[i + 1].bsPage {
            found := i;
            break;
          }
        } else {
          if !IsMarker(xs[i].vdBlk) {
            found := i;
          }
          break;
        }
      }
      i := i + 1;
    }
    if i < |xs| {
      FirstCoverIs(starts, i, pageNum);
    }
    if found < 0 {
      return PageRead(Err(ENOENT), false);
    }
    var e := xs[found];
    if e.vdBlk == PERM_HOLE || e.vdBlk == 0 {
      return PageRead(Ok(ZeroPage()), true);
    }
    if e.vdBlk == XTNT_TERM {
      return PageRead(Ok(ZeroPage()), false);
    }
    var vol := st.vol(e.vdIndex);
    if vol.None? {
      return PageRead(Err(ENODEV), false);
    }
    var diskBlock: uint64 := e.vdBlk + 16 * (pageNum - e.bsPage);
    if diskBlock > UINT32_MAX {
      return PageRead(Err(ERANGE), false);
    }
    res := PageRead(st.read(vol.value, diskBlock / 16), false);
  }

  /** Block (or marker), volume and remaining run length at a column page. */
  datatype Probe = Probe(blk: uint32, vd: uint32, run: uint32)

  function ProbeAt(ce: seq<Extent>, xm: uint32): (r: Probe)
    ensures r.run > 0
  {
    var i := FirstCover(Starts(ce), xm);
    if i < 0 || xm == UINT32_MAX then Probe(XTNT_TERM, 0, UINT32_MAX)
    else
      var e := ce[i];
      var end := if i + 1 < |ce| then ce[i + 1].bsPage else UINT32_MAX;
      var blk := if IsMarker(e.vdBlk) then e.vdBlk
                 else if BlockOf(e, xm) > UINT32_MAX then XTNT_TERM
                 else BlockOf(e, xm);
      Probe(blk, e.vdIndex, end - xm)
  }

  method ColLookup(ce: seq<Extent>, xm: uint32) returns (r: Probe)
    ensures r == ProbeAt(ce, xm)
  {
    ghost var starts := Starts(ce);
    var i := 0;
    while i < |ce|
      invariant 0 <= i <= |ce|
      invariant forall k :: 0 <= k < i ==> !Covers(starts, k, xm) || xm == UINT32_MAX
    {
      if xm >= ce[i].bsPage {
        var end := if i + 1 < |ce| then ce[i + 1].bsPage else UINT32_MAX;
        if xm < end {
          FirstCoverIs(starts, i, xm);
          if IsMarker(ce[i].vdBlk) {
            return Probe(ce[i].vdBlk, ce[i].vdIndex, end - xm);
          }
          var blk64: uint64 := ce[i].vdBlk + 16 * (xm - ce[i].bsPage);
          if blk64 > UINT32_MAX {
            return Probe(XTNT_TERM, ce[i].vdIndex, end - xm);
          }
          return Probe(blk64, ce[i].vdIndex, end - xm);
        }
      }
      i := i + 1;
    }
    r := Probe(XTNT_TERM, 0, UINT32_MAX);
  }

  /** Candidate page count of one entry; the mapped case wraps at 2^32. */
  function Candidate(e: Extent): uint32 {
    if IsMarker(e.vdBlk) then e.bsPage
    else if e.bsPage == UINT32_MAX then 0
    else e.bsPage + 1
  }

  function PageCount(xs: seq<Extent>): (n: uint32)
    ensures forall i :: 0 <= i < |xs| ==> Candidate(xs[i]) <= n
    ensures n == 0 || exists i :: 0 <= i < |xs| && Candidate(xs[i]) == n
  {
    if xs == [] then 0
    else Max(PageCount(xs[..|xs| - 1]), Candidate(xs[|xs| - 1]))
  }

  lemma {:induction false} CandidateWraps(e: Extent)
    ensures !IsMarker(e.vdBlk) ==> (e.bsPage + 1) % TWO_32 == Candidate(e)
  {
  }

  lemma {:induction false} PageCountStep(xs: seq<Extent>, i: nat)
    requires i < |xs|
    ensures PageCount(xs[..i + 1]) == Max(PageCount(xs[..i]), Candidate(xs[i]))
  {
    assert xs[..i + 1][..i] == xs[..i] && xs[..i + 1][i] == xs[i];
  }

  method CountPages(xs: seq<Extent>) returns (maxPage: uint32)
    ensures maxPage == PageCount(xs)
  {
    maxPage := 0;
    for i := 0 to |xs|
      invariant maxPage == PageCount(xs[..i])
    {
      PageCountStep(xs, i);
      var cand: uint32 := if IsMarker(xs[i].vdBlk) then xs[i].bsPage else (xs[i].bsPage + 1) % TWO_32;
      CandidateWraps(xs[i]);
      if cand > maxPage {
        maxPage := cand;
      }
    }
    assert xs[..|xs|] == xs;
  }

  /** A map as its readers expect it: sorted, from page 0, closed by a TERM. */
  predicate Terminated(xs: seq<Extent>) {
    && |xs| > 0
    && Sorted(Starts(xs))
    && xs[0].bsPage == 0
    && xs[|xs| - 1].vdBlk == XTNT_TERM
  }

  /** A mapped entry that starts where the map ends, and so covers no page. */
  predicate HasEmptyTail(xs: seq<Extent>)
    requires |xs| > 0
  {
    exists i :: 0 <= i < |xs| && !IsMarker(xs[i].vdBlk) && xs[i].bsPage == xs[|xs| - 1].bsPage < UINT32_MAX
  }

  /** What a sorted map says of a page between the start of entry i and that of the next. */
  lemma {:induction false} SortedView(xs: seq<Extent>, i: nat, p: uint32)
    requires Sorted(Starts(xs)) && i < |xs| && xs[i].bsPage <= p && (i + 1 < |xs| ==> p < xs[i + 1].bsPage)
    ensures var blk, at := xs[i].vdBlk, xs[i].vdBlk + 16 * (p - xs[i].bsPage);
            View(xs, p) == if i == |xs| - 1 && blk >= 0xFFFF_FFFE then Absent
                           else if blk == 0 || blk == 0xFFFF_FFFE then CloneHole
                           else if blk == 0xFFFF_FFFF then Sparse
                           else if at < 0x1_0000_0000 then At(xs[i].vdIndex, at)
                           else OutOfRange
  {
    CoverUnique(Starts(xs), i, p);
  }

  lemma {:induction false} ViewBeforeFirst(xs: seq<Extent>, p: uint32)
    requires Sorted(Starts(xs)) && (xs != [] ==> p < xs[0].bsPage)
    ensures View(xs, p) == Absent
  {
    FirstCoverIsLast(Starts(xs), p);
    if xs != [] {
      assert forall i :: 0 <= i < |xs| ==> Starts(xs)[0] <= Starts(xs)[i];
    }
  }

  /** A page of a terminated map is absent exactly from the final TERM on. */
  lemma {:induction false} AbsentFromTerm(xs: seq<Extent>, p: uint32)
    requires Terminated(xs)
    ensures View(xs, p) == Absent <==> p >= xs[|xs| - 1].bsPage
  {
    var s := Starts(xs);
    FirstCoverIsLast(s, p);
  }

  lemma {:induction false} PageCountOfTerminated(xs: seq<Extent>)
    requires Terminated(xs)
    ensures PageCount(xs) == xs[|xs| - 1].bsPage + (if HasEmptyTail(xs) then 1 else 0)
  {
    var last := xs[|xs| - 1];
    var n := PageCount(xs);
    assert n >= Candidate(last) == last.bsPage;
    forall i | 0 <= i < |xs| ensures xs[i].bsPage <= last.bsPage {
      assert Starts(xs)[i] <= Starts(xs)[|xs| - 1];
    }
    if HasEmptyTail(xs) {
      var i :| 0 <= i < |xs| && !IsMarker(xs[i].vdBlk) && xs[i].bsPage == last.bsPage < UINT32_MAX;
      assert n >= Candidate(xs[i]) == last.bsPage + 1;
    }
    if n != 0 {
      var i :| 0 <= i < |xs| && Candidate(xs[i]) == n;
      assert xs[i].bsPage <= last.bsPage;
    }
  }

  /** The reader's end-of-file (ENOENT) and the page count agree on every page
      if and only if no mapped entry starts at the terminator. */
  lemma {:induction false} PageCountExact(xs: seq<Extent>)
    requires Terminated(xs)
    ensures (forall p: uint32 :: View(xs, p) == Absent <==> p >= PageCount(xs)) <==> !HasEmptyTail(xs)
  {
    forall p: uint32 ensures View(xs, p) == Absent <==> p >= xs[|xs| - 1].bsPage {
      AbsentFromTerm(xs, p);
    }
    PageCountOfTerminated(xs);
    if HasEmptyTail(xs) {
      var t := xs[|xs| - 1].bsPage;
      assert View(xs, t) == Absent && !(t >= PageCount(xs));
    }
  }

  /** A concrete map whose page count promises a page that the reader does not have. */
  lemma {:induction false} EmptyTailOvercounts(xs: seq<Extent>)
    requires xs == [Extent(0, 160, 1), Extent(1, 176, 1), Extent(1, XTNT_TERM, 1)]
    ensures Terminated(xs) && HasEmptyTail(xs) && PageCount(xs) == 2 && View(xs, 1) == Absent
  {
    assert !IsMarker(xs[1].vdBlk) && xs[1].bsPage == xs[2].bsPage;
    PageCountOfTerminated(xs);
    AbsentFromTerm(xs, 1);
  }
}
