/** The stripe interleaver (src/extents.c): flattening per-column extent maps
    into one file-relative map, by a loop over contiguous runs of pages. */
module Stripe {
  import opened Ods
  import opened Extents
  import opened Placement
  import opened Runs

  const MAX_STRIPE_COLS: nat := 16

  datatype Stripe = Stripe(cols: seq<seq<Extent>>, seg: uint32) {
    predicate Valid() {
      1 <= |cols| <= MAX_STRIPE_COLS && seg > 0
    }

    function Col(f: nat): (c: nat)
      requires Valid()
      ensures c < |cols|
    {
      ColOf(f, seg, |cols|)
    }

    function Xm(f: nat): (xm: nat)
      requires Valid()
      ensures f % seg <= xm <= f
    {
      XmOf(f, seg, |cols|)
    }

    /** The column map that holds file page f. */
    function MapOf(f: nat): seq<Extent>
      requires Valid()
    {
      cols[Col(f)]
    }
  }

  function Counts(cols: seq<seq<Extent>>): (s: seq<nat>)
    ensures |s| == |cols|
  {
    seq(|cols|, c requires 0 <= c < |cols| => PageCount(cols[c]))
  }

  /** Total file pages: the sum of the column page counts. */
  function Total(s: Stripe): nat {
    Sum(Counts(s.cols))
  }

  function ProbeFile(s: Stripe, f: uint32): (p: Probe)
    requires s.Valid()
    ensures p.run > 0
  {
    ProbeAt(s.MapOf(f), s.Xm(f))
  }

  /** The run that starts at file page f: cut at the end of the segment, of the
      column's run and of the file. */
  function RunAt(s: Stripe, total: uint32, f: uint32): (r: Run)
    requires s.Valid() && f < total
    ensures 1 <= r.len <= total - f
  {
    var p := ProbeFile(s, f);
    DivMod(f, s.seg);
    Run(p.blk, p.vd, Min(Min(s.seg - f % s.seg, p.run), total - f))
  }

  function PlanOf(s: Stripe, total: uint32): (plan: Plan)
    requires s.Valid()
    ensures |plan| == total
    ensures forall f :: 0 <= f < total ==> plan[f] == RunAt(s, total, f)
  {
    seq(total, f requires 0 <= f < total => RunAt(s, total, f))
  }

  predicate IsPlan(plan: Plan, s: Stripe, total: uint32)
    requires s.Valid()
  {
    |plan| == total && forall f {:trigger RunAt(s, total, f)} :: 0 <= f < total ==> plan[f] == RunAt(s, total, f)
  }

  /** The flat map of a striped file, for any columns whatever. */
  ghost function FlatMap(s: Stripe, total: uint32): seq<Extent>
    requires s.Valid()
  {
    Flatten(PlanOf(s, total), total, 0, [])
  }

  /** raw[colStart[c] .. colStart[c + 1]] is column c. */
  predicate Layout(raw: seq<Extent>, colStart: seq<nat>) {
    && |colStart| > 0
    && colStart[|colStart| - 1] <= |raw|
    && forall c, d :: 0 <= c <= d < |colStart| ==> colStart[c] <= colStart[d]
  }

  function ColumnsOf(raw: seq<Extent>, colStart: seq<nat>): (cols: seq<seq<Extent>>)
    requires Layout(raw, colStart)
    ensures |cols| == |colStart| - 1
    ensures forall c :: 0 <= c < |cols| ==> cols[c] == raw[colStart[c]..colStart[c + 1]]
  {
    seq(|colStart| - 1, c requires 0 <= c < |colStart| - 1 => raw[colStart[c]..colStart[c + 1]])
  }

  /** Arguments the entry point has accepted. */
  predicate Accepted(raw: seq<Extent>, colStart: seq<nat>, ncols: int, segmentSize: uint32) {
    1 <= ncols <= MAX_STRIPE_COLS && |colStart| == ncols + 1 && Layout(raw, colStart) && segmentSize > 0
  }

  function StripeOf(raw: seq<Extent>, colStart: seq<nat>, ncols: int, segmentSize: uint32): (s: Stripe)
    requires Accepted(raw, colStart, ncols, segmentSize)
    ensures s.Valid()
  {
    Stripe(ColumnsOf(raw, colStart), segmentSize)
  }

  method SumPageCounts(raw: seq<Extent>, colStart: seq<nat>, ncols: nat) returns (total: nat)
    requires |colStart| == ncols + 1 && Layout(raw, colStart)
    ensures total == Sum(Counts(ColumnsOf(raw, colStart)))
  {
    ghost var counts := Counts(ColumnsOf(raw, colStart));
    total := 0;
    for c := 0 to ncols
      invariant total == Sum(counts[..c])
    {
      var n := CountPages(raw[colStart[c]..colStart[c + 1]]);
      total := total + n;
      assert counts[..c + 1][..c] == counts[..c];
    }
    assert counts[..ncols] == counts;
  }

  lemma {:induction false} XmFits(f: uint32, seg: uint32, n: nat)
    requires seg > 0 && n > 0
    ensures 0 <= f / seg <= f && 0 <= f % seg <= f && f % seg < seg
    ensures XmOf(f, seg, n) == f / seg / n * seg + f % seg <= f
  {
    DivMod(f, seg);
  }

  /** Locate file page f in its column and measure the run that starts there. */
  method NextRun(raw: seq<Extent>, colStart: seq<nat>, ncols: nat, segmentSize: uint32, total: uint32, f: uint32)
      returns (p: Probe, n: uint32)
    requires Accepted(raw, colStart, ncols, segmentSize)
    requires f < total
    ensures Run(p.blk, p.vd, n) == RunAt(StripeOf(raw, colStart, ncols, segmentSize), total, f)
  {
    var sg: uint32 := f / segmentSize;
    var inSeg: uint32 := f % segmentSize;
    var col := sg % ncols;
    XmFits(f, segmentSize, ncols);
    var xm: uint32 := sg / ncols * segmentSize + inSeg;
    p := ColLookup(raw[colStart[col]..colStart[col + 1]], xm);
    assert p == ProbeFile(StripeOf(raw, colStart, ncols, segmentSize), f);
    n := segmentSize - inSeg;
    if p.run < n {
      n := p.run;
    }
    if total - f < n {
      n := total - f;
    }
    // n > 0 always: the original's "always make progress" guard never fires
  }

  lemma {:induction false} PlanAt(plan: Plan, s: Stripe, total: uint32, f: uint32)
    requires s.Valid() && IsPlan(plan, s, total) && f < total
    ensures plan[f] == RunAt(s, total, f)
  {
  }

  /** `plan` is the plan of an accepted request for `total` pages. */
  ghost predicate Planned(raw: seq<Extent>, colStart: seq<nat>, ncols: int, segmentSize: uint32,
                          total: uint32, plan: Plan)
  {
    && Accepted(raw, colStart, ncols, segmentSize)
    && IsPlan(plan, StripeOf(raw, colStart, ncols, segmentSize), total)
    && Advances(plan, total)
  }

  lemma {:induction false} OverflowSticks(plan: Plan, total: uint32, f: uint32, acc: seq<Extent>, max: nat,
                                          out: seq<Extent>, count: nat)
    requires f <= total && Advances(plan, total)
    requires Written(acc, max, out, Some(EOVERFLOW), count)
    ensures Written(Flatten(plan, total, f, acc), max, out, Some(EOVERFLOW), count)
  {
    FlattenExtends(plan, total, f, acc);
  }

  /** One pass of the emission loop; an overflow already decides the outcome. */
  method EmitOne(raw: seq<Extent>, colStart: seq<nat>, ncols: nat, segmentSize: uint32, total: uint32, f: uint32,
                 out: array<Extent>, count: nat, max: nat, ghost plan: Plan, ghost acc: seq<Extent>)
      returns (err: Option<Errno>, count': nat, n: uint32)
    requires Planned(raw, colStart, ncols, segmentSize, total, plan)
    requires f < total && count <= max <= out.Length
    requires acc == out[..count] && (acc != [] ==> acc[|acc| - 1].bsPage <= f)
    modifies out
    ensures n == plan[f].len && count' <= max
    ensures err == None ==> out[..count'] == Emit(acc, f, plan[f])
    ensures err != None ==> Written(Flatten(plan, total, f, acc), max, out[..], err, count')
    ensures out[max..] == old(out[max..])
  {
    var p: Probe;
    p, n := NextRun(raw, colStart, ncols, segmentSize, total, f);
    PlanAt(plan, StripeOf(raw, colStart, ncols, segmentSize), total, f);
    err, count' := MergeOrAppend(out, count, max, f, p.blk, p.vd, n);
    if err != None {
      OverflowSticks(plan, total, f + n, Emit(acc, f, plan[f]), max, out[..], count');
    }
  }

  /** The emission loop. */
  method EmitRuns(raw: seq<Extent>, colStart: seq<nat>, ncols: nat, segmentSize: uint32, total: uint32,
                  out: array<Extent>, max: nat, ghost plan: Plan)
      returns (err: Option<Errno>, count: nat)
    requires Planned(raw, colStart, ncols, segmentSize, total, plan) && max <= out.Length
    modifies out
    ensures Written(Flatten(plan, total, 0, []), max, out[..], err, count)
    ensures out[max..] == old(out[max..])
  {
    ghost var flat := Flatten(plan, total, 0, []);
    ghost var acc: seq<Extent> := [];
    var fpage: uint32 := 0;
    var n: uint32;
    count := 0;
    while fpage < total
      invariant fpage <= total && count <= max
      invariant acc == out[..count] && (acc != [] ==> acc[|acc| - 1].bsPage <= fpage)
      invariant flat == Flatten(plan, total, fpage, acc)
      invariant out[max..] == old(out[max..])
      decreases total - fpage
    {
      err, count, n := EmitOne(raw, colStart, ncols, segmentSize, total, fpage, out, count, max, plan, acc);
      if err != None {
        return;
      }
      acc := Emit(acc, fpage, plan[fpage]);
      fpage := fpage + n;
    }
    err, count := AppendExtent(out, count, max, total, XTNT_TERM, 0);
  }

  /** advfs_extents_stripe_interleave: fills `out` in place. The outcome is fixed
      for every input, well-formed or not. */
  method Interleave(raw: seq<Extent>, colStart: seq<nat>, ncols: int, segmentSize: uint32,
                    out: array<Extent>, maxExtents: int)
      returns (err: Option<Errno>, count: nat)
    requires 1 <= ncols <= MAX_STRIPE_COLS ==> |colStart| == ncols + 1 && Layout(raw, colStart)
    requires maxExtents <= out.Length
    modifies out
    ensures ncols < 1 || ncols > MAX_STRIPE_COLS || segmentSize == 0 || maxExtents <= 0
            <==> err == Some(EINVAL)
    ensures err != Some(EINVAL) ==>
              var s := StripeOf(raw, colStart, ncols, segmentSize);
              if Total(s) > UINT32_MAX then err == Some(ERANGE)
              else Written(FlatMap(s, Total(s)), maxExtents, out[..], err, count)
    ensures out[Max(maxExtents, 0)..] == old(out[Max(maxExtents, 0)..])
  {
    if ncols < 1 || ncols > MAX_STRIPE_COLS || segmentSize == 0 || maxExtents <= 0 {
      return Some(EINVAL), 0;
    }
    var total64 := SumPageCounts(raw, colStart, ncols);
    if total64 > UINT32_MAX {
      return Some(ERANGE), 0;
    }
    ghost var plan := PlanOf(StripeOf(raw, colStart, ncols, segmentSize), total64);
    err, count := EmitRuns(raw, colStart, ncols, segmentSize, total64, out, maxExtents, plan);
  }
}
