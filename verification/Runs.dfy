/** Flattening a plan of contiguous runs into an extent map (the emission loop of
    src/extents.c): a run either extends the previous entry or starts a new one. */
module Runs {
  import opened Ods
  import opened Boundary
  import opened Extents

  /** One contiguous run: where it is stored (or a hole marker), and its length. */
  datatype Run = Run(blk: uint32, vd: uint32, len: nat)

  /** The run that starts at each page of the file. */
  type Plan = seq<Run>

  /** Every run moves forward and stays inside the file. */
  ghost predicate Advances(plan: Plan, total: uint32) {
    |plan| == total && forall f :: 0 <= f < total ==> 1 <= plan[f].len <= total - f
  }

  /** May the run (blk, vd) starting at page f extend the entry prev? */
  predicate Merges(prev: Extent, f: int, blk: uint32, vd: uint32) {
    if IsMarker(blk) then prev.vdBlk == blk
    else !IsMarker(prev.vdBlk) && prev.vdIndex == vd && BlockOf(prev, f) == blk
  }

  function Emit(out: seq<Extent>, f: uint32, r: Run): seq<Extent> {
    if out != [] && Merges(out[|out| - 1], f, r.blk, r.vd) then out
    else out + [Extent(f, r.blk, r.vd)]
  }

  ghost function Flatten(plan: Plan, total: uint32, f: uint32, out: seq<Extent>): seq<Extent>
    requires f <= total && Advances(plan, total)
    decreases total - f
  {
    if f == total then out + [Extent(total, XTNT_TERM, 0)]
    else Flatten(plan, total, f + plan[f].len, Emit(out, f, plan[f]))
  }

  /** Entries already emitted are never touched again; later ones start at or after f. */
  lemma {:induction false} FlattenExtends(plan: Plan, total: uint32, f: uint32, out: seq<Extent>)
    requires f <= total && Advances(plan, total)
    ensures var flat := Flatten(plan, total, f, out);
            && |out| < |flat| && out == flat[..|out|]
            && forall k :: |out| <= k < |flat| ==> flat[k].bsPage >= f
    decreases total - f
  {
    if f < total {
      var next := Emit(out, f, plan[f]);
      FlattenExtends(plan, total, f + plan[f].len, next);
      assert out == next[..|out|];
    }
  }

  // ---- canonical form ----

  /** Entries for the pages below f: strictly increasing from page 0, and no two
      neighbours could have been one entry. */
  predicate Canonical(out: seq<Extent>, f: int) {
    && (f > 0 ==> out != [] && out[0].bsPage == 0)
    && (forall k :: 0 <= k < |out| ==> out[k].bsPage < f)
    && (forall k :: 0 < k < |out| ==> out[k - 1].bsPage < out[k].bsPage)
    && (forall k :: 0 < k < |out| ==> !Merges(out[k - 1], out[k].bsPage, out[k].vdBlk, out[k].vdIndex))
  }

  lemma {:induction false} EmitCanonical(out: seq<Extent>, f: uint32, r: Run, f': int)
    requires Canonical(out, f) && f < f'
    ensures Canonical(Emit(out, f, r), f')
  {
    var next := Emit(out, f, r);
    if next != out {
      assert next[|out|] == Extent(f, r.blk, r.vd);
    }
  }

  lemma {:induction false} FlattenCanonical(plan: Plan, total: uint32, f: uint32, out: seq<Extent>)
    requires f <= total && Advances(plan, total) && Canonical(out, f)
    ensures exists body :: Canonical(body, total)
              && Flatten(plan, total, f, out) == body + [Extent(total, XTNT_TERM, 0)]
    decreases total - f
  {
    if f < total {
      EmitCanonical(out, f, plan[f], f + plan[f].len);
      FlattenCanonical(plan, total, f + plan[f].len, Emit(out, f, plan[f]));
    }
  }

  lemma {:induction false} IncreasingIsSorted(xs: seq<Extent>)
    requires forall k :: 0 < k < |xs| ==> xs[k - 1].bsPage < xs[k].bsPage
    ensures Sorted(Starts(xs))
  {
    if |xs| > 1 {
      var n := |xs| - 1;
      IncreasingIsSorted(xs[..n]);
      var s := Starts(xs[..n]);
      forall i, j | 0 <= i <= j < |xs| ensures Starts(xs)[i] <= Starts(xs)[j] {
        if i < n {
          assert s[i] <= s[n - 1];
          if j < n {
            assert s[i] <= s[j];
          }
        }
      }
    }
  }

  lemma {:induction false} ClosedIsTerminated(body: seq<Extent>, total: uint32)
    requires Canonical(body, total)
    ensures Terminated(body + [Extent(total, XTNT_TERM, 0)])
  {
    IncreasingIsSorted(body + [Extent(total, XTNT_TERM, 0)]);
  }

  /** A flat map is a well-terminated map whose page count is the file's total. */
  lemma {:induction false} FlatPageCount(body: seq<Extent>, total: uint32)
    requires Canonical(body, total)
    ensures var flat := body + [Extent(total, XTNT_TERM, 0)];
            Terminated(flat) && PageCount(flat) == total
  {
    ClosedIsTerminated(body, total);
    PageCountOfTerminated(body + [Extent(total, XTNT_TERM, 0)]);
  }

  // ---- size ----

  function CountMarks(mark: seq<bool>, lo: nat): nat
    decreases |mark| - lo
  {
    if lo >= |mark| then 0 else (if mark[lo] then 1 else 0) + CountMarks(mark, lo + 1)
  }

  lemma {:induction false} CountMarksMono(mark: seq<bool>, lo: nat, mid: nat)
    requires lo <= mid
    ensures CountMarks(mark, mid) <= CountMarks(mark, lo)
    decreases mid - lo
  {
    if lo < mid && lo < |mark| {
      CountMarksMono(mark, lo + 1, mid);
    }
  }

  /** If runs start only at marked pages, there are no more entries than marks. */
  lemma {:induction false} FlattenSize(plan: Plan, total: uint32, mark: seq<bool>, f: uint32, out: seq<Extent>)
    requires f <= total == |mark| && Advances(plan, total)
    requires f < total ==> mark[f]
    requires forall g {:trigger plan[g]} ::
               0 <= g < total && mark[g] && g + plan[g].len < total ==> mark[g + plan[g].len]
    ensures |Flatten(plan, total, f, out)| <= |out| + CountMarks(mark, f) + 1
    decreases total - f
  {
    if f < total {
      var n := plan[f].len;
      FlattenSize(plan, total, mark, f + n, Emit(out, f, plan[f]));
      CountMarksMono(mark, f + 1, f + n);
    }
  }

  // ---- writing a map into the caller's array ----

  /** The outcome of writing a flat map into an array of limited capacity. */
  ghost predicate Written(flat: seq<Extent>, max: nat, out: seq<Extent>, err: Option<Errno>, count: nat) {
    && count == Min(|flat|, max)
    && count <= |out| && out[..count] == flat[..count]
    && err == (if |flat| <= max then None else Some(EOVERFLOW))
  }

  method AppendExtent(out: array<Extent>, count: nat, max: nat, bsPage: uint32, vdBlk: uint32, vd: uint32)
      returns (err: Option<Errno>, count': nat)
    requires count <= max <= out.Length
    modifies out
    ensures Written(old(out[..count]) + [Extent(bsPage, vdBlk, vd)], max, out[..], err, count')
    ensures out[max..] == old(out[max..])
  {
    if count >= max {
      return Some(EOVERFLOW), count;
    }
    out[count] := Extent(bsPage, vdBlk, vd);
    return None, count + 1;
  }

  /** Extend the previous entry by the run at page f, or append a new one. */
  method MergeOrAppend(out: array<Extent>, count: nat, max: nat, f: uint32, blk: uint32, vd: uint32, ghost len: nat)
      returns (err: Option<Errno>, count': nat)
    requires count <= max <= out.Length
    requires count > 0 ==> out[count - 1].bsPage <= f
    modifies out
    ensures Written(Emit(old(out[..count]), f, Run(blk, vd, len)), max, out[..], err, count')
    ensures out[max..] == old(out[max..])
  {
    var merged := false;
    ghost var before := out[..count];
    if count > 0 {
      var prev := out[count - 1];
      assert before[|before| - 1] == prev;
      var prevHole := IsMarker(prev.vdBlk);
      var curHole := IsMarker(blk);
      if prevHole && curHole && prev.vdBlk == blk {
        merged := true;
      } else if !prevHole && !curHole && prev.vdIndex == vd
                && prev.vdBlk + 16 * (f - prev.bsPage) == blk {
        merged := true;
      }
      assert merged == Merges(prev, f, blk, vd);
    }
    if merged {
      return None, count;
    }
    err, count' := AppendExtent(out, count, max, f, blk, vd);
  }
}
