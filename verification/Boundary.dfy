/** Boundary lists: entry i of a map covers the pages [starts[i], starts[i+1]),
    and the last entry covers everything from its start on. Three parts of the
    program search such lists by hand (src/util.c, src/extents.c twice); this
    module fixes what they look for. */
module Boundary {
  import opened Ods

  predicate Sorted(starts: seq<uint32>) {
    forall i, j :: 0 <= i <= j < |starts| ==> starts[i] <= starts[j]
  }

  predicate Covers(starts: seq<uint32>, i: int, p: int) {
    && 0 <= i < |starts|
    && starts[i] <= p
    && (i + 1 < |starts| ==> p < starts[i + 1])
  }

  /** What a first-match scan finds: the first covering entry, or -1. */
  function FirstCover(starts: seq<uint32>, p: int): (i: int)
    ensures -1 <= i < |starts|
    ensures i >= 0 ==> Covers(starts, i, p)
  {
    ScanFrom(starts, 0, p)
  }

  function ScanFrom(starts: seq<uint32>, from: nat, p: int): (i: int)
    requires from <= |starts|
    ensures i == -1 || from <= i < |starts|
    ensures i >= 0 ==> Covers(starts, i, p)
    decreases |starts| - from
  {
    if from == |starts| then -1
    else if Covers(starts, from, p) then from
    else ScanFrom(starts, from + 1, p)
  }

  /** Nothing before the found entry covers the page; -1 means nothing does. */
  lemma {:induction false} ScanIsFirst(starts: seq<uint32>, from: nat, p: int, k: nat)
    requires from <= k < |starts| && Covers(starts, k, p)
    ensures from <= ScanFrom(starts, from, p) <= k
    decreases |starts| - from
  {
    if !Covers(starts, from, p) {
      ScanIsFirst(starts, from + 1, p, k);
    }
  }

  /** The reference: the last entry that starts at or below page p, or -1. */
  function LastAtOrBelow(starts: seq<uint32>, p: int): (i: int)
    ensures -1 <= i < |starts|
    ensures i >= 0 ==> starts[i] <= p
    ensures forall k :: i < k < |starts| ==> starts[k] > p
  {
    if starts == [] then -1
    else if starts[|starts| - 1] <= p then |starts| - 1
    else LastAtOrBelow(starts[..|starts| - 1], p)
  }

  /** On a sorted list, duplicates included, the first-match scan finds the
      last entry at or below the page. */
  lemma {:induction false} FirstCoverIsLast(starts: seq<uint32>, p: int)
    requires Sorted(starts)
    ensures FirstCover(starts, p) == LastAtOrBelow(starts, p)
  {
    var l := LastAtOrBelow(starts, p);
    if l >= 0 {
      CoverUnique(starts, l, p);
    }
  }

  /** A covering entry of a sorted list is the one the scan returns. */
  lemma {:induction false} CoverUnique(starts: seq<uint32>, i: nat, p: int)
    requires Sorted(starts) && Covers(starts, i, p)
    ensures FirstCover(starts, p) == i
  {
    ScanIsFirst(starts, 0, p, i);
    var f := FirstCover(starts, p);
    if f < i {
      // then starts[f + 1] <= starts[i] <= p < starts[f + 1]
      assert false;
    }
  }

  /** The scan stops at i when i covers the page and nothing earlier does. */
  lemma {:induction false} FirstCoverIs(starts: seq<uint32>, i: nat, p: int)
    requires Covers(starts, i, p)
    requires forall k :: 0 <= k < i ==> !Covers(starts, k, p)
    ensures FirstCover(starts, p) == i
  {
    ScanIsFirst(starts, 0, p, i);
  }

  /** What the found entry excludes. */
  lemma {:induction false} NotCovered(starts: seq<uint32>, p: int)
    ensures forall k :: 0 <= k < |starts| && (FirstCover(starts, p) < 0 || k < FirstCover(starts, p))
              ==> !Covers(starts, k, p)
  {
    forall k | 0 <= k < |starts| && Covers(starts, k, p) ensures 0 <= FirstCover(starts, p) <= k {
      ScanIsFirst(starts, 0, p, k);
    }
  }

  /** From the start of any entry on, every page is covered by that entry or a later one. */
  lemma {:induction false} CoveredFrom(starts: seq<uint32>, k: nat, p: int) returns (j: nat)
    requires k < |starts| && starts[k] <= p
    ensures k <= j && Covers(starts, j, p)
    decreases |starts| - k
  {
    j := k;
    if k + 1 < |starts| && starts[k + 1] <= p {
      j := CoveredFrom(starts, k + 1, p);
    }
  }

  /** When a list grows, a covered page keeps its entry exactly if that entry is not the
      open last one, or nothing was added at or below the page. */
  lemma {:induction false} EntryKeptExactly(starts: seq<uint32>, more: seq<uint32>, p: int)
    requires FirstCover(starts, p) >= 0
    ensures FirstCover(starts + more, p) == FirstCover(starts, p)
            <==> FirstCover(starts, p) < |starts| - 1 || more == [] || p < more[0]
  {
    var i, all := FirstCover(starts, p), starts + more;
    NotCovered(starts, p);
    forall k | 0 <= k < i ensures !Covers(all, k, p) {
      assert !Covers(starts, k, p);
    }
    assert Covers(starts, i, p);
    if i < |starts| - 1 || more == [] || p < more[0] {
      FirstCoverIs(all, i, p);
    }
  }
}
