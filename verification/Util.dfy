/** BMT page resolution (src/util.c): the third boundary-list search. */
module Util {
  import opened Ods
  import opened Boundary

  function XStarts(xs: seq<Xtnt>): (s: seq<uint32>)
    ensures |s| == |xs|
    ensures forall i :: 0 <= i < |s| ==> s[i] == xs[i].bsPage
  {
    seq(|xs|, i requires 0 <= i < |xs| => xs[i].bsPage)
  }

  /** Volume page of a BMT page. The BMT has no holes: a marker entry is a
      boundary, never storage; with no map at all, page 0 is at its fixed place. */
  function Resolve(xs: seq<Xtnt>, p: uint32): Result<uint32> {
    if xs == [] then (if p == 0 then Ok(RESERVED_BLKS / 16) else Err(ENOENT))
    else
      var i := FirstCover(XStarts(xs), p);
      if i < 0 || IsMarker(xs[i].vdBlk) then Err(ENOENT)
      else
        if BlockAt(xs[i], p) > UINT32_MAX then Err(ERANGE) else Ok(BlockAt(xs[i], p) / 16)
  }

  method ResolvePage(xs: seq<Xtnt>, p: uint32) returns (r: Result<uint32>)
    ensures r == Resolve(xs, p)
  {
    if |xs| == 0 {
      return if p == 0 then Ok(RESERVED_BLKS / 16) else Err(ENOENT);
    }
    ghost var starts := XStarts(xs);
    var found := -1;
    var i := 0;
    while i < |xs|
      invariant 0 <= i <= |xs| && found == -1
      invariant forall k :: 0 <= k < i ==> !Covers(starts, k, p)
    {
      if p >= xs[i].bsPage {
        if i + 1 < |xs| {
          if p < xs[i + 1].bsPage {
            found := i;
            break;
          }
        } else {
          if xs[i].vdBlk != XTNT_TERM {
            found := i;
          }
          break;
        }
      }
      i := i + 1;
    }
    if i < |xs| {
      FirstCoverIs(starts, i, p);
    }
    if found < 0 || xs[found].vdBlk == XTNT_TERM || xs[found].vdBlk == PERM_HOLE {
      return Err(ENOENT);
    }
    var block: uint64 := xs[found].vdBlk + 16 * (p - xs[found].bsPage);
    if block > UINT32_MAX {
      return Err(ERANGE);
    }
    return Ok(block / 16);
  }

  /** Where a sorted map puts a page between the start of entry i and that of the next. */
  lemma {:induction false} SortedResolve(xs: seq<Xtnt>, i: nat, p: uint32)
    requires Sorted(XStarts(xs)) && i < |xs| && xs[i].bsPage <= p && (i + 1 < |xs| ==> p < xs[i + 1].bsPage)
    ensures var blk, at := xs[i].vdBlk, xs[i].vdBlk + 16 * (p - xs[i].bsPage);
            Resolve(xs, p) == if blk >= 0xFFFF_FFFE then Err(ENOENT)
                              else if at >= 0x1_0000_0000 then Err(ERANGE)
                              else Ok(at / 16)
  {
    CoverUnique(XStarts(xs), i, p);
  }

  function BlockAt(x: Xtnt, p: int): int {
    x.vdBlk + 16 * (p - x.bsPage)
  }

  /** Volume page minus BMT page, the same for every page of a run. */
  function RunOffset(x: Xtnt): int {
    x.vdBlk / 16 - x.bsPage
  }

  /** The offset of a map's open end; with no entries, page 0 is at its fixed place. */
  function OpenOffset(xs: seq<Xtnt>): int {
    if xs == [] then RESERVED_BLKS / 16 else RunOffset(xs[|xs| - 1])
  }

  /** When the map xs grows into `full`, page p keeps its entry, or the entry that takes
      over is mapped and goes on with the run that was open. */
  predicate Stays(xs: seq<Xtnt>, full: seq<Xtnt>, p: uint32) {
    || KeepsEntry(xs, full, p)
    || (var j := FirstCover(XStarts(full), p);
        j >= 0 && !IsMarker(full[j].vdBlk) && RunOffset(full[j]) == OpenOffset(xs))
  }

  /** Covered before the open end, or below the next entry. */
  predicate KeepsEntry(xs: seq<Xtnt>, full: seq<Xtnt>, p: uint32) {
    |xs| >= |full|
    || (xs != [] && (FirstCover(XStarts(xs), p) < |xs| - 1 || p < full[|xs|].bsPage))
  }

  lemma {:induction false} KeptEntry(xs: seq<Xtnt>, full: seq<Xtnt>, p: uint32)
    requires |xs| <= |full| && xs == full[..|xs|] && xs != [] && FirstCover(XStarts(xs), p) >= 0
    ensures FirstCover(XStarts(full), p) == FirstCover(XStarts(xs), p) <==> KeepsEntry(xs, full, p)
  {
    assert XStarts(full) == XStarts(xs) + XStarts(full[|xs|..]);
    EntryKeptExactly(XStarts(xs), XStarts(full[|xs|..]), p);
  }

  lemma {:induction false} OffsetPlaces(x: Xtnt, p: uint32)
    ensures BlockAt(x, p) / 16 == p + RunOffset(x)
  {
  }

  /** A covered page that loses its entry was covered by the open end. */
  lemma {:induction false} LostFromOpenEnd(xs: seq<Xtnt>, full: seq<Xtnt>, p: uint32)
    requires Resolve(xs, p).Ok? && !KeepsEntry(xs, full, p)
    ensures Resolve(xs, p).value == p + OpenOffset(xs)
  {
    if xs != [] {
      OffsetPlaces(xs[|xs| - 1], p);
    }
  }

  /** Exactly when a page resolved through a map keeps its volume page while the map grows. */
  lemma {:induction false} ResolveStaysExactly(xs: seq<Xtnt>, full: seq<Xtnt>, p: uint32)
    requires |xs| <= |full| && xs == full[..|xs|] && Resolve(xs, p).Ok?
    ensures Resolve(full, p) == Resolve(xs, p) <==> Stays(xs, full, p)
  {
    if KeepsEntry(xs, full, p) {
      if xs != [] {
        KeptEntry(xs, full, p);
      }
    } else {
      LostFromOpenEnd(xs, full, p);
      var j := FirstCover(XStarts(full), p);
      if j >= 0 {
        OffsetPlaces(full[j], p);
      }
    }
  }

  /** A map closed by a boundary entry keeps every entry it resolves pages through. */
  lemma {:induction false} ClosedKeeps(xs: seq<Xtnt>, full: seq<Xtnt>, p: uint32)
    requires |xs| <= |full| && xs != [] && IsMarker(xs[|xs| - 1].vdBlk) && Resolve(xs, p).Ok?
    ensures KeepsEntry(xs, full, p)
  {
  }

  /** A page can move: the last entry of an open map reaches as far as asked, until
      later entries are appended below the page. */
  lemma {:induction false} OpenEndMoves(xs: seq<Xtnt>, more: seq<Xtnt>)
    requires xs == [Xtnt(0, 1600)] && more == [Xtnt(3, 3200), Xtnt(10, XTNT_TERM)]
    ensures Resolve(xs, 5) == Ok(105) && Resolve(xs + more, 5) == Ok(202)
  {
    FirstCoverIs(XStarts(xs), 0, 5);
    FirstCoverIs(XStarts(xs + more), 1, 5);
  }
}
