/** What the clone fallback means for a file's pages (src/filedata.c). */
module FileClones {
  import opened Ods
  import Boundary
  import opened Extents
  import opened FileData

  // ---- ranges of equal pages ----

  /** Two bitfiles with the same pages in a range of bytes. */
  predicate SamePages(p: PageSource, q: PageSource, off: nat, len: nat)
    requires off + len <= BYTE_LIMIT
  {
    forall b: nat {:trigger b / 8192} :: off <= b < off + len ==> p(b / 8192) == q(b / 8192)
  }

  lemma {:induction false} SameCopyError(p: PageSource, q: PageSource, off: nat, len: nat)
    requires off + len <= BYTE_LIMIT && SamePages(p, q, off, len)
    ensures CopyError(p, off, len) == CopyError(q, off, len)
    decreases len
  {
    if len > 0 {
      var chunk := Min(8192 - off % 8192, len);
      SameCopyError(p, q, off + chunk, len - chunk);
    }
  }

  lemma {:induction false} SameBytes(p: PageSource, q: PageSource, off: nat, len: nat)
    requires off + len <= BYTE_LIMIT && SamePages(p, q, off, len)
    ensures Bytes(p, off, len) == Bytes(q, off, len)
    decreases len
  {
    if len > 0 {
      SameBytes(p, q, off, len - 1);
    }
  }

  /** Both copies of a range give the same bytes and the same error. */
  predicate SameRead(p: PageSource, q: PageSource, off: nat, len: nat)
    requires off + len <= BYTE_LIMIT
  {
    CopyError(p, off, len) == CopyError(q, off, len) && Bytes(p, off, len) == Bytes(q, off, len)
  }

  // ---- what the fallback changes ----

  lemma {:induction false} HoleReadsOriginal(store: Store, xs: seq<Extent>, ys: seq<Extent>, pg: uint32)
    requires xs != [] && View(xs, pg) == CloneHole
    ensures PageOf(Source(store, xs, Some(Ok(ys))), pg) == PageOf(Source(store, ys, None), pg)
  {
  }

  lemma {:induction false} MappedIgnoresOriginal(store: Store, xs: seq<Extent>, orig: Result<seq<Extent>>, pg: uint32)
    requires xs == [] || View(xs, pg) != CloneHole
    ensures PageOf(Source(store, xs, Some(orig)), pg) == PageOf(Source(store, xs, None), pg)
  {
  }

  /** The range lies in clone holes of the map throughout. */
  predicate AllHoles(xs: seq<Extent>, off: nat, len: nat)
    requires off + len <= BYTE_LIMIT
  {
    xs != [] && forall b: nat {:trigger b / 8192} :: off <= b < off + len ==> View(xs, b / 8192) == CloneHole
  }

  /** Where a clone was never written, it reads as the original file read on its own:
      the same bytes, or the same error. */
  lemma {:induction false} HolesReadOriginal(store: Store, xs: seq<Extent>, ys: seq<Extent>, off: nat, len: nat)
    requires off + len <= BYTE_LIMIT && AllHoles(xs, off, len)
    ensures SameRead(PagesOf(Source(store, xs, Some(Ok(ys)))), PagesOf(Source(store, ys, None)), off, len)
  {
    var clone, original := PagesOf(Source(store, xs, Some(Ok(ys)))), PagesOf(Source(store, ys, None));
    forall b: nat {:trigger b / 8192} | off <= b < off + len ensures clone(b / 8192) == original(b / 8192) {
      HoleReadsOriginal(store, xs, ys, b / 8192);
    }
    SameCopyError(clone, original, off, len);
    SameBytes(clone, original, off, len);
  }

  /** Where the original has holes as well (a clone of a clone), that is zeros: the
      fallback goes one level deep. */
  lemma {:induction false} NestedHolesAreZeros(store: Store, xs: seq<Extent>, ys: seq<Extent>, off: nat, len: nat,
                                               k: nat)
    requires off + len <= BYTE_LIMIT && AllHoles(xs, off, len) && AllHoles(ys, off, len) && k < len
    ensures var clone := PagesOf(Source(store, xs, Some(Ok(ys))));
            CopyError(clone, off, len) == None && Bytes(clone, off, len)[k] == 0
  {
    var clone := PagesOf(Source(store, xs, Some(Ok(ys))));
    forall b | off <= b < off + len ensures Readable(clone, b) {
      assert View(xs, b / 8192) == View(ys, b / 8192) == CloneHole;
    }
    CopySucceeds(clone, off, len);
    BytesIndex(clone, off, len, k);
    assert View(xs, (off + k) / 8192) == View(ys, (off + k) / 8192) == CloneHole;
  }

  /** Where a clone has no holes the fallback changes nothing: same bytes, same error. */
  lemma {:induction false} NoHolesNoFallback(store: Store, xs: seq<Extent>, orig: Result<seq<Extent>>, off: nat,
                                             len: nat)
    requires off + len <= BYTE_LIMIT && NoHoles(xs, off, len)
    ensures SameRead(PagesOf(Source(store, xs, Some(orig))), PagesOf(Source(store, xs, None)), off, len)
  {
    var with, without := PagesOf(Source(store, xs, Some(orig))), PagesOf(Source(store, xs, None));
    forall b: nat {:trigger b / 8192} | off <= b < off + len ensures with(b / 8192) == without(b / 8192) {
      MappedIgnoresOriginal(store, xs, orig, b / 8192);
    }
    SameCopyError(with, without, off, len);
    SameBytes(with, without, off, len);
  }

  // ---- when a clone can be read ----

  /** A map has something to say about a page: zeros, a hole, or a block that its volume
      delivers (or does not have, which reads as zeros). */
  predicate Serves(store: Store, xs: seq<Extent>, pg: uint32) {
    xs != [] &&
    match View(xs, pg)
    case At(vd, block) =>
      && store.vol(vd).Some?
      && var page := store.read(store.vol(vd).value, block / 16);
      page.Ok? || page == Err(ENOENT)
    case OutOfRange => false
    case _ => true
  }

  /** The fallback serves a page unless the original could be resolved and its map does not
      serve it. */
  lemma {:induction false} FallbackFailsExactly(store: Store, orig: Result<seq<Extent>>, pg: uint32)
    ensures OrigPage(store, orig, pg).Err? <==> orig.Ok? && !Serves(store, orig.value, pg)
  {
  }

  /** A page of a clone is the concern of the original's map only in a hole of its own. */
  predicate CloneServes(store: Store, xs: seq<Extent>, orig: Result<seq<Extent>>, pg: uint32) {
    if xs != [] && View(xs, pg) == CloneHole then orig.Err? || Serves(store, orig.value, pg) else Serves(store, xs, pg)
  }

  lemma {:induction false} ClonePage(store: Store, xs: seq<Extent>, orig: Result<seq<Extent>>, pg: uint32)
    ensures PageOf(Source(store, xs, Some(orig)), pg).Ok? <==> CloneServes(store, xs, orig, pg)
  {
    FallbackFailsExactly(store, orig, pg);
  }

  /** Exactly when a range of a clone can be read: every page outside its holes is served by
      its own map, every page in them by the original's, if there is one. */
  lemma {:induction false} CloneReadSucceedsExactly(store: Store, xs: seq<Extent>, orig: Result<seq<Extent>>,
                                                    off: nat, len: nat)
    requires off + len <= BYTE_LIMIT
    ensures CopyError(PagesOf(Source(store, xs, Some(orig))), off, len) == None
            <==> forall b: nat {:trigger b / 8192} :: off <= b < off + len ==> CloneServes(store, xs, orig, b / 8192)
  {
    var clone := PagesOf(Source(store, xs, Some(orig)));
    CopySucceeds(clone, off, len);
    forall b: nat | off <= b < off + len ensures Readable(clone, b) <==> CloneServes(store, xs, orig, b / 8192) {
      ClonePage(store, xs, orig, b / 8192);
    }
  }

  /** A concrete case: an original without extents turns the clone's first hole
      into EINVAL instead of zeros. */
  lemma {:induction false} EmptyOriginalFails(store: Store, xs: seq<Extent>)
    requires xs == [Extent(0, PERM_HOLE, 1), Extent(1, XTNT_TERM, 1)]
    ensures CopyError(PagesOf(Source(store, xs, Some(Ok([])))), 0, 8192) == Some(EINVAL)
  {
    Boundary.FirstCoverIs(Starts(xs), 0, 0);
    assert View(xs, 0) == CloneHole;
  }

  /** Another: the original's page lies on a volume that is not attached. */
  lemma {:induction false} DetachedOriginalFails(store: Store, xs: seq<Extent>, ys: seq<Extent>)
    requires xs == [Extent(0, PERM_HOLE, 1), Extent(1, XTNT_TERM, 1)]
    requires ys == [Extent(0, 160, 2), Extent(1, XTNT_TERM, 2)] && store.vol(2) == None
    ensures CopyError(PagesOf(Source(store, xs, Some(Ok(ys)))), 0, 8192) == Some(ENODEV)
  {
    Boundary.FirstCoverIs(Starts(xs), 0, 0);
    Boundary.FirstCoverIs(Starts(ys), 0, 0);
    assert View(xs, 0) == CloneHole && View(ys, 0) == At(2, 160);
  }

  /** And another: the original's page lies at a block beyond 32 bits. */
  lemma {:induction false} FarOriginalFails(store: Store, xs: seq<Extent>, ys: seq<Extent>)
    requires xs == [Extent(0, PERM_HOLE, 1), Extent(2, XTNT_TERM, 1)] && store.vol(1).Some?
    requires ys == [Extent(0, 0xFFFF_FFF0, 1), Extent(2, XTNT_TERM, 1)]
    ensures CopyError(PagesOf(Source(store, xs, Some(Ok(ys)))), 8192, 8192) == Some(ERANGE)
  {
    Boundary.FirstCoverIs(Starts(xs), 0, 1);
    Boundary.FirstCoverIs(Starts(ys), 0, 1);
    assert View(xs, 1) == CloneHole && View(ys, 1) == OutOfRange;
  }
}
