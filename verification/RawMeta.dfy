/** Metadata pages from their bytes (src/ods.h, src/bmt.c): the version check, the mcells
    of a page, and the extent records the record finder locates in them. */
module RawMeta {
  import opened Ods
  import opened LittleEndian
  import opened Metadata
  import Bmt

  const PAGE_HDR_SZ: nat := 16
  const MCELL_SZ: nat := 292
  const MCELL_HDR_SZ: nat := 24
  const BSR_XTNTS: byte := 1
  const BSR_XTRA_XTNTS: byte := 5
  const BSR_SHADOW_XTNTS: byte := 6
  const XTRA_REC_SZ: nat := 260
  const SHADOW_REC_SZ: nat := 256

  // ---- extent records ----

  /** n extent descriptors at off. */
  function XtntsAt(s: seq<byte>, off: nat, n: nat): (xs: seq<Xtnt>)
    requires off + 8 * n <= |s|
    ensures |xs| == n
  {
    seq(n, i requires 0 <= i < n => Xtnt(U32(s, off + 8 * i), U32(s, off + 8 * i + 4)))
  }

  function XtntRecAt(s: seq<byte>, d: nat, dataSz: nat): XtntRec
    requires d + XTNT_REC_SZ <= |s|
  {
    XtntRec(dataSz, U32(s, d), U32(s, d + 4), U32(s, d + 8), U32(s, d + 24), U16(s, d + 58), XtntsAt(s, d + 60, 2))
  }

  function XtraRecAt(s: seq<byte>, d: nat, dataSz: nat): XtraRec
    requires d + XTRA_REC_SZ <= |s|
  {
    XtraRec(dataSz, U16(s, d + 2), XtntsAt(s, d + 4, 32))
  }

  function ShadowRecAt(s: seq<byte>, d: nat, dataSz: nat): ShadowRec
    requires d + SHADOW_REC_SZ <= |s|
  {
    ShadowRec(dataSz, U16(s, d + 6), XtntsAt(s, d + 8, 31))
  }

  // ---- mcells and pages ----

  function CellStart(c: nat): nat { PAGE_HDR_SZ + MCELL_SZ * c }

  function AreaOf(page: Page, c: nat): Bmt.Area
    requires c < BSPG_CELLS
  {
    page[CellStart(c) + MCELL_HDR_SZ..CellStart(c) + MCELL_SZ]
  }

  /** A record's data in the record area. */
  datatype Span = Span(at: nat, size: nat)

  /** The data of the first record of a type. */
  function DataOf(a: Bmt.Area, t: byte): (r: Option<Span>)
    ensures r.Some? ==> r.value.at + r.value.size <= 268
  {
    match Bmt.FindFrom(a, 0, t)
    case None => None
    case Some(p) => Some(Span(p + 4, Bmt.BCnt(U32(a, p)) - 4))
  }

  /** The mcell at index c, as the record finder presents it. A record that is shorter than
      its type goes on in the bytes behind it, zeros behind the page. */
  function CellOf(page: Page, c: nat): Mcell
    requires c < BSPG_CELLS
  {
    var s, at, a := page + Zeros(XTRA_REC_SZ), CellStart(c) + MCELL_HDR_SZ, AreaOf(page, c);
    var x, e, h := DataOf(a, BSR_XTNTS), DataOf(a, BSR_XTRA_XTNTS), DataOf(a, BSR_SHADOW_XTNTS);
    Mcell(if x.None? then None else Some(XtntRecAt(s, at + x.value.at, x.value.size)),
          if e.None? then None else Some(XtraRecAt(s, at + e.value.at, e.value.size)),
          if h.None? then None else Some(ShadowRecAt(s, at + h.value.at, h.value.size)),
          U32(page, CellStart(c)), U16(page, CellStart(c) + 4))
  }

  function CellsOf(page: Page): (cells: BmtPage) {
    seq(BSPG_CELLS, c requires 0 <= c < BSPG_CELLS => CellOf(page, c))
  }

  /** Mega-version in the upper five bits of the page header's last word. */
  function VersionOf(page: Page): nat {
    U32(page, 12) / 0x800_0000
  }

  /** advfs_bmt_read_page: only versions 3 and 4 are accepted. */
  function ReadCells(page: Result<Page>): Result<BmtPage> {
    match page
    case Err(e) => Err(e)
    case Ok(p) => if 3 <= VersionOf(p) <= 4 then Ok(CellsOf(p)) else Err(EILSEQ)
  }

  // ---- printers and round trips ----

  function PutXtnts(xs: seq<Xtnt>): (s: seq<byte>)
    ensures |s| == 8 * |xs|
  {
    if xs == [] then [] else Put32(xs[0].bsPage) + (Put32(xs[0].vdBlk) + PutXtnts(xs[1..]))
  }

  /** A word at the end of what has been read so far. */
  lemma {:induction false} Word32(pre: seq<byte>, v: uint32, rest: seq<byte>, s: seq<byte>)
    requires s == pre + (Put32(v) + rest)
    ensures |pre| + 4 <= |s| && U32(s, |pre|) == v && s == (pre + Put32(v)) + rest
  {
    assert s == pre + Put32(v) + rest;
    U32Within(pre, Put32(v), rest, 0);
  }

  lemma {:induction false} Word16(pre: seq<byte>, v: uint16, rest: seq<byte>, s: seq<byte>)
    requires s == pre + (Put16(v) + rest)
    ensures |pre| + 2 <= |s| && U16(s, |pre|) == v && s == (pre + Put16(v)) + rest
  {
    assert s == pre + Put16(v) + rest;
    U16Within(pre, Put16(v), rest, 0);
  }

  lemma {:induction false} Skip(pre: seq<byte>, gap: seq<byte>, rest: seq<byte>, s: seq<byte>)
    requires s == pre + (gap + rest)
    ensures s == (pre + gap) + rest
  {
  }

  lemma {:induction false} XtntsReadBack(pre: seq<byte>, xs: seq<Xtnt>, rest: seq<byte>, s: seq<byte>, i: nat)
    requires s == pre + (PutXtnts(xs) + rest) && i < |xs|
    ensures U32(s, |pre| + 8 * i) == xs[i].bsPage && U32(s, |pre| + 8 * i + 4) == xs[i].vdBlk
    decreases |xs|
  {
    var tail := PutXtnts(xs[1..]) + rest;
    var one := pre + Put32(xs[0].bsPage);
    assert PutXtnts(xs) + rest == Put32(xs[0].bsPage) + (Put32(xs[0].vdBlk) + tail);
    Word32(pre, xs[0].bsPage, Put32(xs[0].vdBlk) + tail, s);
    Word32(one, xs[0].vdBlk, tail, s);
    if i > 0 {
      XtntsReadBack(one + Put32(xs[0].vdBlk), xs[1..], rest, s, i - 1);
    }
  }

  lemma {:induction false} AllXtntsReadBack(pre: seq<byte>, xs: seq<Xtnt>, rest: seq<byte>, s: seq<byte>)
    requires s == pre + (PutXtnts(xs) + rest)
    ensures XtntsAt(s, |pre|, |xs|) == xs
  {
    forall i | 0 <= i < |xs| ensures XtntsAt(s, |pre|, |xs|)[i] == xs[i] {
      XtntsReadBack(pre, xs, rest, s, i);
    }
  }

  /** BSR_XTNTS with its unused fields: reserved words, delete lists, cell count. */
  datatype Unused = Unused(a: seq<byte>, b: seq<byte>) {
    predicate Valid() {
      |a| == 12 && |b| == 30
    }
  }

  function PutXtntRec(r: XtntRec, u: Unused): (s: seq<byte>)
    requires u.Valid()
    ensures |s| == XTNT_REC_SZ
  {
    XtntRecBefore(r, u, [])
  }

  function XtntRecBefore(r: XtntRec, u: Unused, rest: seq<byte>): (s: seq<byte>)
    requires u.Valid()
    ensures |s| == XTNT_REC_SZ + |rest|
  {
    Put32(r.mapType) + (Put32(r.chainVd) + (Put32(r.chainMcid) + (u.a + (Put32(r.segmentSize)
      + (u.b + (Put16(r.xCnt) + (PutXtnts(r.xtnts) + rest)))))))
  }

  lemma {:induction false} XtntRecReadsBack(pre: seq<byte>, r: XtntRec, u: Unused, rest: seq<byte>, s: seq<byte>)
    requires u.Valid() && s == pre + XtntRecBefore(r, u, rest)
    ensures |pre| + XTNT_REC_SZ <= |s| && XtntRecAt(s, |pre|, r.dataSz) == r
  {
    var t7 := PutXtnts(r.xtnts) + rest;
    var t6 := Put16(r.xCnt) + t7;
    var t5 := u.b + t6;
    var t4 := Put32(r.segmentSize) + t5;
    var t3 := u.a + t4;
    var t2 := Put32(r.chainMcid) + t3;
    var p1 := pre + Put32(r.mapType);
    var p2 := p1 + Put32(r.chainVd);
    var p3 := p2 + Put32(r.chainMcid);
    var p4 := p3 + u.a;
    var p5 := p4 + Put32(r.segmentSize);
    var p6 := p5 + u.b;
    Word32(pre, r.mapType, Put32(r.chainVd) + t2, s);
    Word32(p1, r.chainVd, t2, s);
    Word32(p2, r.chainMcid, t3, s);
    Skip(p3, u.a, t4, s);
    Word32(p4, r.segmentSize, t5, s);
    Skip(p5, u.b, t6, s);
    Word16(p6, r.xCnt, t7, s);
    AllXtntsReadBack(p6 + Put16(r.xCnt), r.xtnts, rest, s);
  }

  /** BSR_XTRA_XTNTS and BSR_SHADOW_XTNTS: unused fields, count, descriptors. */
  function PutCounted(u: seq<byte>, xCnt: uint16, xs: seq<Xtnt>): (s: seq<byte>)
    ensures |s| == |u| + 2 + 8 * |xs|
  {
    u + (Put16(xCnt) + PutXtnts(xs))
  }

  lemma {:induction false} CountedReadsBack(pre: seq<byte>, u: seq<byte>, xCnt: uint16, xs: seq<Xtnt>,
                                            rest: seq<byte>, s: seq<byte>)
    requires s == pre + PutCounted(u, xCnt, xs) + rest
    ensures |pre| + |u| + 2 + 8 * |xs| <= |s|
    ensures U16(s, |pre| + |u|) == xCnt && XtntsAt(s, |pre| + |u| + 2, |xs|) == xs
  {
    var tail := PutXtnts(xs) + rest;
    assert s == pre + (u + (Put16(xCnt) + tail));
    Skip(pre, u, Put16(xCnt) + tail, s);
    Word16(pre + u, xCnt, tail, s);
    AllXtntsReadBack(pre + u + Put16(xCnt), xs, rest, s);
  }

  // ---- whole mcells ----

  lemma {:induction false} DataReadsBack(rs: seq<Bmt.Record>, tail: seq<byte>, a: Bmt.Area, t: byte)
    requires Bmt.AllValid(rs) && Bmt.EndsAt(tail, 0) && a == Bmt.PrintAll(rs) + tail
    ensures match Bmt.FirstOfType(rs, t)
            case None => DataOf(a, t) == None
            case Some(i) =>
              DataOf(a, t).Some? && var d := DataOf(a, t).value;
              d.size == |rs[i].data| && a[d.at..d.at + d.size] == rs[i].data
  {
    Bmt.FindReturnsFirst(rs, tail, a, t);
  }

  lemma {:induction false} SliceOfSlice(s: seq<byte>, lo: nat, hi: nat, a: nat, b: nat)
    requires lo <= hi <= |s| && a <= b <= hi - lo
    ensures s[lo..hi][a..b] == s[lo + a..lo + b]
  {
    var part := s[lo..hi];
    assert |part[a..b]| == |s[lo + a..lo + b]|;
    forall i | 0 <= i < b - a ensures part[a..b][i] == s[lo + a..lo + b][i] {
      assert part[a + i] == s[lo + a + i];
    }
  }

  /** The bytes of a page from which an mcell's record is decoded. */
  lemma {:induction false} SpanInPage(page: Page, c: nat, d: Span, s: seq<byte>, data: seq<byte>)
    requires c < BSPG_CELLS && d.at + d.size <= 268 && s == page + Zeros(XTRA_REC_SZ)
    requires AreaOf(page, c)[d.at..d.at + d.size] == data
    ensures var at := CellStart(c) + MCELL_HDR_SZ + d.at;
            at + d.size <= |s| && s == s[..at] + data + s[at + d.size..]
  {
    var at := CellStart(c) + MCELL_HDR_SZ + d.at;
    SliceOfSlice(page, CellStart(c) + MCELL_HDR_SZ, CellStart(c) + MCELL_SZ, d.at, d.at + d.size);
    assert s[at..at + d.size] == page[at..at + d.size];
  }

  /** Where mcell c stands in a page, behind a header of 16 bytes and c mcells of 292: the
      link to the next mcell, its volume, 18 bytes of other fields, and the record area. */
  lemma {:induction false} CellReadsBack(page: Page, c: nat, pre: seq<byte>, next: McellId, nextVd: uint16,
                                         u: seq<byte>, area: Bmt.Area, post: seq<byte>)
    requires c < 28 && |pre| == 16 + 292 * c && |u| == 18
    requires page == pre + (Put32(next) + (Put16(nextVd) + (u + (area + post))))
    ensures CellOf(page, c).nextMcid == next && CellOf(page, c).nextVd == nextVd && AreaOf(page, c) == area
  {
    var p1 := pre + Put32(next);
    var p2 := p1 + Put16(nextVd);
    Word32(pre, next, Put16(nextVd) + (u + (area + post)), page);
    Word16(p1, nextVd, u + (area + post), page);
    Skip(p2, u, area + post, page);
    MiddleSlice(p2 + u, area, post, page);
  }

  lemma {:induction false} MiddleSlice(pre: seq<byte>, mid: seq<byte>, post: seq<byte>, s: seq<byte>)
    requires s == pre + (mid + post)
    ensures |pre| + |mid| <= |s| && s[|pre|..|pre| + |mid|] == mid
  {
  }

  /** A metadata page is accepted exactly if the upper five bits of its fourth word are 3 or 4. */
  lemma {:induction false} VersionDecides(page: Page, pre: seq<byte>, id: uint32, version: nat, post: seq<byte>)
    requires |pre| == 12 && id < 0x800_0000 && version < 32
    requires page == pre + (Put32(id + 0x800_0000 * version) + post)
    ensures ReadCells(Ok(page)) == if version == 3 || version == 4 then Ok(CellsOf(page)) else Err(EILSEQ)
  {
    Word32(pre, id + 0x800_0000 * version, post, page);
  }

  /** The record area of mcell c is a printed list of records. */
  predicate Printed(page: Page, c: nat, rs: seq<Bmt.Record>, tail: seq<byte>) {
    && c < BSPG_CELLS && Bmt.AllValid(rs) && Bmt.EndsAt(tail, 0)
    && AreaOf(page, c) == Bmt.PrintAll(rs) + tail
  }

  /** An mcell decodes to the first printed BSR_XTNTS record, field by field, or to none. */
  lemma {:induction false} CellXtntReadsBack(page: Page, c: nat, rs: seq<Bmt.Record>, tail: seq<byte>, r: XtntRec,
                                             u: Unused)
    requires Printed(page, c, rs, tail) && u.Valid() && r.dataSz == XTNT_REC_SZ
    ensures match Bmt.FirstOfType(rs, BSR_XTNTS)
            case None => CellOf(page, c).xtnt == None
            case Some(i) => rs[i].data == PutXtntRec(r, u) ==> CellOf(page, c).xtnt == Some(r)
  {
    var a, first := AreaOf(page, c), Bmt.FirstOfType(rs, BSR_XTNTS);
    DataReadsBack(rs, tail, a, BSR_XTNTS);
    if first.Some? && rs[first.value].data == PutXtntRec(r, u) {
      XtntFromSpan(page, c, DataOf(a, BSR_XTNTS).value, r, u);
    }
  }

  lemma {:induction false} XtntFromSpan(page: Page, c: nat, d: Span, r: XtntRec, u: Unused)
    requires c < BSPG_CELLS && d.at + d.size <= 268 && DataOf(AreaOf(page, c), BSR_XTNTS) == Some(d)
    requires u.Valid() && AreaOf(page, c)[d.at..d.at + d.size] == PutXtntRec(r, u) && r.dataSz == d.size
    ensures CellOf(page, c).xtnt == Some(r)
  {
    XtntAtSpan(page, c, d, page + Zeros(XTRA_REC_SZ), r, u);
  }

  lemma {:induction false} XtntAtSpan(page: Page, c: nat, d: Span, s: seq<byte>, r: XtntRec, u: Unused)
    requires c < BSPG_CELLS && d.at + d.size <= 268 && s == page + Zeros(XTRA_REC_SZ)
    requires u.Valid() && AreaOf(page, c)[d.at..d.at + d.size] == PutXtntRec(r, u) && r.dataSz == d.size
    ensures var at := CellStart(c) + MCELL_HDR_SZ + d.at;
            at + XTNT_REC_SZ <= |s| && XtntRecAt(s, at, d.size) == r
  {
    var at := CellStart(c) + MCELL_HDR_SZ + d.at;
    SpanInPage(page, c, d, s, PutXtntRec(r, u));
    AppendRest(r, u, s[at + d.size..]);
    Skip2(s[..at], PutXtntRec(r, u), s[at + d.size..]);
    XtntRecReadsBack(s[..at], r, u, s[at + d.size..], s);
  }

  lemma {:induction false} Skip2(a: seq<byte>, b: seq<byte>, c: seq<byte>)
    ensures a + b + c == a + (b + c)
  {
  }

  lemma {:induction false} AppendRest(r: XtntRec, u: Unused, rest: seq<byte>)
    requires u.Valid()
    ensures PutXtntRec(r, u) + rest == XtntRecBefore(r, u, rest)
  {
  }

  /** The same for BSR_XTRA_XTNTS. */
  lemma {:induction false} CellXtraReadsBack(page: Page, c: nat, rs: seq<Bmt.Record>, tail: seq<byte>, r: XtraRec,
                                             u: seq<byte>)
    requires Printed(page, c, rs, tail) && |u| == 2 && r.dataSz == XTRA_REC_SZ
    ensures match Bmt.FirstOfType(rs, BSR_XTRA_XTNTS)
            case None => CellOf(page, c).xtra == None
            case Some(i) => rs[i].data == PutCounted(u, r.xCnt, r.xtnts) ==> CellOf(page, c).xtra == Some(r)
  {
    var a, first := AreaOf(page, c), Bmt.FirstOfType(rs, BSR_XTRA_XTNTS);
    DataReadsBack(rs, tail, a, BSR_XTRA_XTNTS);
    if first.Some? && rs[first.value].data == PutCounted(u, r.xCnt, r.xtnts) {
      CountedAtSpan(page, c, DataOf(a, BSR_XTRA_XTNTS).value, page + Zeros(XTRA_REC_SZ), u, r.xCnt, r.xtnts);
    }
  }

  /** The same for BSR_SHADOW_XTNTS. */
  lemma {:induction false} CellShadowReadsBack(page: Page, c: nat, rs: seq<Bmt.Record>, tail: seq<byte>,
                                               r: ShadowRec, u: seq<byte>)
    requires Printed(page, c, rs, tail) && |u| == 6 && r.dataSz == SHADOW_REC_SZ
    ensures match Bmt.FirstOfType(rs, BSR_SHADOW_XTNTS)
            case None => CellOf(page, c).shadow == None
            case Some(i) => rs[i].data == PutCounted(u, r.xCnt, r.xtnts) ==> CellOf(page, c).shadow == Some(r)
  {
    var a, first := AreaOf(page, c), Bmt.FirstOfType(rs, BSR_SHADOW_XTNTS);
    DataReadsBack(rs, tail, a, BSR_SHADOW_XTNTS);
    if first.Some? && rs[first.value].data == PutCounted(u, r.xCnt, r.xtnts) {
      CountedAtSpan(page, c, DataOf(a, BSR_SHADOW_XTNTS).value, page + Zeros(XTRA_REC_SZ), u, r.xCnt, r.xtnts);
    }
  }

  lemma {:induction false} CountedAtSpan(page: Page, c: nat, d: Span, s: seq<byte>, u: seq<byte>, xCnt: uint16,
                                         xs: seq<Xtnt>)
    requires c < BSPG_CELLS && d.at + d.size <= 268 && s == page + Zeros(XTRA_REC_SZ)
    requires AreaOf(page, c)[d.at..d.at + d.size] == PutCounted(u, xCnt, xs)
    ensures var at := CellStart(c) + MCELL_HDR_SZ + d.at;
            at + |u| + 2 + 8 * |xs| <= |s| && U16(s, at + |u|) == xCnt && XtntsAt(s, at + |u| + 2, |xs|) == xs
  {
    var at := CellStart(c) + MCELL_HDR_SZ + d.at;
    SpanInPage(page, c, d, s, PutCounted(u, xCnt, xs));
    CountedReadsBack(s[..at], u, xCnt, xs, s[at + d.size..], s);
  }
}
