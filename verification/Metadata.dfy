/** Mcells as the record finder presents them: for each extent record type, the
    first record of that type, or none (src/ods.h). */
module Metadata {
  import opened Ods

  type TwoXtnts = s: seq<Xtnt> | |s| == 2 witness seq(2, _ => Xtnt(0, 0))
  type XtraXtnts = s: seq<Xtnt> | |s| == 32 witness seq(32, _ => Xtnt(0, 0))
  type ShadowXtnts = s: seq<Xtnt> | |s| == 31 witness seq(31, _ => Xtnt(0, 0))

  /** BSR_XTNTS. */
  datatype XtntRec = XtntRec(dataSz: nat, mapType: uint32, chainVd: uint32, chainMcid: McellId,
                             segmentSize: uint32, xCnt: uint16, xtnts: TwoXtnts)

  /** BSR_XTRA_XTNTS. */
  datatype XtraRec = XtraRec(dataSz: nat, xCnt: uint16, xtnts: XtraXtnts)

  /** BSR_SHADOW_XTNTS. */
  datatype ShadowRec = ShadowRec(dataSz: nat, xCnt: uint16, xtnts: ShadowXtnts)

  datatype Mcell = Mcell(xtnt: Option<XtntRec>, xtra: Option<XtraRec>, shadow: Option<ShadowRec>,
                         nextMcid: McellId, nextVd: uint16)

  const EMPTY_MCELL := Mcell(None, None, None, 0, 0)

  type BmtPage = s: seq<Mcell> | |s| == BSPG_CELLS witness seq(BSPG_CELLS, _ => EMPTY_MCELL)

  const XTNT_REC_SZ: nat := 76
  const BSXMT_STRIPE: uint32 := 2

  /** The valid entries of a record: the count is clamped to the array. */
  function Clamped(xs: seq<Xtnt>, cnt: uint16): seq<Xtnt> {
    xs[..Min(cnt, |xs|)]
  }

  predicate HasOverflow(mc: Mcell) {
    mc.xtra.Some? || mc.shadow.Some?
  }

  /** The descriptors of an overflow mcell: as many as its XTRA record counts, up to 32, or,
      if it has none, as many as its SHADOW record counts, up to 31. */
  function Descriptors(mc: Mcell): seq<Xtnt> {
    if mc.xtra.Some? then mc.xtra.value.xtnts[..Min(mc.xtra.value.xCnt, 32)]
    else if mc.shadow.Some? then mc.shadow.value.xtnts[..Min(mc.shadow.value.xCnt, 31)]
    else []
  }
}
