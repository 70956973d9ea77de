/** The volume table of a domain (src/domain.c): opening a primary volume,
    attaching secondary ones, and looking volumes up by index. */
module Domain {
  import opened Ods
  import opened Util
  import opened Metadata
  import opened Bootstrap

  const FIRST_RBMT_VERSION: nat := 4
  const META_PAGE: uint32 := 2

  datatype DomainId = DomainId(sec: int, usec: int)

  /** An opened volume: its version probe, its metadata pages, and the
      domain and volume attributes found on its metadata page 0. */
  datatype Volume = Volume(id: nat, version: Result<nat>, meta: MetaVolume,
                           dmnAttr: Option<DomainId>, vdAttr: Option<uint16>)

  /** One row of the table. */
  datatype Vd = Vd(vol: Volume, vdIndex: uint32, bmtMap: seq<Xtnt>)

  // ---- specification ----

  /** The BMT map of one volume; from version 4 on the chain cells of the BMT
      live in the RBMT, which is mapped first. */
  function VolumeMap(vol: Volume, pg0: BmtPage, version: nat): Result<seq<Xtnt>> {
    if MetaError(pg0, 0).Some? then Err(MetaError(pg0, 0).value)
    else if version < FIRST_RBMT_VERSION then Ok(MetaMap(vol.meta, pg0, 0, None).entries)
    else if MetaError(pg0, 4).Some? then Err(MetaError(pg0, 4).value)
    else Ok(MetaMap(vol.meta, pg0, 4, Some(MetaMap(vol.meta, pg0, 0, None).entries)).entries)
  }

  function FindFrom(vds: seq<Vd>, vdIndex: uint32, from: nat): (i: Option<nat>)
    requires from <= |vds|
    ensures i.Some? ==> from <= i.value < |vds| && vds[i.value].vdIndex == vdIndex
    decreases |vds| - from
  {
    if from == |vds| then None
    else if vds[from].vdIndex == vdIndex then Some(from)
    else FindFrom(vds, vdIndex, from + 1)
  }

  /** Row of a volume index; index 0 names the primary volume. */
  function Find(vds: seq<Vd>, vdIndex: uint32): (i: Option<nat>)
    ensures i.Some? ==> i.value < |vds|
  {
    if vds == [] then None
    else if vdIndex == 0 then Some(0)
    else FindFrom(vds, vdIndex, 0)
  }

  /** The row a primary volume gets. */
  function PrimaryRow(v: Volume): Result<Vd> {
    if v.version.Err? then Err(v.version.errno)
    else if v.meta(META_PAGE).Err? then Err(v.meta(META_PAGE).errno)
    else if v.dmnAttr.None? then Err(EILSEQ)
    else
      match VolumeMap(v, v.meta(META_PAGE).value, v.version.value)
      case Err(e) => Err(e)
      case Ok(m) => Ok(Vd(v, if v.vdAttr.Some? && v.vdAttr.value != 0 then v.vdAttr.value else 1, m))
  }

  /** The row a further volume gets, in a table opened on `primary`. */
  function SecondaryRow(primary: Volume, vds: seq<Vd>, v: Volume): Result<Vd> {
    if |vds| >= MAX_DOM_VDS then Err(E2BIG)
    else if v.version.Err? then Err(v.version.errno)
    else if v.version != primary.version then Err(EINVAL)
    else if v.meta(META_PAGE).Err? then Err(v.meta(META_PAGE).errno)
    else if v.dmnAttr.None? then Err(EILSEQ)
    else if v.dmnAttr != primary.dmnAttr then Err(EINVAL)
    else
      var vdIndex := if v.vdAttr.Some? then v.vdAttr.value else |vds| + 1;
      if vdIndex == 0 || Find(vds, vdIndex).Some? then Err(EEXIST)
      else
        match VolumeMap(v, v.meta(META_PAGE).value, v.version.value)
        case Err(e) => Err(e)
        case Ok(m) => Ok(Vd(v, vdIndex, m))
  }

  function NextRow(primary: Volume, vds: seq<Vd>, v: Volume): Result<Vd> {
    if vds == [] then PrimaryRow(primary) else SecondaryRow(primary, vds, v)
  }

  /** Attach volumes in order until one fails. */
  function AttachAll(primary: Volume, vds: seq<Vd>, vols: seq<Volume>): (seq<Vd>, Option<Errno>)
    decreases |vols|
  {
    if vols == [] then (vds, None)
    else
      match NextRow(primary, vds, vols[0])
      case Err(e) => (vds, Some(e))
      case Ok(row) => AttachAll(primary, vds + [row], vols[1..])
  }

  /** Rows distinct, nonzero, and no more than the table holds. */
  predicate TableOk(vds: seq<Vd>) {
    && 1 <= |vds| <= MAX_DOM_VDS
    && (forall i :: 0 <= i < |vds| ==> vds[i].vdIndex != 0)
    && forall i, j :: 0 <= i < j < |vds| ==> vds[i].vdIndex != vds[j].vdIndex
  }

  // ---- the domain object ----

  class DomainTable {
    var primary: Volume
    var vds: seq<Vd>

    constructor (v: Volume)
      ensures primary == v && vds == []
    {
      primary := v;
      vds := [];
    }

    /** domain_find_vd. */
    method FindVd(vdIndex: uint32) returns (i: Option<nat>)
      ensures i == Find(vds, vdIndex)
    {
      if |vds| < 1 {
        return None;
      }
      if vdIndex == 0 {
        return Some(0);
      }
      var k := 0;
      while k < |vds|
        invariant 0 <= k <= |vds|
        invariant FindFrom(vds, vdIndex, 0) == FindFrom(vds, vdIndex, k)
      {
        if vds[k].vdIndex == vdIndex {
          return Some(k);
        }
        k := k + 1;
      }
      return None;
    }

    method BuildVolumeMap(v: Volume, pg0: BmtPage, version: nat) returns (r: Result<seq<Xtnt>>)
      ensures r == VolumeMap(v, pg0, version)
    {
      var map0 := new Xtnt[MAX_BMT_EXTENTS];
      var err, count := BuildMetaExtentMap(v.meta, pg0, 0, None, map0);
      if err.Some? {
        return Err(err.value);
      }
      if version < FIRST_RBMT_VERSION {
        return Ok(map0[..count]);
      }
      var bmt := new Xtnt[MAX_BMT_EXTENTS];
      var rbmt := map0[..count];
      err, count := BuildMetaExtentMap(v.meta, pg0, 4, Some(rbmt), bmt);
      if err.Some? {
        return Err(err.value);
      }
      return Ok(bmt[..count]);
    }

    /** domain_open_primary, and the registration of the primary row. */
    method OpenPrimary() returns (err: Option<Errno>)
      modifies this`vds
      ensures match PrimaryRow(primary)
              case Err(e) => err == Some(e) && vds == old(vds)
              case Ok(row) => err == None && vds == [row]
    {
      if primary.version.Err? {
        return Some(primary.version.errno);
      }
      var pg0 := primary.meta(META_PAGE);
      if pg0.Err? {
        return Some(pg0.errno);
      }
      if primary.dmnAttr.None? {
        return Some(EILSEQ);
      }
      var m := BuildVolumeMap(primary, pg0.value, primary.version.value);
      if m.Err? {
        return Some(m.errno);
      }
      var vdIndex: uint32 := 1;
      if primary.vdAttr.Some? && primary.vdAttr.value != 0 {
        vdIndex := primary.vdAttr.value;
      }
      vds := [Vd(primary, vdIndex, m.value)];
      return None;
    }

    /** attach_secondary_volume: appends one row, or leaves the table alone. */
    method AttachSecondary(v: Volume) returns (err: Option<Errno>)
      requires primary.version.Ok? && primary.dmnAttr.Some?
      modifies this`vds
      ensures match SecondaryRow(primary, old(vds), v)
              case Err(e) => err == Some(e) && vds == old(vds)
              case Ok(row) => err == None && vds == old(vds) + [row]
    {
      if |vds| >= MAX_DOM_VDS {
        return Some(E2BIG);
      }
      if v.version.Err? {
        return Some(v.version.errno);
      }
      if v.version.value != primary.version.value {
        return Some(EINVAL);
      }
      var pg0 := v.meta(META_PAGE);
      if pg0.Err? {
        return Some(pg0.errno);
      }
      if v.dmnAttr.None? {
        return Some(EILSEQ);
      }
      if v.dmnAttr.value != primary.dmnAttr.value {
        return Some(EINVAL);
      }
      var vdIndex: uint32 := if v.vdAttr.Some? then v.vdAttr.value else |vds| + 1;
      var dup := FindVd(vdIndex);
      if vdIndex == 0 || dup.Some? {
        return Some(EEXIST);
      }
      var m := BuildVolumeMap(v, pg0.value, v.version.value);
      if m.Err? {
        return Some(m.errno);
      }
      vds := vds + [Vd(v, vdIndex, m.value)];
      return None;
    }

    /** advfs_domain_open_multi. */
    method OpenMulti(vols: seq<Volume>) returns (err: Option<Errno>)
      requires vols != [] ==> primary == vols[0]
      requires vds == []
      modifies this`vds
      ensures if |vols| < 1 || |vols| > MAX_DOM_VDS then err == Some(EINVAL) && vds == []
              else (vds, err) == AttachAll(primary, [], vols)
    {
      if |vols| < 1 || |vols| > MAX_DOM_VDS {
        return Some(EINVAL);
      }
      err := OpenPrimary();
      if err.Some? {
        return;
      }
      var i := 1;
      assert [] + vds == vds;
      while i < |vols|
        invariant 1 <= i <= |vols| && vds != [] && err == None
        invariant primary.version.Ok? && primary.dmnAttr.Some?
        invariant AttachAll(primary, [], vols) == AttachAll(primary, vds, vols[i..])
      {
        assert vols[i..][0] == vols[i] && vols[i..][1..] == vols[i + 1..];
        err := AttachSecondary(vols[i]);
        if err.Some? {
          return;
        }
        i := i + 1;
      }
    }
  }

  // ---- properties of the table ----

  lemma {:induction false} FindFromMisses(vds: seq<Vd>, vdIndex: uint32, from: nat)
    requires from <= |vds| && FindFrom(vds, vdIndex, from) == None
    ensures forall i :: from <= i < |vds| ==> vds[i].vdIndex != vdIndex
    decreases |vds| - from
  {
    if from < |vds| {
      FindFromMisses(vds, vdIndex, from + 1);
    }
  }

  lemma {:induction false} FindFromOther(vds: seq<Vd>, vdIndex: uint32, from: nat)
    requires from <= |vds| && forall i :: from <= i < |vds| ==> vds[i].vdIndex != vdIndex
    ensures FindFrom(vds, vdIndex, from) == None
    decreases |vds| - from
  {
    if from < |vds| {
      FindFromOther(vds, vdIndex, from + 1);
    }
  }

  /** The index a further volume asks for: its own, else the next in argument order. */
  function WantedIndex(vds: seq<Vd>, v: Volume): nat {
    if v.vdAttr.Some? then v.vdAttr.value else |vds| + 1
  }

  /** Exactly when a further volume attaches: fewer than 8 so far, the same domain and
      version as the primary, an index that is not 0 and not taken, and a BMT map. */
  lemma {:induction false} AttachesExactly(primary: Volume, vds: seq<Vd>, v: Volume)
    ensures SecondaryRow(primary, vds, v).Ok?
            <==> && |vds| < 8 && v.version.Ok? && v.version == primary.version
                 && v.meta(2).Ok? && v.dmnAttr.Some? && v.dmnAttr == primary.dmnAttr
                 && WantedIndex(vds, v) != 0 && (forall i :: 0 <= i < |vds| ==> vds[i].vdIndex != WantedIndex(vds, v))
                 && VolumeMap(v, v.meta(2).value, v.version.value).Ok?
    ensures SecondaryRow(primary, vds, v).Ok? ==>
              SecondaryRow(primary, vds, v).value
              == Vd(v, WantedIndex(vds, v), VolumeMap(v, v.meta(2).value, v.version.value).value)
  {
    if |vds| < 8 {
      var i := WantedIndex(vds, v);
      if Find(vds, i).None? && i != 0 {
        if vds != [] {
          FindFromMisses(vds, i, 0);
        }
      } else if i != 0 && forall k :: 0 <= k < |vds| ==> vds[k].vdIndex != i {
        FindFromOther(vds, i, 0);
      }
    }
  }

  /** Exactly when a primary volume opens; without an index of its own, or with index 0, it is
      volume 1. */
  lemma {:induction false} OpensExactly(v: Volume)
    ensures PrimaryRow(v).Ok?
            <==> v.version.Ok? && v.meta(2).Ok? && v.dmnAttr.Some?
                 && VolumeMap(v, v.meta(2).value, v.version.value).Ok?
    ensures PrimaryRow(v).Ok? ==>
              && PrimaryRow(v).value.vol == v
              && PrimaryRow(v).value.vdIndex == (if v.vdAttr.GetOr(0) == 0 then 1 else v.vdAttr.value)
  {
  }

  /** A row that attaches keeps indices distinct and nonzero. */
  lemma {:induction false} RowKeepsTable(primary: Volume, vds: seq<Vd>, v: Volume)
    requires TableOk(vds) && SecondaryRow(primary, vds, v).Ok?
    ensures TableOk(vds + [SecondaryRow(primary, vds, v).value])
  {
    var row := SecondaryRow(primary, vds, v).value;
    FindFromMisses(vds, row.vdIndex, 0);
  }

  /** Opening a domain, successful or not, leaves a sound table. */
  lemma {:induction false} OpenTableSound(primary: Volume, vds: seq<Vd>, vols: seq<Volume>)
    requires vds != [] ==> TableOk(vds)
    ensures var rows := AttachAll(primary, vds, vols).0; rows != [] ==> TableOk(rows)
    decreases |vols|
  {
    if vols != [] && NextRow(primary, vds, vols[0]).Ok? {
      if vds != [] {
        RowKeepsTable(primary, vds, vols[0]);
      }
      OpenTableSound(primary, vds + [NextRow(primary, vds, vols[0]).value], vols[1..]);
    }
  }

  function VolumesOf(vds: seq<Vd>): seq<Volume> {
    if vds == [] then [] else VolumesOf(vds[..|vds| - 1]) + [vds[|vds| - 1].vol]
  }

  lemma {:induction false} VolumesOfAppend(vds: seq<Vd>, row: Vd)
    ensures VolumesOf(vds + [row]) == VolumesOf(vds) + [row.vol]
  {
    assert (vds + [row])[..|vds|] == vds;
  }

  lemma {:induction false} AttachGrows(primary: Volume, vds: seq<Vd>, vols: seq<Volume>)
    ensures |vds| <= |AttachAll(primary, vds, vols).0| <= |vds| + |vols|
    decreases |vols|
  {
    if vols != [] && NextRow(primary, vds, vols[0]).Ok? {
      AttachGrows(primary, vds + [NextRow(primary, vds, vols[0]).value], vols[1..]);
    }
  }

  lemma {:induction false} PrefixShift(before: seq<Volume>, vols: seq<Volume>, k: nat)
    requires 0 < k <= |vols|
    ensures before + [vols[0]] + vols[1..][..k - 1] == before + vols[..k]
  {
    assert [vols[0]] + vols[1..][..k - 1] == vols[..k];
  }

  lemma {:induction false} AttachStep(primary: Volume, vds: seq<Vd>, vols: seq<Volume>)
    requires vols != [] && NextRow(primary, vds, vols[0]).Ok?
    ensures AttachAll(primary, vds, vols)
            == AttachAll(primary, vds + [NextRow(primary, vds, vols[0]).value], vols[1..])
  {
  }

  lemma {:induction false} NextRowVolume(primary: Volume, vds: seq<Vd>, v: Volume)
    requires NextRow(primary, vds, v).Ok? && (vds == [] ==> v == primary)
    ensures NextRow(primary, vds, v).value.vol == v
  {
  }

  /** The table lists the attached volumes in order, all of them exactly on success. */
  lemma {:induction false} OpenTableLists(primary: Volume, vds: seq<Vd>, vols: seq<Volume>, k: nat)
    requires vds == [] && vols != [] ==> vols[0] == primary
    requires |AttachAll(primary, vds, vols).0| == |vds| + k
    ensures k <= |vols| && VolumesOf(AttachAll(primary, vds, vols).0) == VolumesOf(vds) + vols[..k]
    ensures AttachAll(primary, vds, vols).1 == None <==> k == |vols|
    decreases |vols|
  {
    AttachGrows(primary, vds, vols);
    if vols != [] && NextRow(primary, vds, vols[0]).Ok? {
      var row := NextRow(primary, vds, vols[0]).value;
      AttachStep(primary, vds, vols);
      AttachGrows(primary, vds + [row], vols[1..]);
      NextRowVolume(primary, vds, vols[0]);
      VolumesOfAppend(vds, row);
      OpenTableLists(primary, vds + [row], vols[1..], k - 1);
      PrefixShift(VolumesOf(vds), vols, k);
    } else {
      assert vols[..k] == [];
    }
  }

  lemma {:induction false} FindFromHits(vds: seq<Vd>, i: nat, from: nat)
    requires TableOk(vds) && from <= i < |vds|
    ensures FindFrom(vds, vds[i].vdIndex, from) == Some(i)
    decreases i - from
  {
    if from < i {
      FindFromHits(vds, i, from + 1);
    }
  }

  /** Every attached volume is found under its own index, and the primary also under 0. */
  lemma {:induction false} EveryRowIsFound(vds: seq<Vd>, i: nat)
    requires TableOk(vds) && i < |vds|
    ensures Find(vds, vds[i].vdIndex) == Some(i) && Find(vds, 0) == Some(0)
  {
    FindFromHits(vds, i, 0);
  }

  lemma {:induction false} FindFromExtends(vds: seq<Vd>, row: Vd, vdIndex: uint32, from: nat)
    requires from <= |vds| && FindFrom(vds, vdIndex, from).Some?
    ensures FindFrom(vds + [row], vdIndex, from) == FindFrom(vds, vdIndex, from)
    decreases |vds| - from
  {
    if vds[from].vdIndex != vdIndex {
      FindFromExtends(vds, row, vdIndex, from + 1);
    }
  }

  /** Attaching a volume never changes what an index already names. */
  lemma {:induction false} AttachKeepsLookups(vds: seq<Vd>, row: Vd, vdIndex: uint32)
    requires Find(vds, vdIndex).Some?
    ensures Find(vds + [row], vdIndex) == Find(vds, vdIndex)
  {
    if vdIndex != 0 {
      FindFromExtends(vds, row, vdIndex, 0);
    }
  }

  /** A BMT page of the volume under an index (advfs_domain_read_bmt_page_vd). */
  function ReadBmtPage(vds: seq<Vd>, vdIndex: uint32, page: uint32): Result<BmtPage> {
    match Find(vds, vdIndex)
    case None => Err(ENOENT)
    case Some(i) =>
      match Resolve(vds[i].bmtMap, page)
      case Err(e) => Err(e)
      case Ok(vp) => vds[i].vol.meta(vp)
  }

  /** Each page the bootstrap met on its chain, located through the map as it was then,
      is what the finished table reads under the same BMT page number. */
  predicate ChainReadsBack(vds: seq<Vd>, i: nat, xs: seq<Xtnt>, chain: McellId, hops: nat)
    requires i < |vds| && |xs| <= MAX_BMT_EXTENTS && hops <= MAX_META_HOPS
    decreases MAX_META_HOPS - hops
  {
    chain == 0 || hops == MAX_META_HOPS ||
    var next := Step(vds[i].vol.meta, None, xs, chain);
    next.None? ||
    (&& Resolve(xs, McidPage(chain)).Ok?
     && ReadBmtPage(vds, vds[i].vdIndex, McidPage(chain)) == vds[i].vol.meta(Resolve(xs, McidPage(chain)).value)
     && ChainReadsBack(vds, i, next.value.0, next.value.1, hops + 1))
  }

  lemma {:induction false} StayingReadsBack(vds: seq<Vd>, i: nat, xs: seq<Xtnt>, chain: McellId, hops: nat)
    requires TableOk(vds) && i < |vds| && |xs| <= MAX_BMT_EXTENTS && hops <= MAX_META_HOPS
    requires vds[i].bmtMap == Build(vds[i].vol.meta, None, xs, chain, hops).entries
    requires AllStay(vds[i].vol.meta, xs, chain, hops, vds[i].bmtMap)
    ensures ChainReadsBack(vds, i, xs, chain, hops)
    decreases MAX_META_HOPS - hops
  {
    var next := Step(vds[i].vol.meta, None, xs, chain);
    if chain != 0 && hops < MAX_META_HOPS && next.Some? {
      BuildGrows(vds[i].vol.meta, None, xs, chain, hops);
      StayedStep(vds[i].vol.meta, xs, vds[i].bmtMap, chain);
      EveryRowIsFound(vds, i);
      StayingReadsBack(vds, i, next.value.0, next.value.1, hops + 1);
    }
  }

  /** A row's volume is of the primary's domain and version, and the row carries the map
      built from the volume's own metadata page 0. */
  predicate RowHasItsMap(primary: Volume, row: Vd) {
    && row.vol.dmnAttr == primary.dmnAttr && row.vol.dmnAttr.Some?
    && row.vol.version == primary.version && row.vol.version.Ok? && row.vol.meta(META_PAGE).Ok?
    && VolumeMap(row.vol, row.vol.meta(META_PAGE).value, row.vol.version.value) == Ok(row.bmtMap)
  }

  predicate RowsHaveTheirMaps(primary: Volume, vds: seq<Vd>) {
    forall i :: 0 <= i < |vds| ==> RowHasItsMap(primary, vds[i])
  }

  lemma {:induction false} OpenedRowsHaveMaps(primary: Volume, vds: seq<Vd>, vols: seq<Volume>)
    requires RowsHaveTheirMaps(primary, vds)
    ensures RowsHaveTheirMaps(primary, AttachAll(primary, vds, vols).0)
    decreases |vols|
  {
    if vols != [] && NextRow(primary, vds, vols[0]).Ok? {
      var row := NextRow(primary, vds, vols[0]).value;
      assert RowHasItsMap(primary, row);
      OpenedRowsHaveMaps(primary, vds + [row], vols[1..]);
    }
  }

  /** Opening any volumes as a version 3 domain, whose BMT is its own resolving map: every
      chain page of an attached volume whose records end in boundaries reads back through
      the finished table as the page the bootstrap used. */
  lemma {:induction false} ChainPagesReadBack(primary: Volume, vols: seq<Volume>, vds: seq<Vd>, i: nat, pg0: BmtPage,
                                              prim: seq<Xtnt>)
    requires vds == AttachAll(primary, [], vols).0 && i < |vds|
    requires primary.version.Ok? && primary.version.value < FIRST_RBMT_VERSION
    requires vds[i].vol.meta(META_PAGE) == Ok(pg0) && pg0[0].xtnt.Some?
    requires var xr := pg0[0].xtnt.value;
             && prim == Clamped(xr.xtnts, xr.xCnt) && EndsInBoundary(prim)
             && RecordsClosed(vds[i].vol.meta, prim, xr.chainMcid, 0)
    ensures ChainReadsBack(vds, i, prim, pg0[0].xtnt.value.chainMcid, 0)
  {
    OpenedRowsHaveMaps(primary, [], vols);
    OpenTableSound(primary, [], vols);
    assert RowHasItsMap(primary, vds[i]);
    assert Extend([], prim) == prim;
    ClosedReadsBack(vds, i, prim, pg0[0].xtnt.value.chainMcid, 0);
  }

  lemma {:induction false} ClosedReadsBack(vds: seq<Vd>, i: nat, prim: seq<Xtnt>, chain: McellId, hops: nat)
    requires TableOk(vds) && i < |vds| && |prim| <= MAX_BMT_EXTENTS && EndsInBoundary(prim) && hops <= MAX_META_HOPS
    requires vds[i].bmtMap == Build(vds[i].vol.meta, None, prim, chain, hops).entries
    requires RecordsClosed(vds[i].vol.meta, prim, chain, hops)
    ensures ChainReadsBack(vds, i, prim, chain, hops)
  {
    ClosedIsFixpoint(vds[i].vol.meta, prim, chain, hops, vds[i].bmtMap);
    StayingReadsBack(vds, i, prim, chain, hops);
  }
}
