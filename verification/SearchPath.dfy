/** The search for a file's extent record as a list of mcell locations (src/dir.c,
    src/filedata.c). */
module SearchPath {
  import opened Ods
  import opened Metadata
  import opened Chain
  import opened Finders

  /** Where an mcell lies. */
  datatype Spot = Spot(vd: uint32, page: uint32, cell: uint32)

  predicate HasCell(bmt: Bmt, at: Spot) {
    bmt(at.vd, at.page).Ok? && at.cell < 28
  }

  function CellIn(bmt: Bmt, at: Spot): Mcell
    requires HasCell(bmt, at)
  {
    bmt(at.vd, at.page).value[at.cell]
  }

  /** The mcell has no extent record and links on to the next one: mcell ids pack page and
      cell, and volume 0 means the same volume. */
  predicate LinksTo(bmt: Bmt, at: Spot, next: Spot) {
    && HasCell(bmt, at)
    && var mc := CellIn(bmt, at);
    && mc.xtnt.None? && mc.nextMcid != 0
    && next == Spot(if mc.nextVd == 0 then at.vd else mc.nextVd, mc.nextMcid / 32, mc.nextMcid % 32)
  }

  /** The primary mcell and up to 16 more, each linked to by the one before. */
  predicate IsPath(bmt: Bmt, path: seq<Spot>) {
    && 1 <= |path| <= 17
    && forall k :: 0 <= k < |path| - 1 ==> LinksTo(bmt, path[k], path[k + 1])
  }

  /** What the search makes of the last mcell it visits, if it visits no further one. */
  predicate EndsWith(bmt: Bmt, path: seq<Spot>, found: Result<Spot>)
    requires path != []
  {
    var at := path[|path| - 1];
    if bmt(at.vd, at.page).Err? then found == Err(bmt(at.vd, at.page).errno)
    else if at.cell >= 28 then found == Err(EINVAL)
    else if CellIn(bmt, at).xtnt.Some? then found == Ok(at)
    else (CellIn(bmt, at).nextMcid == 0 || |path| == 17) && found == Err(ENODATA)
  }

  function LocOf(at: Spot, left: nat): Loc {
    Loc(at.vd, at.page, at.cell, left)
  }

  function SpotOf(r: Result<Loc>): Result<Spot> {
    match r
    case Err(e) => Err(e)
    case Ok(at) => Ok(Spot(at.vd, at.page, at.cell))
  }

  lemma {:induction false} SearchStep(bmt: Bmt, at: Spot, next: Spot, left: nat)
    requires LinksTo(bmt, at, next) && left > 0
    ensures FindCell(bmt, LocOf(at, left)) == FindCell(bmt, LocOf(next, left - 1))
  {
  }

  lemma {:induction false} SearchFrom(bmt: Bmt, path: seq<Spot>, found: Result<Spot>, k: nat, left: nat)
    requires IsPath(bmt, path) && EndsWith(bmt, path, found) && k < |path| && left == 16 - k
    ensures SpotOf(FindCell(bmt, LocOf(path[k], left))) == found
    decreases left
  {
    if k + 1 < |path| {
      SearchStep(bmt, path[k], path[k + 1], left);
      SearchFrom(bmt, path, found, k + 1, left - 1);
    }
  }

  /** The search ends where the path does: at the first extent record, or with its error. */
  lemma {:induction false} SearchFollowsPath(bmt: Bmt, path: seq<Spot>, found: Result<Spot>)
    requires IsPath(bmt, path) && EndsWith(bmt, path, found)
    ensures SpotOf(FindCell(bmt, LocOf(path[0], MAX_XTNTS_HOPS))) == found
  {
    SearchFrom(bmt, path, found, 0, MAX_XTNTS_HOPS);
  }

  /** Some links, continued to where the search ends. */
  lemma {:induction false} PathFrom(bmt: Bmt, path: seq<Spot>) returns (full: seq<Spot>, found: Result<Spot>)
    requires IsPath(bmt, path)
    ensures IsPath(bmt, full) && EndsWith(bmt, full, found) && full[0] == path[0]
    decreases 17 - |path|
  {
    var at := path[|path| - 1];
    if bmt(at.vd, at.page).Err? {
      return path, Err(bmt(at.vd, at.page).errno);
    }
    if at.cell >= 28 {
      return path, Err(EINVAL);
    }
    var mc := CellIn(bmt, at);
    if mc.xtnt.Some? {
      return path, Ok(at);
    }
    if mc.nextMcid == 0 || |path| == 17 {
      return path, Err(ENODATA);
    }
    var next := Spot(if mc.nextVd == 0 then at.vd else mc.nextVd, mc.nextMcid / 32, mc.nextMcid % 32);
    full, found := PathFrom(bmt, path + [next]);
  }

  /** Every search is along such a path. */
  lemma {:induction false} SearchHasPath(bmt: Bmt, at: Spot) returns (path: seq<Spot>, found: Result<Spot>)
    ensures IsPath(bmt, path) && path[0] == at && EndsWith(bmt, path, found)
    ensures SpotOf(FindCell(bmt, LocOf(at, MAX_XTNTS_HOPS))) == found
  {
    path, found := PathFrom(bmt, [at]);
    SearchFollowsPath(bmt, path, found);
  }
}
