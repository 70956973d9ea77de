/** Typed records in the 268-byte record area of an mcell (src/bmt.c). */
module Bmt {
  import opened Ods
  import opened LittleEndian

  const HDR_SZ: nat := 4
  const BSR_NIL: byte := 0

  type Area = s: seq<byte> | |s| == 268 witness Zeros(268)

  // ---- the packed record header ----

  function BCnt(raw: uint32): uint16 { raw % 0x1_0000 }

  function RecType(raw: uint32): byte { raw / 0x1_0000 % 0x100 }

  function RecVersion(raw: uint32): byte { raw / 0x100_0000 }

  function Pack(bCnt: uint16, t: byte, version: byte): (raw: uint32)
    ensures BCnt(raw) == bCnt && RecType(raw) == t && RecVersion(raw) == version
  {
    (bCnt as int) + 0x1_0000 * (t as int) + 0x100_0000 * (version as int)
  }

  // ---- the finders ----

  /** Offset of the first record header of type t at or after p. */
  function FindFrom(a: Area, p: nat, t: byte): (r: Option<nat>)
    ensures r.Some? ==> r.value + HDR_SZ <= 268 && HDR_SZ <= BCnt(U32(a, r.value)) <= 268 - r.value
    decreases 268 - p
  {
    if p + HDR_SZ > 268 then None
    else
      var raw := U32(a, p);
      if RecType(raw) == BSR_NIL then None
      else if BCnt(raw) < HDR_SZ || p + BCnt(raw) > 268 then None
      else if RecType(raw) == t then Some(p)
      else FindFrom(a, p + RoundUp4(BCnt(raw)), t)
  }

  /** advfs_bmt_find_rec. */
  method FindRec(a: Area, t: byte) returns (r: Option<nat>)
    ensures r == FindFrom(a, 0, t)
  {
    var p := 0;
    while p + HDR_SZ <= 268
      invariant FindFrom(a, 0, t) == FindFrom(a, p, t)
      decreases 268 - p
    {
      var raw := U32(a, p);
      if RecType(raw) == BSR_NIL {
        return None;
      }
      var bcnt := BCnt(raw);
      if bcnt < HDR_SZ || p + bcnt > 268 {
        return None;
      }
      if RecType(raw) == t {
        return Some(p);
      }
      p := p + RoundUp4(bcnt);
    }
    return None;
  }

  /** advfs_bmt_next_rec, a single step. */
  function NextRec(a: Area, p: nat): (r: Option<nat>)
    ensures r.Some? ==> r.value > p && r.value + HDR_SZ <= 268
  {
    if p + HDR_SZ > 268 then None
    else
      var raw := U32(a, p);
      var next := p + RoundUp4(BCnt(raw));
      if RecType(raw) == BSR_NIL || BCnt(raw) < HDR_SZ then None
      else if next + HDR_SZ > 268 || RecType(U32(a, next)) == BSR_NIL then None
      else Some(next)
  }

  /** Headers visited by stepping from p. */
  function Visit(a: Area, p: nat): seq<nat>
    decreases 268 - p
  {
    match NextRec(a, p)
    case None => [p]
    case Some(next) => [p] + Visit(a, next)
  }

  // ---- the printer ----

  datatype Record = Record(t: byte, version: byte, data: seq<byte>) {
    predicate Valid() {
      t != BSR_NIL && |data| + HDR_SZ <= 268
    }

    /** Header (byte count including itself), payload, padding to 4 bytes. */
    function Print(): (s: seq<byte>)
      requires Valid()
      ensures |s| == RoundUp4(|data| + HDR_SZ)
    {
      var n := |data| + HDR_SZ;
      Put32(Pack(n, t, version)) + data + Zeros(RoundUp4(n) - n)
    }
  }

  predicate AllValid(rs: seq<Record>) {
    forall i :: 0 <= i < |rs| ==> rs[i].Valid()
  }

  function PrintAll(rs: seq<Record>): seq<byte>
    requires AllValid(rs)
  {
    if rs == [] then [] else rs[0].Print() + PrintAll(rs[1..])
  }

  /** Where the records of a list start, the first one at p. */
  function Offsets(rs: seq<Record>, p: nat): (offs: seq<nat>)
    requires AllValid(rs)
    ensures |offs| == |rs|
  {
    if rs == [] then [] else [p] + Offsets(rs[1..], p + |rs[0].Print()|)
  }

  function FirstOfType(rs: seq<Record>, t: byte): (i: Option<nat>)
    ensures i.Some? ==> i.value < |rs| && rs[i.value].t == t
    ensures i.Some? ==> forall j :: 0 <= j < i.value ==> rs[j].t != t
    ensures i.None? ==> forall j :: 0 <= j < |rs| ==> rs[j].t != t
  {
    if rs == [] then None
    else if rs[0].t == t then Some(0)
    else
      match FirstOfType(rs[1..], t)
      case None => None
      case Some(i) => Some(i + 1)
  }

  /** Record r stands at p: its byte count, type and version are in the header and
      its payload follows. */
  predicate StandsAt(a: seq<byte>, p: nat, r: Record) {
    && p + HDR_SZ + |r.data| <= |a|
    && BCnt(U32(a, p)) == |r.data| + HDR_SZ
    && RecType(U32(a, p)) == r.t && RecVersion(U32(a, p)) == r.version
    && a[p + HDR_SZ..p + HDR_SZ + |r.data|] == r.data
  }

  /** No record at p: too little room for a header, or a nil header. */
  predicate EndsAt(a: seq<byte>, p: nat) {
    |a| < p + HDR_SZ || RecType(U32(a, p)) == BSR_NIL
  }

  /** The records rs, and no further one, stand in a from p. */
  predicate Holds(a: seq<byte>, p: nat, rs: seq<Record>)
    requires AllValid(rs)
    decreases |rs|
  {
    if rs == [] then EndsAt(a, p)
    else StandsAt(a, p, rs[0]) && Holds(a, p + |rs[0].Print()|, rs[1..])
  }

  // ---- round trips ----

  lemma {:induction false} HeaderReadsBack(pre: seq<byte>, raw: uint32, rest: seq<byte>, a: seq<byte>)
    requires a == pre + (Put32(raw) + rest)
    ensures |pre| + HDR_SZ <= |a| && U32(a, |pre|) == raw
  {
    assert a == pre + Put32(raw) + rest;
    U32Within(pre, Put32(raw), rest, 0);
  }

  lemma {:induction false} PayloadReadsBack(pre: seq<byte>, hdr: seq<byte>, data: seq<byte>, rest: seq<byte>,
                                            a: seq<byte>)
    requires a == pre + (hdr + (data + rest))
    ensures |pre| + |hdr| + |data| <= |a| && a[|pre| + |hdr|..|pre| + |hdr| + |data|] == data
  {
    assert a == (pre + hdr) + data + rest;
  }

  /** A printed record reads back, wherever it stands. */
  lemma {:induction false} RecordReadsBack(pre: seq<byte>, r: Record, post: seq<byte>)
    requires r.Valid()
    ensures StandsAt(pre + r.Print() + post, |pre|, r)
  {
    var n := |r.data| + HDR_SZ;
    var raw, pad := Pack(n, r.t, r.version), Zeros(RoundUp4(n) - n);
    var a := pre + r.Print() + post;
    assert a == pre + (Put32(raw) + (r.data + (pad + post)));
    HeaderReadsBack(pre, raw, r.data + (pad + post), a);
    PayloadReadsBack(pre, Put32(raw), r.data, pad + post, a);
  }

  lemma {:induction false} TailEnds(pre: seq<byte>, tail: seq<byte>)
    requires EndsAt(tail, 0)
    ensures EndsAt(pre + tail, |pre|)
  {
    if |tail| >= HDR_SZ {
      assert pre + tail == pre + tail + [];
      U32Within(pre, tail, [], 0);
    }
  }

  lemma {:induction false} PrintedStep(pre: seq<byte>, rs: seq<Record>, tail: seq<byte>, a: seq<byte>)
    requires AllValid(rs) && rs != [] && a == pre + PrintAll(rs) + tail
    ensures StandsAt(a, |pre|, rs[0]) && a == (pre + rs[0].Print()) + PrintAll(rs[1..]) + tail
  {
    var head, rest := rs[0].Print(), PrintAll(rs[1..]);
    RegroupBytes(pre, head, rest, tail);
    RecordReadsBack(pre, rs[0], rest + tail);
  }

  lemma {:induction false} HoldsStep(a: seq<byte>, p: nat, rs: seq<Record>, next: nat)
    requires AllValid(rs) && rs != [] && StandsAt(a, p, rs[0])
    requires next == p + |rs[0].Print()| && Holds(a, next, rs[1..])
    ensures Holds(a, p, rs)
  {
  }

  /** A printed list of records reads back, wherever it stands. */
  lemma {:induction false} PrintedHolds(pre: seq<byte>, rs: seq<Record>, tail: seq<byte>, a: seq<byte>)
    requires AllValid(rs) && EndsAt(tail, 0) && a == pre + PrintAll(rs) + tail
    ensures Holds(a, |pre|, rs)
    decreases |rs|
  {
    if rs == [] {
      assert a == pre + tail;
      TailEnds(pre, tail);
    } else {
      var pre' := pre + rs[0].Print();
      PrintedStep(pre, rs, tail, a);
      PrintedHolds(pre', rs[1..], tail, a);
      HoldsStep(a, |pre|, rs, |pre'|);
    }
  }

  lemma {:induction false} PrintedFromStart(rs: seq<Record>, tail: seq<byte>, a: seq<byte>)
    requires AllValid(rs) && EndsAt(tail, 0) && a == PrintAll(rs) + tail
    ensures Holds(a, 0, rs)
  {
    assert a == [] + PrintAll(rs) + tail;
    PrintedHolds([], rs, tail, a);
  }

  lemma {:induction false} NoneAtEnd(a: Area, p: nat, t: byte)
    requires EndsAt(a, p)
    ensures FindFrom(a, p, t) == None
  {
  }

  lemma {:induction false} FindStep(a: Area, p: nat, r: Record, t: byte)
    requires r.Valid() && StandsAt(a, p, r)
    ensures FindFrom(a, p, t) == if r.t == t then Some(p) else FindFrom(a, p + |r.Print()|, t)
  {
  }

  lemma {:induction false} FindInHeld(a: Area, p: nat, rs: seq<Record>, t: byte)
    requires AllValid(rs) && Holds(a, p, rs)
    ensures match FirstOfType(rs, t)
            case None => FindFrom(a, p, t) == None
            case Some(i) =>
              FindFrom(a, p, t) == Some(Offsets(rs, p)[i]) && StandsAt(a, Offsets(rs, p)[i], rs[i])
    decreases |rs|
  {
    if rs == [] {
      NoneAtEnd(a, p, t);
    } else {
      FindStep(a, p, rs[0], t);
      if rs[0].t != t {
        FindInHeld(a, p + |rs[0].Print()|, rs[1..], t);
      }
    }
  }

  /** advfs_bmt_find_rec on any printed record area returns the first record of the
      type, with its exact byte count and payload, and NULL if there is none. */
  lemma {:induction false} FindReturnsFirst(rs: seq<Record>, tail: seq<byte>, a: Area, t: byte)
    requires AllValid(rs) && EndsAt(tail, 0) && a == PrintAll(rs) + tail
    ensures match FirstOfType(rs, t)
            case None => FindFrom(a, 0, t) == None
            case Some(i) =>
              FindFrom(a, 0, t) == Some(Offsets(rs, 0)[i]) && StandsAt(a, Offsets(rs, 0)[i], rs[i])
  {
    PrintedFromStart(rs, tail, a);
    FindInHeld(a, 0, rs, t);
  }

  lemma {:induction false} VisitHeld(a: Area, p: nat, rs: seq<Record>)
    requires rs != [] && AllValid(rs) && Holds(a, p, rs)
    ensures Visit(a, p) == Offsets(rs, p)
    decreases |rs|
  {
    var next := p + |rs[0].Print()|;
    if |rs| == 1 {
      assert rs[1..] == [];
    } else {
      assert StandsAt(a, next, rs[1..][0]);
      VisitHeld(a, next, rs[1..]);
    }
  }

  /** Stepping with advfs_bmt_next_rec visits exactly the printed records, in order. */
  lemma {:induction false} VisitsAll(rs: seq<Record>, tail: seq<byte>, a: Area)
    requires rs != [] && AllValid(rs) && EndsAt(tail, 0) && a == PrintAll(rs) + tail
    ensures Visit(a, 0) == Offsets(rs, 0)
  {
    PrintedFromStart(rs, tail, a);
    VisitHeld(a, 0, rs);
  }

  /** On any area at all, printed or not: what find_rec finds, next_rec reaches. */
  lemma {:induction false} FoundIsVisited(a: Area, p: nat, t: byte)
    requires p + HDR_SZ <= 268 && FindFrom(a, p, t).Some?
    ensures FindFrom(a, p, t).value in Visit(a, p)
    decreases 268 - p
  {
    if RecType(U32(a, p)) != t {
      FoundIsVisited(a, p + RoundUp4(BCnt(U32(a, p))), t);
    }
  }
}
