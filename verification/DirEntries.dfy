/** Directory entries printed from the V3 layout (src/ods.h), and what deleting one
    does to a walk. */
module DirEntries {
  import opened Ods
  import opened LittleEndian
  import opened DirBlock

  // ---- the printer ----

  /** A named entry (live, or deleted with its tag number zeroed) with some slack
      before its trailing tag, or never-used space. */
  datatype Entry = Named(live: bool, name: seq<byte>, tag: Tag, slack: nat) | Gap(junk: seq<byte>) {

    predicate Valid() {
      match this
      case Named(_, name, tag, slack) => 0 < |name| <= MAX_DIR_NAME && 0 !in name && tag.num != 0 && slack <= 512
      case Gap(junk) => |junk| <= 504
    }

    /** The name is NUL-terminated and padded to four bytes. */
    function Size(): nat {
      match this
      case Named(_, name, _, slack) => ENTRY_HDR_SZ + RoundUp4(|name| + 1) + slack + TAG_SZ
      case Gap(junk) => ENTRY_HDR_SZ + |junk|
    }

    function Header(): (s: seq<byte>)
      requires Valid()
      ensures |s| == ENTRY_HDR_SZ
    {
      match this
      case Named(live, name, tag, _) => Put32(if live then tag.num else 0) + Put16(Size()) + Put16(|name|)
      case Gap(_) => Put32(0) + Put16(Size()) + Put16(0)
    }

    function Body(): (s: seq<byte>)
      requires Valid()
      ensures ENTRY_HDR_SZ + |s| == Size()
    {
      match this
      case Named(_, name, tag, slack) =>
        name + Zeros(RoundUp4(|name| + 1) - |name| + slack) + Put32(tag.num) + Put32(tag.seqNo)
      case Gap(junk) => junk
    }

    function Print(): (s: seq<byte>)
      requires Valid()
      ensures |s| == Size()
    {
      Header() + Body()
    }

    function Event(): Option<Event> {
      match this
      case Named(true, name, tag, _) => Some(Live(name, tag))
      case Named(false, name, tag, _) => Some(Deleted(name, tag))
      case Gap(_) => None
    }
  }

  predicate AllValid(es: seq<Entry>) {
    forall i :: 0 <= i < |es| ==> es[i].Valid()
  }

  function PrintAll(es: seq<Entry>): seq<byte>
    requires AllValid(es)
  {
    if es == [] then [] else es[0].Print() + PrintAll(es[1..])
  }

  function EventsOf(es: seq<Entry>): seq<Event> {
    if es == [] then [] else Opt(es[0].Event()) + EventsOf(es[1..])
  }

  // ---- round trip ----

  lemma {:induction false} HeaderFields(e: Entry)
    requires e.Valid()
    ensures U32(e.Header(), 0) == (if e.Named? && e.live then e.tag.num else 0)
    ensures U16(e.Header(), 4) == e.Size() && U16(e.Header(), 6) == (if e.Named? then |e.name| else 0)
  {
    var num := Put32(if e.Named? && e.live then e.tag.num else 0);
    var size := Put16(e.Size());
    var count := Put16(if e.Named? then |e.name| else 0);
    assert e.Header() == [] + num + (size + count) == num + size + count == (num + size) + count + [];
    U32Within([], num, size + count, 0);
    U16Within(num, size, count, 0);
    U16Within(num + size, count, [], 0);
  }

  lemma {:induction false} PrintedHeader(e: Entry)
    requires e.Valid()
    ensures var s := e.Print();
            && TagNum(s) == (if e.Named? && e.live then e.tag.num else 0)
            && U16(s, 4) == e.Size() && NameCount(s) == (if e.Named? then |e.name| else 0)
  {
    HeaderFields(e);
    assert e.Print() == [] + e.Header() + e.Body();
    U32Within([], e.Header(), e.Body(), 0);
    U16Within([], e.Header(), e.Body(), 4);
    U16Within([], e.Header(), e.Body(), 6);
  }

  lemma {:induction false} PrintedTag(e: Entry)
    requires e.Valid() && e.Named?
    ensures U32(e.Print(), e.Size() - 8) == e.tag.num && U32(e.Print(), e.Size() - 4) == e.tag.seqNo
  {
    var pre := e.Header() + e.name + Zeros(RoundUp4(|e.name| + 1) - |e.name| + e.slack);
    assert e.Print() == pre + Put32(e.tag.num) + Put32(e.tag.seqNo);
    TwoWords(pre, e.tag.num, e.tag.seqNo);
  }

  lemma {:induction false} TwoWords(pre: seq<byte>, a: uint32, b: uint32)
    ensures var s := pre + Put32(a) + Put32(b); U32(s, |s| - 8) == a && U32(s, |s| - 4) == b
  {
    var s := pre + Put32(a) + Put32(b);
    assert s == (pre + Put32(a)) + Put32(b) + [];
    U32Within(pre, Put32(a), Put32(b), 0);
    U32Within(pre + Put32(a), Put32(b), [], 0);
  }

  lemma {:induction false} PrintedName(e: Entry)
    requires e.Valid() && e.Named?
    ensures e.Print()[ENTRY_HDR_SZ..ENTRY_HDR_SZ + |e.name|] == e.name
  {
    var rest := Zeros(RoundUp4(|e.name| + 1) - |e.name| + e.slack) + Put32(e.tag.num) + Put32(e.tag.seqNo);
    assert e.Body() == e.name + rest;
    assert e.Print() == e.Header() + e.name + rest;
  }

  lemma {:induction false} NamedReadsBack(e: Entry, s: seq<byte>)
    requires e.Valid() && e.Named? && s == e.Print()
    ensures HasName(s) && NameOf(s) == e.name && TrailingTag(s) == e.tag
  {
    PrintedHeader(e);
    PrintedTag(e);
    PrintedName(e);
    CStringWhole(e.name);
  }

  /** Parsing a printed entry. */
  lemma {:induction false} EntryReadsBack(e: Entry)
    requires e.Valid()
    ensures EventOf(e.Print()) == e.Event()
  {
    PrintedHeader(e);
    if e.Named? {
      NamedReadsBack(e, e.Print());
    }
  }

  lemma {:induction false} SizeReadsBack(pre: seq<byte>, e: Entry, post: seq<byte>, block: Block)
    requires e.Valid() && block == pre + e.Print() + post
    ensures SizeAt(block, |pre|) == e.Size() && EntryAt(block, |pre|) == e.Print()
  {
    PrintedHeader(e);
    U16Within(pre, e.Print(), post, 4);
  }

  lemma {:induction false} PrintedStep(pre: seq<byte>, es: seq<Entry>, tail: seq<byte>, block: Block)
    requires AllValid(es) && es != [] && block == pre + PrintAll(es) + tail
    ensures SizeAt(block, |pre|) == es[0].Size() && EventOf(EntryAt(block, |pre|)) == es[0].Event()
    ensures block == (pre + es[0].Print()) + PrintAll(es[1..]) + tail
  {
    var head, rest := es[0].Print(), PrintAll(es[1..]);
    RegroupBytes(pre, head, rest, tail);
    SizeReadsBack(pre, es[0], rest + tail, block);
    EntryReadsBack(es[0]);
  }

  /** Entries es, and nothing further, stand in the block from off. */
  predicate Holds(block: Block, off: nat, es: seq<Entry>)
    decreases |es|
  {
    if es == [] then SizeAt(block, off) == 0
    else
      && SizeAt(block, off) == es[0].Size() > 0
      && EventOf(EntryAt(block, off)) == es[0].Event()
      && Holds(block, off + es[0].Size(), es[1..])
  }

  lemma {:induction false} PrintedHolds(pre: seq<byte>, es: seq<Entry>, tail: seq<byte>, block: Block)
    requires AllValid(es) && block == pre + PrintAll(es) + tail && SizeAt(block, 512 - |tail|) == 0
    ensures Holds(block, |pre|, es)
    decreases |es|
  {
    if es != [] {
      var pre' := pre + es[0].Print();
      PrintedStep(pre, es, tail, block);
      PrintedHolds(pre', es[1..], tail, block);
      assert |pre'| == |pre| + es[0].Size();
    }
  }

  lemma {:induction false} PrintedFromStart(es: seq<Entry>, tail: seq<byte>, block: Block)
    requires AllValid(es) && block == PrintAll(es) + tail && SizeAt(block, 512 - |tail|) == 0
    ensures Holds(block, 0, es)
  {
    assert block == [] + PrintAll(es) + tail;
    PrintedHolds([], es, tail, block);
  }

  lemma {:induction false} WalkOfHeld(block: Block, off: nat, es: seq<Entry>)
    requires Holds(block, off, es)
    ensures EventsFrom(block, off) == EventsOf(es)
    decreases |es|
  {
    if es != [] {
      WalkOfHeld(block, off + es[0].Size(), es[1..]);
    }
  }

  /** Walking a printed block delivers exactly its live and recoverable deleted
      entries, in order. */
  lemma {:induction false} WalkReadsBack(es: seq<Entry>, tail: seq<byte>, block: Block)
    requires AllValid(es) && block == PrintAll(es) + tail && SizeAt(block, 512 - |tail|) == 0
    ensures EventsFrom(block, 0) == EventsOf(es)
  {
    PrintedFromStart(es, tail, block);
    WalkOfHeld(block, 0, es);
  }

  // ---- deletion ----

  /** The walk from off passes through target. */
  predicate Reaches(block: Block, off: nat, target: nat)
    decreases 512 - off
  {
    off == target || (SizeAt(block, off) != 0 && Reaches(block, off + SizeAt(block, off), target))
  }

  /** The events met on the way from off to target. */
  function EventsBefore(block: Block, off: nat, target: nat): seq<Event>
    requires Reaches(block, off, target)
    decreases 512 - off
  {
    if off == target then []
    else Opt(EventOf(EntryAt(block, off))) + EventsBefore(block, off + SizeAt(block, off), target)
  }

  /** Deletion zeroes the tag number in the header and nothing else. */
  function Delete(block: Block, target: nat): Block
    requires target + 4 <= 512
  {
    block[..target] + [0, 0, 0, 0] + block[target + 4..]
  }

  /** A live entry stays recoverable exactly if it has a name and a trailing tag. */
  function AsDeleted(e: Option<Event>): Option<Event> {
    match e
    case Some(Live(name, tag)) => if name != [] && tag.num != 0 then Some(Deleted(name, tag)) else None
    case _ => e
  }

  lemma {:induction false} ReachedLater(block: Block, off: nat, target: nat)
    requires Reaches(block, off, target)
    ensures off <= target
    decreases 512 - off
  {
    if off != target {
      ReachedLater(block, off + SizeAt(block, off), target);
    }
  }

  lemma {:induction false} Regroup(a: seq<Event>, b: seq<Event>, c: seq<Event>)
    ensures a + (b + c) == a + b + c
  {
  }

  /** A walk splits at any entry it passes through. */
  lemma {:induction false} WalkSplits(block: Block, off: nat, target: nat)
    requires Reaches(block, off, target)
    ensures EventsFrom(block, off) == EventsBefore(block, off, target) + EventsFrom(block, target)
    decreases 512 - off
  {
    if off != target {
      var next := off + SizeAt(block, off);
      WalkSplits(block, next, target);
      Regroup(Opt(EventOf(EntryAt(block, off))), EventsBefore(block, next, target), EventsFrom(block, target));
    }
  }

  /** The walk around one entry that it reaches. */
  lemma {:induction false} WalkAround(block: Block, target: nat)
    requires Reaches(block, 0, target) && SizeAt(block, target) != 0
    ensures EventsFrom(block, 0)
            == EventsBefore(block, 0, target) + Opt(EventOf(EntryAt(block, target)))
               + EventsFrom(block, target + SizeAt(block, target))
  {
    WalkSplits(block, 0, target);
    Regroup(EventsBefore(block, 0, target), Opt(EventOf(EntryAt(block, target))),
            EventsFrom(block, target + SizeAt(block, target)));
  }

  /** An entry depends on its own bytes only. */
  lemma {:induction false} SameEntry(a: Block, b: Block, off: nat)
    requires SizeAt(a, off) != 0 && a[off..off + SizeAt(a, off)] == b[off..off + SizeAt(a, off)]
    ensures SizeAt(b, off) == SizeAt(a, off) && EntryAt(b, off) == EntryAt(a, off)
  {
    var n := SizeAt(a, off);
    assert a == a[..off] + a[off..off + n] + a[off + n..];
    assert b == b[..off] + a[off..off + n] + b[off + n..];
    U16Within(a[..off], a[off..off + n], a[off + n..], 4);
    U16Within(b[..off], a[off..off + n], b[off + n..], 4);
  }

  lemma {:induction false} SameSize(a: Block, b: Block, off: nat)
    requires off <= 512 && a[off..] == b[off..]
    ensures SizeAt(a, off) == SizeAt(b, off)
  {
    if off + ENTRY_HDR_SZ <= 512 {
      assert a == a[..off] + a[off..] + [] && b == b[..off] + a[off..] + [];
      U16Within(a[..off], a[off..], [], 4);
      U16Within(b[..off], a[off..], [], 4);
    }
  }

  lemma {:induction false} SameSlices(a: Block, b: Block, off: nat, n: nat)
    requires off + n <= 512 && a[off..] == b[off..]
    ensures a[off..off + n] == b[off..off + n] && a[off + n..] == b[off + n..]
  {
    assert a[off..off + n] == a[off..][..n] && b[off..off + n] == b[off..][..n];
    assert a[off + n..] == a[off..][n..] && b[off + n..] == b[off..][n..];
  }

  /** A walk depends on the bytes from its start on only. */
  lemma {:induction false} SameTail(a: Block, b: Block, off: nat)
    requires off <= 512 && a[off..] == b[off..]
    ensures EventsFrom(a, off) == EventsFrom(b, off)
    decreases 512 - off
  {
    SameSize(a, b, off);
    if SizeAt(a, off) != 0 {
      var n := SizeAt(a, off);
      SameSlices(a, b, off, n);
      SameTail(a, b, off + n);
    }
  }

  lemma {:induction false} SameBelow(a: Block, b: Block, target: nat, off: nat, n: nat)
    requires off + n <= target <= 512 && a[..target] == b[..target]
    ensures a[off..off + n] == b[off..off + n]
  {
    assert a[off..off + n] == a[..target][off..off + n] && b[off..off + n] == b[..target][off..off + n];
  }

  lemma {:induction false} SameWay(a: Block, b: Block, off: nat, target: nat)
    requires Reaches(a, off, target) && target <= 512 && a[..target] == b[..target]
    ensures Reaches(b, off, target) && EventsBefore(b, off, target) == EventsBefore(a, off, target)
    decreases 512 - off
  {
    if off != target {
      var n := SizeAt(a, off);
      ReachedLater(a, off + n, target);
      SameBelow(a, b, target, off, n);
      SameEntry(a, b, off);
      SameWay(a, b, off + n, target);
    }
  }

  lemma {:induction false} DeletedHeader(e: seq<byte>, d: seq<byte>)
    requires |e| == |d| >= ENTRY_HDR_SZ && d[0] == d[1] == d[2] == d[3] == 0
    requires forall i :: 4 <= i < |e| ==> e[i] == d[i]
    ensures TagNum(d) == 0 && NameCount(d) == NameCount(e)
  {
  }

  lemma {:induction false} DeletedEntry(e: seq<byte>, d: seq<byte>)
    requires |e| == |d| >= ENTRY_HDR_SZ && TagNum(e) != 0 && d[0] == d[1] == d[2] == d[3] == 0
    requires forall i :: 4 <= i < |e| ==> e[i] == d[i]
    ensures EventOf(d) == AsDeleted(EventOf(e))
  {
    DeletedHeader(e, d);
    if HasName(e) {
      var n := Min(NameCount(e), MAX_DIR_NAME);
      assert e[ENTRY_HDR_SZ..ENTRY_HDR_SZ + n] == d[ENTRY_HDR_SZ..ENTRY_HDR_SZ + n];
      SameTag(e, d);
    }
  }

  lemma {:induction false} SameTag(e: seq<byte>, d: seq<byte>)
    requires |e| == |d| >= MIN_ENTRY_SZ && forall i :: 4 <= i < |e| ==> e[i] == d[i]
    ensures U32(e, |e| - 8) == U32(d, |d| - 8) && U32(e, |e| - 4) == U32(d, |d| - 4)
  {
  }

  /** Zeroing the tag number of any live entry a walk reaches moves exactly that
      entry to the deleted stream, with the same name and tag (or drops it, when it
      has no name or no trailing tag); every other event stays where it is. */
  lemma {:induction false} DeletionMovesOneEntry(block: Block, target: nat)
    requires Reaches(block, 0, target) && SizeAt(block, target) != 0
    requires TagNum(EntryAt(block, target)) != 0
    ensures var e := EventOf(EntryAt(block, target));
            var before := EventsBefore(block, 0, target);
            var after := EventsFrom(block, target + SizeAt(block, target));
            && EventsFrom(block, 0) == before + Opt(e) + after
            && EventsFrom(Delete(block, target), 0) == before + Opt(AsDeleted(e)) + after
  {
    RestUnchanged(block, target);
    DeletedInPlace(block, target);
    SameAround(block, Delete(block, target), target);
  }

  /** Two walks through the same entries but for the one at target. */
  lemma {:induction false} SameAround(a: Block, b: Block, target: nat)
    requires Reaches(a, 0, target) && Reaches(b, 0, target) && SizeAt(a, target) == SizeAt(b, target) != 0
    requires EventsBefore(a, 0, target) == EventsBefore(b, 0, target)
    requires EventsFrom(a, target + SizeAt(a, target)) == EventsFrom(b, target + SizeAt(a, target))
    ensures var before, after := EventsBefore(a, 0, target), EventsFrom(a, target + SizeAt(a, target));
            && EventsFrom(a, 0) == before + Opt(EventOf(EntryAt(a, target))) + after
            && EventsFrom(b, 0) == before + Opt(EventOf(EntryAt(b, target))) + after
  {
    WalkAround(a, target);
    WalkAround(b, target);
  }

  lemma {:induction false} RestUnchanged(block: Block, target: nat)
    requires Reaches(block, 0, target) && SizeAt(block, target) != 0
    ensures var d := Delete(block, target);
            var next := target + SizeAt(block, target);
            && Reaches(d, 0, target) && EventsBefore(d, 0, target) == EventsBefore(block, 0, target)
            && EventsFrom(d, next) == EventsFrom(block, next)
  {
    var d := Delete(block, target);
    var next := target + SizeAt(block, target);
    DeletedSlices(block, d, target, next);
    SameWay(block, d, 0, target);
    SameTail(d, block, next);
  }

  lemma {:induction false} DeletedSlices(block: Block, d: Block, target: nat, next: nat)
    requires target + 4 <= next <= 512 && d == Delete(block, target)
    ensures d[..target] == block[..target] && d[next..] == block[next..]
  {
  }

  lemma {:induction false} DeletedInPlace(block: Block, target: nat)
    requires SizeAt(block, target) != 0 && TagNum(EntryAt(block, target)) != 0
    ensures var d := Delete(block, target);
            && SizeAt(d, target) == SizeAt(block, target)
            && EventOf(EntryAt(d, target)) == AsDeleted(EventOf(EntryAt(block, target)))
  {
    var d := Delete(block, target);
    var n := SizeAt(block, target);
    assert U16(d, target + 4) == U16(block, target + 4);
    DeletedEntry(block[target..target + n], d[target..target + n]);
  }
}
