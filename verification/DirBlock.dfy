/** Variable-length entries in a 512-byte directory block (src/dir.c). */
module DirBlock {
  import opened Ods
  import opened LittleEndian

  const ENTRY_HDR_SZ: nat := 8
  const TAG_SZ: nat := 8
  const MIN_ENTRY_SZ: nat := 20
  const MAX_DIR_NAME: nat := 255

  type Block = s: seq<byte> | |s| == 512 witness Zeros(512)

  datatype Tag = Tag(num: uint32, seqNo: uint32)

  /** What a walk reports; names are C strings. */
  datatype Event = Live(name: seq<byte>, tag: Tag) | Deleted(name: seq<byte>, tag: Tag)

  /** The bytes a C string function sees: those before the first NUL. */
  function CString(s: seq<byte>): (r: seq<byte>)
    ensures r <= s && 0 !in r && (|r| < |s| ==> s[|r|] == 0)
  {
    if s == [] || s[0] == 0 then [] else [s[0]] + CString(s[1..])
  }

  lemma {:induction false} CStringWhole(s: seq<byte>)
    requires 0 !in s
    ensures CString(s) == s
  {
    if s != [] {
      CStringWhole(s[1..]);
    }
  }

  // ---- one entry ----

  function TagNum(e: seq<byte>): uint32
    requires |e| >= ENTRY_HDR_SZ
  {
    U32(e, 0)
  }

  function NameCount(e: seq<byte>): uint16
    requires |e| >= ENTRY_HDR_SZ
  {
    U16(e, 6)
  }

  /** Room for the header, the name and the trailing tag. */
  predicate HasName(e: seq<byte>)
    requires |e| >= ENTRY_HDR_SZ
  {
    NameCount(e) > 0 && |e| >= MIN_ENTRY_SZ && ENTRY_HDR_SZ + NameCount(e) + TAG_SZ <= |e|
  }

  function NameOf(e: seq<byte>): seq<byte>
    requires |e| >= ENTRY_HDR_SZ && HasName(e)
  {
    CString(e[ENTRY_HDR_SZ..ENTRY_HDR_SZ + Min(NameCount(e), MAX_DIR_NAME)])
  }

  function TrailingTag(e: seq<byte>): Tag
    requires |e| >= ENTRY_HDR_SZ && HasName(e)
  {
    Tag(U32(e, |e| - 8), U32(e, |e| - 4))
  }

  /** The event an entry's bytes give rise to, if any. */
  function EventOf(e: seq<byte>): Option<Event>
    requires |e| >= ENTRY_HDR_SZ
  {
    if !HasName(e) then None
    else if TagNum(e) != 0 then Some(Live(NameOf(e), TrailingTag(e)))
    else if TrailingTag(e).num != 0 && NameOf(e) != [] then Some(Deleted(NameOf(e), TrailingTag(e)))
    else None
  }

  function Opt(e: Option<Event>): seq<Event> {
    match e
    case None => []
    case Some(v) => [v]
  }

  // ---- a block ----

  /** Size of the entry at off, or 0 where the walk stops. */
  function SizeAt(block: Block, off: nat): (n: nat)
    ensures n == 0 || (ENTRY_HDR_SZ <= n && off + n <= 512)
  {
    if off + ENTRY_HDR_SZ > 512 then 0
    else
      var n := U16(block, off + 4);
      if n < ENTRY_HDR_SZ || off + n > 512 then 0 else n
  }

  function EntryAt(block: Block, off: nat): (e: seq<byte>)
    requires SizeAt(block, off) != 0
    ensures |e| == SizeAt(block, off)
  {
    block[off..off + SizeAt(block, off)]
  }

  /** The events of a block from off on, in order. */
  function EventsFrom(block: Block, off: nat): seq<Event>
    decreases 512 - off
  {
    if SizeAt(block, off) == 0 then []
    else Opt(EventOf(EntryAt(block, off))) + EventsFrom(block, off + SizeAt(block, off))
  }

  // ---- callbacks ----

  /** A pair of callbacks: which classes of entry they exist for, and when they ask
      to stop, given everything they have been told so far. */
  datatype Sink = Sink(live: bool, deleted: bool, stop: seq<Event> -> bool)

  predicate Wants(sink: Sink, e: Event) {
    if e.Live? then sink.live else sink.deleted
  }

  datatype Delivery = Delivery(seen: seq<Event>, stopped: bool)

  /** Events delivered in order until a stop request. */
  function Deliver(sink: Sink, seen: seq<Event>, es: seq<Event>): Delivery
    decreases |es|
  {
    if es == [] then Delivery(seen, false)
    else if !Wants(sink, es[0]) then Deliver(sink, seen, es[1..])
    else if sink.stop(seen + [es[0]]) then Delivery(seen + [es[0]], true)
    else Deliver(sink, seen + [es[0]], es[1..])
  }

  /** The events a sink cares for, in order. */
  function Wanted(sink: Sink, es: seq<Event>): seq<Event> {
    if es == [] then []
    else if Wants(sink, es[0]) then [es[0]] + Wanted(sink, es[1..])
    else Wanted(sink, es[1..])
  }

  /** What a delivery amounts to: the wanted events up to and including the first
      one at which the callback asks to stop, or all of them. */
  lemma {:induction false} DeliverCutsAtFirstStop(sink: Sink, seen: seq<Event>, es: seq<Event>)
    ensures var d := Deliver(sink, seen, es);
            var all := seen + Wanted(sink, es);
            && |seen| <= |d.seen| <= |all| && d.seen == all[..|d.seen|]
            && (forall k :: |seen| < k < |d.seen| ==> !sink.stop(all[..k]))
            && (if d.stopped then |seen| < |d.seen| && sink.stop(d.seen)
                else d.seen == all && (|seen| < |all| ==> !sink.stop(all)))
    decreases |es|
  {
    if es != [] {
      if Wants(sink, es[0]) {
        var next := seen + [es[0]];
        assert seen + Wanted(sink, es) == next + Wanted(sink, es[1..]);
        assert (next + Wanted(sink, es[1..]))[..|next|] == next;
        if !sink.stop(next) {
          DeliverCutsAtFirstStop(sink, next, es[1..]);
        }
      } else {
        DeliverCutsAtFirstStop(sink, seen, es[1..]);
      }
    }
  }

  lemma {:induction false} DeliverConcat(sink: Sink, seen: seq<Event>, a: seq<Event>, b: seq<Event>)
    ensures var d := Deliver(sink, seen, a);
            Deliver(sink, seen, a + b) == if d.stopped then d else Deliver(sink, d.seen, b)
    decreases |a|
  {
    if a == [] {
      assert a + b == b;
    } else {
      assert (a + b)[0] == a[0] && (a + b)[1..] == a[1..] + b;
      DeliverConcat(sink, if Wants(sink, a[0]) then seen + [a[0]] else seen, a[1..], b);
    }
  }

  /** The callbacks' user_data. */
  class Listener {
    const sink: Sink
    var seen: seq<Event>

    constructor (sink: Sink)
      ensures this.sink == sink && seen == []
    {
      this.sink, seen := sink, [];
    }

    method Receive(e: Event) returns (stop: bool)
      modifies this
      ensures Delivery(seen, stop) == Deliver(sink, old(seen), [e])
    {
      assert [e][1..] == [];
      if !Wants(sink, e) {
        return false;
      }
      seen := seen + [e];
      stop := sink.stop(seen);
    }
  }

  /** One entry of walk_dir_block. */
  method VisitEntry(e: seq<byte>, l: Listener) returns (stop: bool)
    requires |e| >= ENTRY_HDR_SZ
    modifies l
    ensures Delivery(l.seen, stop) == Deliver(l.sink, old(l.seen), Opt(EventOf(e)))
  {
    stop := false;
    if TagNum(e) == 0 {
      if HasName(e) {
        var tag := TrailingTag(e);
        var name := NameOf(e);
        if tag.num != 0 && name != [] {
          stop := l.Receive(Deleted(name, tag));
        }
      }
    } else if HasName(e) {
      stop := l.Receive(Live(NameOf(e), TrailingTag(e)));
    }
  }

  lemma {:induction false} DeliverEntry(sink: Sink, seen: seq<Event>, block: Block, off: nat)
    requires SizeAt(block, off) != 0
    ensures var d := Deliver(sink, seen, Opt(EventOf(EntryAt(block, off))));
            Deliver(sink, seen, EventsFrom(block, off))
            == if d.stopped then d else Deliver(sink, d.seen, EventsFrom(block, off + SizeAt(block, off)))
  {
    DeliverConcat(sink, seen, Opt(EventOf(EntryAt(block, off))), EventsFrom(block, off + SizeAt(block, off)));
  }

  method VisitAt(block: Block, off: nat, l: Listener, ghost result: Delivery) returns (stop: bool, next: nat)
    requires SizeAt(block, off) != 0
    requires result == Deliver(l.sink, l.seen, EventsFrom(block, off))
    modifies l
    ensures off < next <= 512
    ensures stop ==> result == Delivery(l.seen, true)
    ensures !stop ==> result == Deliver(l.sink, l.seen, EventsFrom(block, next))
  {
    DeliverEntry(l.sink, l.seen, block, off);
    stop := VisitEntry(EntryAt(block, off), l);
    next := off + SizeAt(block, off);
  }

  /** walk_dir_block: every event of the block in order, until a callback stops it. */
  method WalkDirBlock(block: Block, l: Listener) returns (stop: bool)
    modifies l
    ensures Delivery(l.seen, stop) == Deliver(l.sink, old(l.seen), EventsFrom(block, 0))
  {
    ghost var result := Deliver(l.sink, l.seen, EventsFrom(block, 0));
    var off := 0;
    while SizeAt(block, off) != 0
      invariant 0 <= off <= 512
      invariant result == Deliver(l.sink, l.seen, EventsFrom(block, off))
      decreases 512 - off
    {
      stop, off := VisitAt(block, off, l, result);
      if stop {
        return;
      }
    }
    return false;
  }
}
