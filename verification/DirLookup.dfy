/** Finding a name in a directory: the mount stops at the first match
    (src/fuse_ops.c), the tool collects everything and searches (src/advfs_tool.c). */
module DirLookup {
  import opened Ods
  import opened DirBlock
  import opened Filesets
  import opened Dir

  function FirstNamed(es: seq<Event>, name: seq<byte>): Option<Tag> {
    if es == [] then None
    else if es[0].name == name then Some(es[0].tag)
    else FirstNamed(es[1..], name)
  }

  predicate EndsWith(seen: seq<Event>, name: seq<byte>) {
    |seen| > 0 && seen[|seen| - 1].name == name
  }

  /** lookup_cb: stop when the wanted name is found. */
  function FindSink(name: seq<byte>): Sink {
    Sink(true, false, seen => EndsWith(seen, name))
  }

  /** collect_live_cb: never stops. */
  function CollectSink(): Sink {
    Sink(true, false, seen => false)
  }

  /** The live entries, in order. */
  function Lives(es: seq<Event>): seq<Event> {
    Wanted(CollectSink(), es)
  }

  // ---- the two lookups ----

  function ByStopping(s: Stream, name: seq<byte>): Result<Tag> {
    var h := Hear(FindSink(name), [], s);
    if h.err.Some? then Err(h.err.value)
    else if EndsWith(h.seen, name) then Ok(h.seen[|h.seen| - 1].tag)
    else Err(ENOENT)
  }

  function ByCollecting(s: Stream, name: seq<byte>): Result<Tag> {
    var h := Hear(CollectSink(), [], s);
    if h.err.Some? then Err(h.err.value)
    else
      match FirstNamed(h.seen, name)
      case Some(tag) => Ok(tag)
      case None => Err(ENOENT)
  }

  /** resolve_component; the mount reads directories without a clone fallback. */
  method ResolveComponent(disk: Disk, fs: Fileset, dirTag: uint32, name: seq<byte>) returns (r: Result<Tag>)
    ensures r == ByStopping(DirStream(disk, fs, None, dirTag), name)
  {
    var l := new Listener(FindSink(name));
    var err := ReadDir(disk, fs, None, dirTag, l);
    if err.Some? {
      return Err(err.value);
    }
    if !EndsWith(l.seen, name) {
      return Err(ENOENT);
    }
    return Ok(l.seen[|l.seen| - 1].tag);
  }

  /** lookup_entry. */
  method LookupEntry(disk: Disk, fs: Fileset, clone: Option<uint32>, dirTag: uint32, name: seq<byte>)
      returns (r: Result<Tag>)
    ensures r == ByCollecting(DirStream(disk, fs, clone, dirTag), name)
  {
    var l := new Listener(CollectSink());
    var err := ReadDir(disk, fs, clone, dirTag, l);
    if err.Some? {
      return Err(err.value);
    }
    var i := 0;
    var items := l.seen;
    while i < |items|
      invariant 0 <= i <= |items|
      invariant FirstNamed(items, name) == FirstNamed(items[i..], name)
    {
      if items[i].name == name {
        return Ok(items[i].tag);
      }
      i := i + 1;
    }
    r := Err(ENOENT);
  }

  // ---- when they agree ----

  lemma {:induction false} CollectHearsAll(seen: seq<Event>, es: seq<Event>)
    ensures Deliver(CollectSink(), seen, es) == Delivery(seen + Lives(es), false)
  {
    DeliverCutsAtFirstStop(CollectSink(), seen, es);
  }

  lemma {:induction false} FindHearsFirst(name: seq<byte>, seen: seq<Event>, es: seq<Event>)
    requires !EndsWith(seen, name)
    ensures var d := Deliver(FindSink(name), seen, es);
            match FirstNamed(Lives(es), name)
            case None => !d.stopped && !EndsWith(d.seen, name)
            case Some(tag) => d.stopped && EndsWith(d.seen, name) && d.seen[|d.seen| - 1].tag == tag
    decreases |es|
  {
    if es != [] {
      if es[0].Live? {
        assert Lives(es)[0] == es[0] && Lives(es)[1..] == Lives(es[1..]);
        var next := seen + [es[0]];
        if es[0].name != name {
          FindHearsFirst(name, next, es[1..]);
        }
      } else {
        FindHearsFirst(name, seen, es[1..]);
      }
    }
  }

  lemma {:induction false} StoppingFinds(s: Stream, name: seq<byte>)
    ensures ByStopping(s, name)
            == match FirstNamed(Lives(s.events), name)
               case Some(tag) => Ok(tag)
               case None => Err(s.err.GetOr(ENOENT))
  {
    FindHearsFirst(name, [], s.events);
  }

  lemma {:induction false} CollectingFinds(s: Stream, name: seq<byte>)
    ensures ByCollecting(s, name)
            == if s.err.Some? then Err(s.err.value)
               else match FirstNamed(Lives(s.events), name)
                    case Some(tag) => Ok(tag)
                    case None => Err(ENOENT)
  {
    CollectHearsAll([], s.events);
    assert [] + Lives(s.events) == Lives(s.events);
  }

  /** The two lookups agree on every directory and name, except exactly when a page
      behind the match cannot be read: then only the early stop succeeds. */
  lemma {:induction false} LookupsAgreeExactly(disk: Disk, fs: Fileset, dirTag: uint32, name: seq<byte>)
    ensures var s := DirStream(disk, fs, None, dirTag);
            ByStopping(s, name) == ByCollecting(s, name)
            <==> (s.err.Some? ==> FirstNamed(Lives(s.events), name) == None)
  {
    var s := DirStream(disk, fs, None, dirTag);
    StoppingFinds(s, name);
    CollectingFinds(s, name);
  }
}
