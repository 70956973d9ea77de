/** What the counters of a recursive count stand for (src/advfs_tool.c). */
module CountTypes {
  import opened Ods
  import opened DirBlock
  import opened Count
  import opened CountExact

  /** "." and "..". */
  predicate IsDots(e: Event) {
    e.name == [0x2E] || e.name == [0x2E, 0x2E]
  }

  /** An entry without a stat record, or with one of another inode. */
  predicate IsFaulty(t: Tree, e: Event) {
    && !IsDots(e)
    && (t.stat(e.tag.num).Err? || (t.stat(e.tag.num).value.ino != 0 && t.stat(e.tag.num).value.ino != e.tag.num))
  }

  /** An entry whose mode has its file type, the bits under 0170000, from `low` on. */
  predicate IsOfType(t: Tree, e: Event, low: nat) {
    !IsDots(e) && !IsFaulty(t, e) && low <= t.stat(e.tag.num).value.mode % 0x1_0000 < low + 0x1000
  }

  function HowMany(t: Tree, es: seq<Event>, low: nat): nat {
    if es == [] then 0 else (if IsOfType(t, es[0], low) then 1 else 0) + HowMany(t, es[1..], low)
  }

  function FaultyOnes(t: Tree, es: seq<Event>): nat {
    if es == [] then 0 else (if IsFaulty(t, es[0]) then 1 else 0) + FaultyOnes(t, es[1..])
  }

  function Dots(es: seq<Event>): nat {
    if es == [] then 0 else (if IsDots(es[0]) then 1 else 0) + Dots(es[1..])
  }

  /** Total size of the regular files. */
  function SizeOf(t: Tree, es: seq<Event>): nat {
    if es == [] then 0
    else (if IsOfType(t, es[0], 0x8000) then t.stat(es[0].tag.num).value.size else 0) + SizeOf(t, es[1..])
  }

  lemma {:induction false} TypeBits(mode: uint32, k: nat)
    requires k < 16
    ensures mode / 0x1000 % 16 == k <==> 0x1000 * k <= mode % 0x1_0000 < 0x1000 * k + 0x1000
  {
    var hi, lo := mode / 0x1_0000, mode % 0x1_0000;
    assert mode / 0x1000 == 16 * hi + lo / 0x1000;
  }

  lemma {:induction false} EntryByType(t: Tree, e: Event)
    ensures var own := Own(KindOf(t, e));
            && own.dirs == (if IsOfType(t, e, 0x4000) then 1 else 0)
            && own.files == (if IsOfType(t, e, 0x8000) then 1 else 0)
            && own.symlinks == (if IsOfType(t, e, 0xA000) then 1 else 0)
            && own.errors == (if IsFaulty(t, e) then 1 else 0)
            && own.size == (if IsOfType(t, e, 0x8000) then t.stat(e.tag.num).value.size else 0)
            && own.files + own.dirs + own.symlinks + own.other + own.errors + (if IsDots(e) then 1 else 0) == 1
  {
    if !IsDots(e) && !IsFaulty(t, e) {
      var mode := t.stat(e.tag.num).value.mode;
      TypeBits(mode, 4);
      TypeBits(mode, 8);
      TypeBits(mode, 10);
    }
  }

  /** What a directory's entries add: directories, regular files with their sizes and symbolic
      links by their mode, faulty entries as errors, and each entry but "." and ".." once. */
  lemma {:induction false} CountedByType(t: Tree, es: seq<Event>)
    ensures var own := OwnOf(t, es);
            && own.dirs == HowMany(t, es, 0x4000) && own.files == HowMany(t, es, 0x8000)
            && own.symlinks == HowMany(t, es, 0xA000) && own.errors == FaultyOnes(t, es) && own.size == SizeOf(t, es)
            && own.files + own.dirs + own.symlinks + own.other + own.errors + Dots(es) == |es|
  {
    if es != [] {
      EntryByType(t, es[0]);
      CountedByType(t, es[1..]);
    }
  }
}
