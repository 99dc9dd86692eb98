/**
 The boot loader's memory map and the page frames it describes.
 */
module MemoryMap {
  import opened Sequences

  const PAGE_SIZE := 4096

  datatype Kind = Usable | Framebuffer | BootloaderReclaimable | Other

  datatype Entry = Entry(base: nat, length: nat, kind: Kind)

  /** The macro ALIGN_UP(x, PAGE_SIZE). */
  function AlignUp(x: nat): (r: nat)
    ensures r % PAGE_SIZE == 0 && x <= r < x + PAGE_SIZE
  {
    (x + (PAGE_SIZE - 1)) / PAGE_SIZE * PAGE_SIZE
  }

  /** The n consecutive frames that start at base. */
  function FramesFrom(base: nat, n: nat): (r: seq<nat>)
    ensures |r| == n
  {
    seq(n, i requires 0 <= i => base + i * PAGE_SIZE)
  }

  /** The frames one entry contributes to the free stack. */
  function FramesOf(e: Entry): seq<nat> {
    if e.kind == Usable then FramesFrom(e.base, AlignUp(e.length) / PAGE_SIZE) else []
  }

  /** The frames of all usable entries, in the order of the map. */
  function UsableFrames(m: seq<Entry>): seq<nat> {
    if m == [] then [] else UsableFrames(m[..|m|-1]) + FramesOf(m[|m|-1])
  }

  /** What the first loop of pmm_init adds up. */
  function TotalPages(m: seq<Entry>): nat {
    if m == [] then 0
    else TotalPages(m[..|m|-1]) + if m[|m|-1].kind == Usable then m[|m|-1].length / PAGE_SIZE else 0
  }

  /** The size in bytes of the free stack: one 64-bit slot a page, rounded up to pages. */
  function StackSize(m: seq<Entry>): nat {
    AlignUp(TotalPages(m) * 8)
  }

  /** Entry e can hold a free stack of the given size. */
  predicate Holds(e: Entry, size: nat) {
    e.kind == Usable && e.length >= size
  }

  /** The entry the stack is carved from: the last one that can hold it, or -1. */
  function CarveIndex(m: seq<Entry>, size: nat): (c: int)
    ensures -1 <= c < |m|
    ensures c >= 0 ==> Holds(m[c], size)
    ensures forall i :: c < i < |m| ==> !Holds(m[i], size)
  {
    if m == [] then -1
    else if Holds(m[|m|-1], size) then |m| - 1
    else CarveIndex(m[..|m|-1], size)
  }

  /** The map after the stack has been cut off the end of entry c. */
  function Carve(m: seq<Entry>, c: nat, size: nat): seq<Entry>
    requires c < |m| && size <= m[c].length
  {
    m[c := m[c].(length := m[c].length - size)]
  }

  /** The memory map as pmm_init leaves it. */
  function Carved(m: seq<Entry>): seq<Entry> {
    var c := CarveIndex(m, StackSize(m));
    if c < 0 then m else Carve(m, c, StackSize(m))
  }

  /** The frames that hold the free stack itself. */
  function StackFrames(m: seq<Entry>, c: nat, size: nat): seq<nat>
    requires c < |m| && size <= m[c].length
  {
    FramesFrom(m[c].base + (m[c].length - size), size / PAGE_SIZE)
  }

  ghost predicate Disjoint(a: Entry, b: Entry) {
    a.base + a.length <= b.base || b.base + b.length <= a.base
  }

  /** What the boot protocol promises of usable entries: page aligned, non-overlapping, none at address 0. */
  ghost predicate WellFormed(m: seq<Entry>) {
    && (forall i :: 0 <= i < |m| && m[i].kind == Usable ==>
          m[i].base > 0 && m[i].base % PAGE_SIZE == 0 && m[i].length % PAGE_SIZE == 0)
    && (forall i, j :: 0 <= i < j < |m| && m[i].kind == Usable && m[j].kind == Usable ==> Disjoint(m[i], m[j]))
  }

  lemma FramesOfMembers(e: Entry)
    requires e.kind == Usable ==> e.base % PAGE_SIZE == 0 && e.length % PAGE_SIZE == 0
    ensures NoDup(FramesOf(e))
    ensures forall f :: f in FramesOf(e) <==>
                          e.kind == Usable && f % PAGE_SIZE == 0 && e.base <= f < e.base + e.length
    ensures |FramesOf(e)| == if e.kind == Usable then e.length / PAGE_SIZE else 0
  {
    if e.kind == Usable {
      var s := FramesOf(e);
      forall f: nat | f % PAGE_SIZE == 0 && e.base <= f < e.base + e.length ensures f in s {
        assert s[(f - e.base) / PAGE_SIZE] == f;
      }
    }
  }

  ghost predicate Within(f: nat, e: Entry) {
    e.kind == Usable && f % PAGE_SIZE == 0 && e.base <= f < e.base + e.length
  }

  /** f is a page of some usable entry. */
  ghost predicate InMap(f: nat, m: seq<Entry>) {
    exists i :: 0 <= i < |m| && Within(f, m[i])
  }

  /** fs lists the usable pages of m, each once. */
  ghost predicate Exact(fs: seq<nat>, m: seq<Entry>) {
    NoDup(fs) && forall f: nat :: f in fs <==> InMap(f, m)
  }

  lemma WithinUnique(m: seq<Entry>, i: nat, j: nat, f: nat)
    requires WellFormed(m) && i < |m| && j < |m| && Within(f, m[i])
    ensures Within(f, m[j]) ==> i == j
  {
    if i < j && m[j].kind == Usable {
      assert Disjoint(m[i], m[j]);
    } else if j < i && m[j].kind == Usable {
      assert Disjoint(m[j], m[i]);
    }
  }

  /** On a well-formed map the pushed frames are exactly the pages of usable memory, each once. */
  lemma {:induction false} UsableFramesExact(m: seq<Entry>)
    requires WellFormed(m)
    ensures Exact(UsableFrames(m), m)
    ensures |UsableFrames(m)| == TotalPages(m)
  {
    if m != [] {
      var front, e := m[..|m|-1], m[|m|-1];
      UsableFramesExact(front);
      FramesOfMembers(e);
      ExactExtend(m, UsableFrames(front), FramesOf(e));
    }
  }

  lemma ExactExtend(m: seq<Entry>, fs: seq<nat>, last: seq<nat>)
    requires WellFormed(m) && m != []
    requires Exact(fs, m[..|m|-1])
    requires NoDup(last) && forall f: nat :: f in last <==> Within(f, m[|m|-1])
    ensures Exact(fs + last, m)
  {
    var front := m[..|m|-1];
    forall f: nat ensures f in fs + last <==> InMap(f, m) {
      if f in last {
        assert Within(f, m[|m|-1]);
      }
      if i :| 0 <= i < |front| && Within(f, front[i]) {
        assert Within(f, m[i]);
      }
      if i :| 0 <= i < |m| && Within(f, m[i]) {
        assert i < |front| ==> Within(f, front[i]);
      }
    }
    forall f | f in fs ensures f !in last {
      var i :| 0 <= i < |front| && Within(f, front[i]);
      WithinUnique(m, i, |m| - 1, f);
    }
    NoDupConcat(fs, last);
  }

  /** Carving only shortens one entry, so the map stays well formed. */
  lemma CarveWellFormed(m: seq<Entry>, c: nat, size: nat)
    requires WellFormed(m) && c < |m| && m[c].kind == Usable
    requires size % PAGE_SIZE == 0 && size <= m[c].length
    ensures WellFormed(Carve(m, c, size))
  {
    var m' := Carve(m, c, size);
    forall i, j | 0 <= i < j < |m'| && m'[i].kind == Usable && m'[j].kind == Usable ensures Disjoint(m'[i], m'[j]) {
      assert Disjoint(m[i], m[j]);
    }
  }

  /** The part of entry c that the stack occupies, as an entry. */
  function Tail(m: seq<Entry>, c: nat, size: nat): Entry
    requires c < |m| && size <= m[c].length
  {
    Entry(m[c].base + (m[c].length - size), size, Usable)
  }

  lemma CarveMembers(m: seq<Entry>, c: nat, size: nat, f: nat)
    requires WellFormed(m) && c < |m| && m[c].kind == Usable && size <= m[c].length
    ensures InMap(f, m) <==> InMap(f, Carve(m, c, size)) || Within(f, Tail(m, c, size))
    ensures !(InMap(f, Carve(m, c, size)) && Within(f, Tail(m, c, size)))
  {
    var m', tail := Carve(m, c, size), Tail(m, c, size);
    if i :| 0 <= i < |m| && Within(f, m[i]) {
      assert Within(f, m'[i]) || Within(f, tail);
    }
    if i :| 0 <= i < |m| && Within(f, m'[i]) {
      assert Within(f, m[i]);
      WithinUnique(m, i, c, f);
    }
    if Within(f, tail) {
      assert Within(f, m[c]);
    }
  }

  lemma StackFramesExact(m: seq<Entry>, c: nat, size: nat)
    requires c < |m| && size % PAGE_SIZE == 0 && size <= m[c].length
    requires (m[c].base + m[c].length) % PAGE_SIZE == 0
    ensures NoDup(StackFrames(m, c, size))
    ensures forall f: nat :: f in StackFrames(m, c, size) <==> Within(f, Tail(m, c, size))
    ensures |StackFrames(m, c, size)| == size / PAGE_SIZE
  {
    FramesOfMembers(Tail(m, c, size));
    assert FramesOf(Tail(m, c, size)) == StackFrames(m, c, size);
  }

  /** pushed and kept share nothing and together are whole. */
  ghost predicate Splits(whole: seq<nat>, pushed: seq<nat>, kept: seq<nat>) {
    && NoDup(pushed)
    && ToSet(pushed) !! ToSet(kept)
    && ToSet(pushed) + ToSet(kept) == ToSet(whole)
    && |pushed| + |kept| == |whole|
  }

  lemma SplitExact(m: seq<Entry>, c: nat, size: nat, whole: seq<nat>, pushed: seq<nat>)
    requires WellFormed(m) && c < |m| && m[c].kind == Usable && size <= m[c].length && size % PAGE_SIZE == 0
    requires Exact(whole, m) && Exact(pushed, Carve(m, c, size))
    ensures Splits(whole, pushed, StackFrames(m, c, size))
  {
    var kept := StackFrames(m, c, size);
    StackFramesExact(m, c, size);
    forall f: nat ensures f in whole <==> f in pushed || f in kept
                  ensures !(f in pushed && f in kept) {
      CarveMembers(m, c, size, f);
    }
    NoDupCard(whole);
    NoDupCard(pushed);
    NoDupCard(kept);
    assert ToSet(pushed) + ToSet(kept) == ToSet(whole);
    assert |ToSet(pushed) + ToSet(kept)| == |ToSet(pushed)| + |ToSet(kept)|;
  }

  /**
   The frames pmm_init pushes and the frames it keeps for the stack split the usable memory:
   nothing is lost, nothing is handed out twice, and the stack's own storage is never handed out.
   The count never exceeds the total, so the overflow branch is never taken.
   */
  lemma {:induction false} CarveSplits(m: seq<Entry>)
    requires WellFormed(m) && CarveIndex(m, StackSize(m)) >= 0
    ensures Splits(UsableFrames(m), UsableFrames(Carved(m)), StackFrames(m, CarveIndex(m, StackSize(m)), StackSize(m)))
    ensures |UsableFrames(Carved(m))| + StackSize(m) / PAGE_SIZE == TotalPages(m)
  {
    var size := StackSize(m);
    var c := CarveIndex(m, size);
    CarveWellFormed(m, c, size);
    UsableFramesExact(m);
    UsableFramesExact(Carve(m, c, size));
    SplitExact(m, c, size, UsableFrames(m), UsableFrames(Carve(m, c, size)));
  }

  // ---------- the size of the stack, in plain numbers ----------

  /**
   The map has lost so many bytes at the end of entry c: a whole number of pages that holds 8 bytes for
   each counted page, and less than one page more. No entry behind c could have given as much.
   */
  ghost predicate Cut(m: seq<Entry>, m': seq<Entry>, c: nat, total: nat) {
    && c < |m| == |m'| && m[c].kind == Usable && m'[c].length <= m[c].length
    && m' == m[c := m[c].(length := m'[c].length)]
    && var bytes := m[c].length - m'[c].length;
       && bytes % 4096 == 0 && 8 * total <= bytes < 8 * total + 4096
       && forall k :: c < k < |m| && m[k].kind == Usable ==> m[k].length < bytes
  }

  /**
   pmm_init cuts that much off, unless no usable entry has 8 bytes for each counted page; and then one
   in 512 of the counted pages, rounded up, is missing on the stack.
   */
  lemma {:induction false} StackExact(m: seq<Entry>)
    requires WellFormed(m)
    ensures var m', total := Carved(m), |UsableFrames(m)|;
            if total == 0 || forall k :: 0 <= k < |m| && m[k].kind == Usable ==> m[k].length < 8 * total then m' == m
            else
              && (exists c: nat :: Cut(m, m', c, total))
              && |UsableFrames(m')| == total - (total + 511) / 512
  {
    hide UsableFrames, TotalPages;
    UsableFramesExact(m);
    var size, c, total := StackSize(m), CarveIndex(m, StackSize(m)), TotalPages(m);
    StackPages(total);
    if c < 0 {
      forall k | 0 <= k < |m| && m[k].kind == Usable ensures m[k].length < 8 * total {
        assert !Holds(m[k], size);
        WholePages(m[k].length, total);
      }
    } else if total == 0 {
      assert Carved(m) == m;
    } else {
      assert Holds(m[c], size);
      CarveSplits(m);
      assert Cut(m, Carved(m), c, total);
    }
  }

  /** A whole number of pages less than the rounded-up size is less than the size. */
  lemma {:induction false} WholePages(length: nat, total: nat)
    requires length % PAGE_SIZE == 0 && length < AlignUp(total * 8)
    ensures length < 8 * total
  {
    hide AlignUp;
    var q, r := length / PAGE_SIZE, AlignUp(total * 8) / PAGE_SIZE;
    assert length == PAGE_SIZE * q && AlignUp(total * 8) == PAGE_SIZE * r;
  }

  lemma {:induction false} StackPages(total: nat)
    ensures AlignUp(total * 8) / PAGE_SIZE == (total + 511) / 512
    ensures 8 * total <= AlignUp(total * 8) < 8 * total + 4096 && AlignUp(total * 8) % 4096 == 0
  {
  }

  lemma {:induction false} PrefixFrames(m: seq<Entry>, i: nat)
    requires i < |m|
    ensures UsableFrames(m[..i]) + FramesOf(m[i]) <= UsableFrames(m)
    ensures UsableFrames(m[..i+1]) == UsableFrames(m[..i]) + FramesOf(m[i])
  {
    assert m[..i+1][..i] == m[..i];
    if i + 1 < |m| {
      PrefixFrames(m[..|m|-1], i);
      assert m[..|m|-1][..i] == m[..i];
    } else {
      assert m[..|m|-1] == m[..i] && m[..i+1] == m;
    }
  }

  lemma PrefixPages(m: seq<Entry>, i: nat)
    requires i < |m|
    ensures TotalPages(m[..i+1]) == TotalPages(m[..i]) + if m[i].kind == Usable then m[i].length / PAGE_SIZE else 0
  {
    assert m[..i+1][..i] == m[..i];
  }

  lemma CarveIndexPrefix(m: seq<Entry>, i: nat, size: nat)
    requires i < |m| && forall k :: i < k < |m| ==> !Holds(m[k], size)
    ensures Holds(m[i], size) ==> CarveIndex(m, size) == i
    ensures (forall k :: 0 <= k < |m| ==> !Holds(m[k], size)) ==> CarveIndex(m, size) == -1
  {
  }
}
