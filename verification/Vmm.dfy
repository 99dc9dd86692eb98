/**
 The virtual memory manager: page-table words written in physical memory, table frames taken
 from the page allocator.
 */
module Vmm {
  import opened Wrappers
  import opened Words
  import opened MemoryMap
  import opened Sequences
  import opened PageTree
  import opened Paging
  import opened PagingRuns
  import opened VmmInit
  import Pmm

  class PageMapper {
    const pmm: Pmm.PageAllocator
    var mem: Memory
    var pml4: nat
    var physicalAddressWidth: nat
    ghost var tabs: map<Node, nat>

    ghost predicate Valid()
      reads this, pmm, pmm.stack
    {
      pmm.Valid() && Inv(Abs())
    }

    ghost function Abs(): Sys
      reads this, pmm, pmm.stack
      requires pmm.Valid()
    {
      Sys(mem, pmm.Abs(), pml4, tabs)
    }

    constructor (pmm: Pmm.PageAllocator, mem: Memory)
      ensures this.pmm == pmm && this.mem == mem && tabs == map[] && pml4 == 0
    {
      this.pmm := pmm;
      this.mem := mem;
      pml4, physicalAddressWidth, tabs := 0, 0, map[];
    }

    /**
     get_below_pml: follow the entry at an index of the table in a frame, or, if forced, link a
     zeroed frame there. n is the table the entry stands for.
     */
    method GetBelow(frame: nat, index: nat, force: bool, ghost n: Node) returns (below: Option<nat>)
      requires Valid() && !pmm.halted
      requires 1 <= n.level <= 3 && Parent(n) in tabs && tabs[Parent(n)] == frame && Slot(n) == index
      modifies `mem, `tabs, pmm
      ensures Valid() && !pmm.halted && pmm.stack == old(pmm.stack)
      ensures Abs() == if force then Extend(old(Abs()), n).0 else old(Abs())
      ensures below == if n in tabs then Some(tabs[n]) else None
    {
      BelowEntry(Abs(), n);
      var e := mem[frame][index];
      if Present(e) {
        return Some(Field(e));
      }
      if !force {
        return None;
      }
      ghost var s := Abs();
      var f := pmm.RequestPages(1);
      if f == 0 {
        return None;
      }
      mem := mem[f := Zeroed()];
      mem := mem[frame := mem[frame][index := Or(f, LINK_FLAGS)]];
      tabs := tabs[n := f];
      assert Abs() == LinkTop(s, n);
      return Some(f);
    }

    /** pml4_to_pt: the page table for an address. */
    method Pml4ToPt(virt: nat, force: bool) returns (pt: Option<nat>)
      requires Valid() && !pmm.halted
      modifies `mem, `tabs, pmm
      ensures Valid() && !pmm.halted && pmm.stack == old(pmm.stack)
      ensures Abs() == if force then Grow(old(Abs()), 1, PageOf(virt)).0 else old(Abs())
      ensures pt == if NodeFor(1, PageOf(virt)) in tabs then Some(tabs[NodeFor(1, PageOf(virt))]) else None
      ensures force ==> (pt.Some? <==> Grow(old(Abs()), 1, PageOf(virt)).1)
    {
      hide Tree, Inv, Link;
      ghost var s, key := Abs(), PageOf(virt);
      GrowLevels(s, key);
      PathClosed(s, key);
      var pml4Index := virt / 0x80_0000_0000 % ENTRIES;
      var pdptIndex := virt / 0x4000_0000 % ENTRIES;
      var pdIndex := virt / 0x20_0000 % ENTRIES;
      IndexFields(virt);
      NodeForParent(3, key);
      NodeForParent(2, key);
      NodeForParent(1, key);

      var pdpt := GetBelow(pml4, pml4Index, force, NodeFor(3, key));
      if pdpt.None? {
        PathClosed(Abs(), key);
        return None;
      }
      var pd := GetBelow(pdpt.value, pdptIndex, force, NodeFor(2, key));
      if pd.None? {
        PathClosed(Abs(), key);
        return None;
      }
      pt := GetBelow(pd.value, pdIndex, force, NodeFor(1, key));
    }

    /** vmm_map. */
    method MapPage(virt: nat, phys: nat, flags: nat)
      requires Valid() && !pmm.halted
      modifies `mem, `tabs, pmm
      ensures Valid() && !pmm.halted && pmm.stack == old(pmm.stack)
      ensures Abs() == Map(old(Abs()), virt, phys, flags)
    {
      ghost var s := Abs();
      MapInv(s, virt, phys, flags);
      var ptIndex := virt / 0x1000 % ENTRIES;
      IndexFields(virt);
      var pt := Pml4ToPt(virt, true);
      if pt.None? {
        return;
      }
      assert NodeOk(mem, tabs, NodeFor(1, PageOf(virt)));
      mem := mem[pt.value := mem[pt.value][ptIndex := Or(phys, flags)]];
    }

    /**
     vmm_init, with the address width CPUID reports and the section bounds the linker provides.
     The page map it leaves is the empty one with the whole list of mappings made.
     */
    method Init(memmap: array<Entry>, hhdm: nat, im: Image, width: nat) returns (rc: int)
      requires pmm.Valid() && !pmm.halted && FreshFrames(mem, pmm.Abs())
      modifies this, pmm
      ensures pmm.Valid() && !pmm.halted
      ensures rc == if im.kernelVirt == 0 || im.kernelPhys == 0 || old(pmm.Abs().stack) == [] then 1 else 0
      ensures rc == 0 ==>
                && Valid()
                && physicalAddressWidth == width
                && Inv(Rooted(old(mem), old(pmm.Abs())))
                && Abs() == MapAll(Rooted(old(mem), old(pmm.Abs())), InitWrites(memmap[..], hhdm, im))
    {
      hide Tree;
      if im.kernelVirt == 0 || im.kernelPhys == 0 {
        return 1;
      }
      physicalAddressWidth := width;
      ghost var s0 := Rooted(mem, pmm.Abs());
      if pmm.Abs().stack != [] {
        RootedInv(mem, pmm.Abs());
        assert GoodFrame(mem, pmm.Abs().stack[|pmm.Abs().stack|-1]);
      }
      pml4 := pmm.RequestPages(1);
      if pml4 == 0 {
        return 1;
      }
      mem := mem[pml4 := Zeroed()];
      tabs := map[ROOT := pml4];

      MapMemory(memmap, hhdm, s0);
      MapImage(im, s0, MapWrites(memmap[..], hhdm));
      return 0;
    }

    /** The page map is s0 with the listed mappings made. */
    ghost predicate Made(s0: Sys, ws: seq<Write>)
      reads this, pmm, pmm.stack
    {
      pmm.Valid() && !pmm.halted && Inv(s0) && Abs() == MapAll(s0, ws)
    }

    /** The loop of vmm_init over the memory map. */
    method MapMemory(memmap: array<Entry>, hhdm: nat, ghost s0: Sys)
      requires Made(s0, [])
      modifies `mem, `tabs, pmm
      ensures Made(s0, MapWrites(memmap[..], hhdm)) && pmm.stack == old(pmm.stack)
    {
      ghost var m := memmap[..];
      for i := 0 to memmap.Length
        invariant Made(s0, MapWrites(m[..i], hhdm)) && pmm.stack == old(pmm.stack)
      {
        assert m[..i+1][..i] == m[..i];
        var entry := memmap[i];
        if entry.kind == Usable {
          MapUsable(entry, hhdm, s0, MapWrites(m[..i], hhdm));
        } else if entry.kind == Framebuffer {
          MapFramebuffer(entry, hhdm, s0, MapWrites(m[..i], hhdm));
        } else if entry.kind == BootloaderReclaimable {
          MapReclaimable(entry, hhdm, s0, MapWrites(m[..i], hhdm));
        } else {
          assert MapWrites(m[..i], hhdm) + EntryWrites(entry, hhdm) == MapWrites(m[..i], hhdm);
        }
      }
      assert m[..memmap.Length] == m;
    }

    /** The three loops of vmm_init over the sections of the kernel image. */
    method MapImage(im: Image, ghost s0: Sys, ghost before: seq<Write>)
      requires Made(s0, before)
      modifies `mem, `tabs, pmm
      ensures Made(s0, before + ImageWrites(im)) && pmm.stack == old(pmm.stack)
    {
      ghost var text := SegmentWrites(im, im.textStart, im.textEnd, TEXT_FLAGS);
      ghost var rodata := SegmentWrites(im, im.rodataStart, im.rodataEnd, RODATA_FLAGS);
      ghost var data := SegmentWrites(im, im.dataStart, im.dataEnd, DATA_FLAGS);
      MapSegment(im, im.textStart, im.textEnd, TEXT_FLAGS, s0, before);
      MapSegment(im, im.rodataStart, im.rodataEnd, RODATA_FLAGS, s0, before + text);
      MapSegment(im, im.dataStart, im.dataEnd, DATA_FLAGS, s0, before + text + rodata);
      ThreeParts(before, text, rodata, data);
    }

    /** One page more of a list of mappings. */
    method MapNext(w: Write, ghost s0: Sys, ghost done: seq<Write>, ghost ws: seq<Write>, ghost j: nat)
      requires j < |ws| && ws[j] == w && Made(s0, done + ws[..j])
      modifies `mem, `tabs, pmm
      ensures Made(s0, done + ws[..j+1]) && pmm.stack == old(pmm.stack)
    {
      MapAllAppend(s0, done + ws[..j], w);
      NextOf(done, ws, j);
      MapPage(w.virt, w.phys, w.flags);
    }

    method MapUsable(entry: Entry, hhdm: nat, ghost s0: Sys, ghost done: seq<Write>)
      requires entry.kind == Usable && Made(s0, done)
      modifies `mem, `tabs, pmm
      ensures Made(s0, done + EntryWrites(entry, hhdm)) && pmm.stack == old(pmm.stack)
    {
      ghost var ws, j := EntryWrites(entry, hhdm), 0;
      StartOf(done, ws);
      var off := entry.base;
      while off < entry.base + entry.length
        invariant off == entry.base + j * PAGE_SIZE && j <= |ws|
        invariant Made(s0, done + ws[..j]) && pmm.stack == old(pmm.stack)
      {
        EntryAt(entry, hhdm, j, off - entry.base);
        MapNext(Write(off + hhdm, off, PRESENT + READ_WRITE), s0, done, ws, j);
        off, j := off + PAGE_SIZE, j + 1;
      }
      EntryAt(entry, hhdm, j, off - entry.base);
      assert j == |ws|;
    }

    method MapFramebuffer(entry: Entry, hhdm: nat, ghost s0: Sys, ghost done: seq<Write>)
      requires entry.kind == Framebuffer && Made(s0, done)
      modifies `mem, `tabs, pmm
      ensures Made(s0, done + EntryWrites(entry, hhdm)) && pmm.stack == old(pmm.stack)
    {
      ghost var ws, j := EntryWrites(entry, hhdm), 0;
      StartOf(done, ws);
      var off := 0;
      while off < AlignUp(entry.base + entry.length)
        invariant off == j * PAGE_SIZE && j <= |ws|
        invariant Made(s0, done + ws[..j]) && pmm.stack == old(pmm.stack)
      {
        var base := AlignUp(entry.base + off);
        EntryAt(entry, hhdm, j, off);
        MapNext(Write(base + hhdm, base, FRAMEBUFFER_FLAGS), s0, done, ws, j);
        off, j := off + PAGE_SIZE, j + 1;
      }
      EntryAt(entry, hhdm, j, off);
      assert j == |ws|;
    }

    method MapReclaimable(entry: Entry, hhdm: nat, ghost s0: Sys, ghost done: seq<Write>)
      requires entry.kind == BootloaderReclaimable && Made(s0, done)
      modifies `mem, `tabs, pmm
      ensures Made(s0, done + EntryWrites(entry, hhdm)) && pmm.stack == old(pmm.stack)
    {
      ghost var ws, j := EntryWrites(entry, hhdm), 0;
      StartOf(done, ws);
      var off := 0;
      while off < AlignUp(entry.base + entry.length)
        invariant off == j * PAGE_SIZE && j <= |ws|
        invariant Made(s0, done + ws[..j]) && pmm.stack == old(pmm.stack)
      {
        EntryAt(entry, hhdm, j, off);
        MapNext(Write(entry.base + off + hhdm, entry.base + off, PRESENT + READ_WRITE), s0, done, ws, j);
        off, j := off + PAGE_SIZE, j + 1;
      }
      EntryAt(entry, hhdm, j, off);
      assert j == |ws|;
    }

    method MapSegment(im: Image, start: nat, end: nat, flags: nat, ghost s0: Sys, ghost done: seq<Write>)
      requires Made(s0, done)
      modifies `mem, `tabs, pmm
      ensures Made(s0, done + SegmentWrites(im, start, end, flags)) && pmm.stack == old(pmm.stack)
    {
      ghost var ws, j := SegmentWrites(im, start, end, flags), 0;
      StartOf(done, ws);
      var addr := start;
      while addr < end
        invariant addr == start + j * PAGE_SIZE && j <= |ws|
        invariant Made(s0, done + ws[..j]) && pmm.stack == old(pmm.stack)
      {
        PagesStep(end - start, j);
        var phys := ImagePhys(im, addr);
        SegmentAt(im, start, end, flags, j, addr);
        MapNext(Write(addr, phys, flags), s0, done, ws, j);
        addr, j := addr + PAGE_SIZE, j + 1;
      }
      if start < end {
        PagesStep(end - start, j);
      }
      assert j == |ws|;
    }

    /**
     vmm_unmap. Giving back the frame of a page whose entry holds no address stops the machine,
     because the allocator asserts that the pointer is not NULL.
     */
    method UnmapPage(virt: nat, freePhys: bool) returns (found: bool)
      requires Valid() && !pmm.halted
      modifies `mem, `tabs, pmm, pmm.stack
      ensures pmm.Valid() && pmm.stack == old(pmm.stack)
      ensures pmm.halted <==> Halts(old(Abs()), Op.UnmapPage(virt, freePhys))
      ensures Abs() == Step(World(old(Abs()), {}), Op.UnmapPage(virt, freePhys)).sys
      ensures pmm.halted ==> Abs() == old(Abs())
      ensures !pmm.halted ==> (Abs(), found) == Unmap(old(Abs()), virt, freePhys)
      ensures !pmm.halted && Returnable(old(Abs()), virt, freePhys) ==> Valid()
    {
      hide Tree, Walk, NodeFor;
      ghost var s, key := Abs(), PageOf(virt);
      if Returnable(s, virt, freePhys) {
        UnmapValid(s, virt, freePhys);
      }
      UnmapCases(s, virt, freePhys);
      ghost var s' := Unmap(s, virt, freePhys).0;
      var ptIndex := virt / 0x1000 % ENTRIES;
      IndexFields(virt);
      var pt := Pml4ToPt(virt, false);
      if pt.None? {
        assert Abs() == s';
        return false;
      }
      if freePhys {
        pmm.FreePages(Field(mem[pt.value][ptIndex]), 1);
        if pmm.halted {
          return false;
        }
      }
      mem := mem[pt.value := mem[pt.value][ptIndex := 0]];
      assert Abs() == s';
      return true;
    }

    /** virt2phys. */
    method VirtToPhys(virt: nat) returns (phys: nat)
      requires Valid() && !pmm.halted
      modifies `mem, `tabs, pmm
      ensures Valid() && Abs() == old(Abs()) && !pmm.halted
      ensures phys == Translate(Abs(), virt, physicalAddressWidth)
    {
      LeafInTree(mem, pml4, tabs, PageOf(virt));
      var ptIndex := virt / 0x1000 % ENTRIES;
      IndexFields(virt);
      var pt := Pml4ToPt(virt, false);
      if pt.None? {
        return 0;
      }
      return AddressBits(mem[pt.value][ptIndex], physicalAddressWidth) + virt % PAGE_SIZE;
    }
  }

  /** The page map after its root has been taken from the allocator and zeroed. */
  function Rooted(mem: Memory, pm: Pmm.State): Sys {
    var (pm', f) := Pmm.Request(pm, 1);
    Sys(mem[f := Zeroed()], pm', f, map[ROOT := f])
  }

  /** Before vmm_init: every free frame is usable and listed once. */
  ghost predicate FreshFrames(mem: Memory, pm: Pmm.State) {
    NoDup(pm.stack) && forall f :: f in pm.stack ==> GoodFrame(mem, f)
  }

  /** An empty root is a tree of one table whose flat map is 0 everywhere. */
  lemma RootedInv(mem: Memory, pm: Pmm.State)
    requires FreshFrames(mem, pm) && pm.stack != []
    ensures Inv(Rooted(mem, pm)) && Rooted(mem, pm).tabs.Keys == {ROOT}
    ensures forall k: Key :: Leaf(Rooted(mem, pm).mem, Rooted(mem, pm).root, k) == 0
  {
    var s, left := Rooted(mem, pm), |pm.stack| - 1;
    assert GoodFrame(mem, pm.stack[left]);
    assert forall v :: v in s.tabs.Values ==> v == pm.stack[left];
    forall f | f in s.pm.stack ensures GoodFrame(s.mem, f) && f !in s.tabs.Values {
      var i :| 0 <= i < left && s.pm.stack[i] == f;
      assert pm.stack[i] == f && GoodFrame(mem, f);
    }
    forall n | n in s.tabs ensures NodeOk(s.mem, s.tabs, n) {
      forall i | 0 <= i < ENTRIES ensures EntryOk(s.mem[s.tabs[n]][i], s.tabs, Child(n, i)) {
      }
    }
    forall k: Key ensures Leaf(s.mem, s.root, k) == 0 {
      LeafInTree(s.mem, s.root, s.tabs, k);
    }
  }

  lemma {:induction false} TakeOne(pm: Pmm.State)
    requires pm.stack != []
    ensures Pmm.Step(Pmm.World(pm, {}), Pmm.Take(1)) == Pmm.World(Pmm.Request(pm, 1).0, {Pmm.Request(pm, 1).1})
  {
    var f := pm.stack[|pm.stack|-1];
    assert Pmm.Popped(pm, 1) == [f] && ToSet([f]) == {f};
  }

  lemma {:induction false} RootTaken(pm: Pmm.State, all: set<nat>)
    requires Pmm.Inv(Pmm.World(pm, {}), all) && pm.stack != []
    ensures Pmm.Inv(Pmm.World(Pmm.Request(pm, 1).0, {Pmm.Request(pm, 1).1}), all)
  {
    TakeOne(pm);
    Pmm.TakeInv(Pmm.World(pm, {}), 1, all);
  }

  lemma {:induction false} OneTable(f: nat)
    ensures map[ROOT := f].Values == {f}
  {
    var tabs := map[ROOT := f];
    assert ROOT in tabs && tabs[ROOT] in tabs.Values;
  }

  /** With its root taken, the allocator's frames are partitioned: one table, no client frame, the rest free. */
  lemma {:induction false} RootedPartition(mem: Memory, pm: Pmm.State, all: set<nat>)
    requires Pmm.Inv(Pmm.World(pm, {}), all) && pm.stack != []
    requires forall f :: f in all ==> GoodFrame(mem, f)
    ensures WInv(World(Rooted(mem, pm), {}), all)
  {
    var s := Rooted(mem, pm);
    RootTaken(pm, all);
    OneTable(s.root);
    RootedInv(mem, pm);
    assert {} + s.tabs.Values == {s.root};
  }

  /**
   From the boot loader's map on: whatever is requested, freed, written, mapped and unmapped after
   pmm_init and the set-up of the PML4, the usable frames outside the allocator's own stack remain
   partitioned into free frames, tables and client frames.
   */
  lemma {:induction false} BootPartition(m: seq<Entry>, mem: Memory, ops: seq<Op>, w': World)
    requires WellFormed(m) && CarveIndex(m, StackSize(m)) >= 0 && UsableFrames(Carved(m)) != []
    requires forall f :: f in UsableFrames(Carved(m)) ==> GoodFrame(mem, f)
    requires Runs(World(Rooted(mem, Pmm.Booted(m)), {}), ops, w')
    ensures var all := ToSet(UsableFrames(Carved(m)));
            && WInv(w', all)
            && |w'.sys.pm.stack| + |w'.owned| + |w'.sys.tabs| == |all|
  {
    var fs := UsableFrames(Carved(m));
    var pm := Pmm.Booted(m);
    Pmm.InitInv(m);
    RootedPartition(mem, pm, ToSet(fs));
    RunInv(World(Rooted(mem, pm), {}), ops, w', ToSet(fs));
  }

  lemma {:induction false} MissingAtMost(tabs: map<Node, nat>, key: Key)
    ensures Missing(tabs, 1, key) <= 3
  {
    assert Missing(tabs, 4, key) == 0;
    assert Missing(tabs, 3, key) <= 1 && Missing(tabs, 2, key) <= 2;
  }

  /**
   And what happens if a client maps a frame it does not hold (not NULL), right after the set-up: the map keeps
   the partition, but unmapping the page with freePhys destroys it.
   */
  lemma {:induction false} BootUnowned(m: seq<Entry>, mem: Memory, virt: nat, f: nat, flags: nat)
    requires WellFormed(m) && CarveIndex(m, StackSize(m)) >= 0 && |UsableFrames(Carved(m))| >= 4
    requires forall g :: g in UsableFrames(Carved(m)) ==> GoodFrame(mem, g)
    requires f != 0 && PageAddress(f, 52) && Field(flags) == 0
    ensures var w0, all := World(Rooted(mem, Pmm.Booted(m)), {}), ToSet(UsableFrames(Carved(m)));
            WInv(w0, all) &&
            var w1 := Step(w0, MapPage(virt, f, flags));
            WInv(w1, all) && !WInv(Step(w1, UnmapPage(virt, true)), all)
  {
    hide WInv, Map, Unmap, Missing, UsableFrames, CarveIndex, Pmm.Inv;
    var all, pm := ToSet(UsableFrames(Carved(m))), Pmm.Booted(m);
    Pmm.InitInv(m);
    RootedPartition(mem, pm, all);
    MissingAtMost(Rooted(mem, pm).tabs, PageOf(virt));
    UnownedMapping(World(Rooted(mem, pm), {}), virt, f, flags, all);
  }

  const FIVE_PAGES := [Entry(0x10_0000, 5 * PAGE_SIZE, Usable)]

  /** Such maps exist: one region of five pages leaves four frames. */
  lemma {:induction false} FiveCarved()
    ensures WellFormed(FIVE_PAGES) && CarveIndex(FIVE_PAGES, StackSize(FIVE_PAGES)) >= 0
    ensures UsableFrames(Carved(FIVE_PAGES)) == FramesFrom(0x10_0000, 4)
  {
    var m := FIVE_PAGES;
    assert m[..0] == [] && TotalPages([]) == 0;
    assert Carved(m) == [Entry(0x10_0000, 4 * PAGE_SIZE, Usable)];
    var c := Carved(m);
    assert c[..0] == [] && UsableFrames([]) == [];
    assert UsableFrames(c) == [] + FramesOf(c[0]) == FramesOf(c[0]);
  }

  lemma {:induction false} FivePages() returns (mem: Memory)
    ensures WellFormed(FIVE_PAGES) && CarveIndex(FIVE_PAGES, StackSize(FIVE_PAGES)) >= 0
    ensures |UsableFrames(Carved(FIVE_PAGES))| >= 4
    ensures forall g :: g in UsableFrames(Carved(FIVE_PAGES)) ==> GoodFrame(mem, g)
  {
    hide WellFormed, CarveIndex, StackSize, Carved, UsableFrames;
    FiveCarved();
    var fs := FramesFrom(0x10_0000, 4);
    mem := map f | f in fs :: Zeroed();
    Pow2Values();
    forall g | g in fs ensures GoodFrame(mem, g) {
      var i :| 0 <= i < 4 && fs[i] == g;
    }
  }

  lemma StartOf(done: seq<Write>, ws: seq<Write>)
    ensures done + ws[..0] == done && done + ws[..|ws|] == done + ws
  {
    assert ws[..|ws|] == ws;
  }

  lemma ThreeParts(before: seq<Write>, a: seq<Write>, b: seq<Write>, c: seq<Write>)
    ensures before + a + b + c == before + (a + b + c)
  {
  }

  lemma NextOf(done: seq<Write>, ws: seq<Write>, j: nat)
    requires j < |ws|
    ensures (done + ws[..j]) + [ws[j]] == done + ws[..j+1]
  {
  }

  /** At offset off = j pages the loop for an entry goes on exactly if the list has a j-th mapping, this one. */
  lemma EntryAt(e: Entry, hhdm: nat, j: nat, off: nat)
    requires off == j * PAGE_SIZE
    ensures var ws := EntryWrites(e, hhdm);
            && (e.kind == Usable ==> (off < e.length <==> j < |ws|))
            && (e.kind in {Framebuffer, BootloaderReclaimable} ==> (off < AlignUp(e.base + e.length) <==> j < |ws|))
            && (j < |ws| && e.kind == Usable ==>
                  ws[j] == Write(e.base + off + hhdm, e.base + off, PRESENT + READ_WRITE))
            && (j < |ws| && e.kind == Framebuffer ==>
                  ws[j] == Write(AlignUp(e.base + off) + hhdm, AlignUp(e.base + off), FRAMEBUFFER_FLAGS))
            && (j < |ws| && e.kind == BootloaderReclaimable ==>
                  ws[j] == Write(e.base + off + hhdm, e.base + off, PRESENT + READ_WRITE))
  {
    PagesStep(e.length, j);
    PagesStep(e.base + e.length, j);
  }

  lemma SegmentAt(im: Image, start: nat, end: nat, flags: nat, j: nat, addr: nat)
    requires j < |SegmentWrites(im, start, end, flags)| && addr == start + j * PAGE_SIZE
    ensures SegmentWrites(im, start, end, flags)[j] == ImageWrite(im, addr, flags)
  {
  }

  lemma PagesStep(n: nat, j: nat)
    ensures j * PAGE_SIZE < n <==> j < PagesUpTo(n)
    ensures j * PAGE_SIZE < AlignUp(n) <==> j < PagesUpTo(n)
  {
  }

  /** The three levels of growth, one after the other. */
  lemma GrowLevels(s: Sys, key: Key)
    requires Inv(s)
    ensures ROOT in s.tabs && s.tabs[ROOT] == s.root && NodeFor(4, key) == ROOT
    ensures var (s3, ok3) := Extend3(s, key);
            && Grow(s, 3, key) == (s3, ok3)
            && (ok3 ==> Grow(s, 2, key) == Extend2(s3, key))
            && (!ok3 ==> Grow(s, 2, key) == (s3, false))
            && (Grow(s, 2, key).1 ==> Grow(s, 1, key) == Extend1(Grow(s, 2, key).0, key))
            && (!Grow(s, 2, key).1 ==> Grow(s, 1, key) == Grow(s, 2, key))
  {
    NodeForParent(3, key);
    NodeForParent(2, key);
    NodeForParent(1, key);
    assert Grow(s, 4, key) == (s, true);
  }

  function Extend3(s: Sys, key: Key): (Sys, bool)
    requires Inv(s)
  {
    NodeForParent(3, key);
    Extend(s, NodeFor(3, key))
  }

  function Extend2(s: Sys, key: Key): (Sys, bool)
    requires Inv(s) && NodeFor(3, key) in s.tabs
  {
    NodeForParent(2, key);
    Extend(s, NodeFor(2, key))
  }

  function Extend1(s: Sys, key: Key): (Sys, bool)
    requires Inv(s) && NodeFor(2, key) in s.tabs
  {
    NodeForParent(1, key);
    Extend(s, NodeFor(1, key))
  }

  /** If a table on key's path is missing, so are the ones below it. */
  lemma PathClosed(s: Sys, key: Key)
    requires Inv(s)
    ensures NodeFor(1, key) in s.tabs ==> NodeFor(2, key) in s.tabs
    ensures NodeFor(2, key) in s.tabs ==> NodeFor(3, key) in s.tabs
  {
    if NodeFor(1, key) in s.tabs { Ancestors(s.mem, s.root, s.tabs, 1, 2, key); }
    if NodeFor(2, key) in s.tabs { Ancestors(s.mem, s.root, s.tabs, 2, 3, key); }
  }

  /** What a parent's entry says about a table, and what the next free frame is. */
  lemma BelowEntry(s: Sys, n: Node)
    requires Inv(s) && 1 <= n.level <= 3 && Parent(n) in s.tabs
    ensures s.tabs[Parent(n)] in s.mem
    ensures var e := s.mem[s.tabs[Parent(n)]][Slot(n)];
            (Present(e) <==> n in s.tabs) && (n in s.tabs ==> Field(e) == s.tabs[n])
    ensures s.pm.stack != [] ==>
              var f := s.pm.stack[|s.pm.stack|-1];
              f != 0 && f in s.mem && f != s.tabs[Parent(n)]
    ensures n !in s.tabs && s.pm.stack != [] ==> Extend(s, n) == (LinkTop(s, n), true)
  {
    var p := s.tabs[Parent(n)];
    assert NodeOk(s.mem, s.tabs, Parent(n)) && p in s.tabs.Values;
    assert Child(Parent(n), Slot(n)) == n;
    assert EntryOk(s.mem[p][Slot(n)], s.tabs, Child(Parent(n), Slot(n)));
    if s.pm.stack != [] {
      assert GoodFrame(s.mem, s.pm.stack[|s.pm.stack|-1]);
    }
  }

  lemma FreeInv(s: Sys, f: nat)
    requires Inv(s) && GoodFrame(s.mem, f) && f !in s.tabs.Values && f !in s.pm.stack
    ensures Inv(s.(pm := Pmm.Free(s.pm, f, 1)))
  {
    OneFrame(f);
    NoDupConcat(s.pm.stack, [f]);
    assert FramesFrom(f, 0) == [];
  }

  /** If a frame is to be handed back, it is neither free nor a table. */
  ghost predicate Returnable(s: Sys, virt: nat, freePhys: bool) {
    freePhys && Reaches(s.mem, s.root, PageOf(virt)) ==>
      var f := Field(Leaf(s.mem, s.root, PageOf(virt)));
      GoodFrame(s.mem, f) && f !in s.tabs.Values && f !in s.pm.stack
  }

  /** The two cases of an unmap, in terms of the page table the walk ends at. */
  lemma {:induction false} UnmapCases(s: Sys, virt: nat, freePhys: bool)
    requires Inv(s)
    ensures var n, i := NodeFor(1, PageOf(virt)), PageOf(virt) % ENTRIES;
            && (Reaches(s.mem, s.root, PageOf(virt)) <==> n in s.tabs)
            && (n !in s.tabs ==> Unmap(s, virt, freePhys) == (s, false))
            && (n in s.tabs ==>
                  && s.tabs[n] in s.mem
                  && Leaf(s.mem, s.root, PageOf(virt)) == s.mem[s.tabs[n]][i]
                  && Unmap(s, virt, freePhys) ==
                     (Sys(Store(s.mem, s.tabs[n], i, 0),
                          if freePhys then Pmm.Free(s.pm, Field(s.mem[s.tabs[n]][i]), 1) else s.pm,
                          s.root, s.tabs), true))
  {
    LeafInTree(s.mem, s.root, s.tabs, PageOf(virt));
  }

  lemma {:induction false} UnmapValid(s: Sys, virt: nat, freePhys: bool)
    requires Inv(s)
    requires Returnable(s, virt, freePhys)
    ensures Inv(Unmap(s, virt, freePhys).0)
  {
    var key := PageOf(virt);
    LeafInTree(s.mem, s.root, s.tabs, key);
    if NodeFor(1, key) in s.tabs {
      StoreInv(s, key, 0);
      if freePhys {
        FreeInv(StoreAt(s, key, 0), Field(Leaf(s.mem, s.root, key)));
      }
    }
  }
}
