/**
 Runs of page requests, maps and unmaps: who owns which frame, and what the tables cost.
 */
module PagingRuns {
  import opened Words
  import opened MemoryMap
  import opened Sequences
  import opened PageTree
  import opened Paging
  import Pmm

  /** owned are the frames clients hold. */
  datatype World = World(sys: Sys, owned: set<nat>)

  datatype Op =
    | TakeFrames(n: nat)
    | GiveFrame(f: nat)
    | MapPage(virt: nat, phys: nat, flags: nat)
    | UnmapPage(virt: nat, freePhys: bool)
    | WriteFrame(f: nat, data: Table)

  /** Frames are free, tables, or owned by a client, never two of these, and none is lost. */
  ghost predicate WInv(w: World, all: set<nat>) {
    && Inv(w.sys)
    && w.owned !! w.sys.tabs.Values
    && Pmm.Inv(Pmm.World(w.sys.pm, w.owned + w.sys.tabs.Values), all)
    && (forall f :: f in all ==> GoodFrame(w.sys.mem, f))
  }

  /** Clients free and write only frames they hold. */
  ghost predicate Allowed(w: World, op: Op) {
    match op
    case TakeFrames(_) => true
    case GiveFrame(f) => f in w.owned
    case MapPage(_, _, _) => true
    case UnmapPage(virt, freePhys) =>
      freePhys && Reaches(w.sys.mem, w.sys.root, PageOf(virt)) ==>
        Field(Leaf(w.sys.mem, w.sys.root, PageOf(virt))) in w.owned
    case WriteFrame(f, _) => f in w.owned
  }

  /** Calls that stop the machine: what they give back is NULL, or no page address. */
  predicate Halts(s: Sys, op: Op) {
    match op
    case GiveFrame(f) => Pmm.Halts(f, 1)
    case UnmapPage(virt, freePhys) =>
      freePhys && Reaches(s.mem, s.root, PageOf(virt)) && Field(Leaf(s.mem, s.root, PageOf(virt))) == 0
    case _ => false
  }

  function Step(w: World, op: Op): World
    requires Inv(w.sys)
  {
    var s := w.sys;
    if Halts(s, op) then w else
    match op
    case TakeFrames(n) =>
      World(s.(pm := Pmm.Request(s.pm, n).0), w.owned + ToSet(Pmm.Popped(s.pm, n)))
    case GiveFrame(f) => World(s.(pm := Pmm.Free(s.pm, f, 1)), w.owned - {f})
    case MapPage(virt, phys, flags) => World(Map(s, virt, phys, flags), w.owned)
    case UnmapPage(virt, freePhys) =>
      World(Unmap(s, virt, freePhys).0,
            if freePhys && Reaches(s.mem, s.root, PageOf(virt))
            then w.owned - {Field(Leaf(s.mem, s.root, PageOf(virt)))} else w.owned)
    case WriteFrame(f, data) => World(s.(mem := s.mem[f := data]), w.owned)
  }

  lemma OneFrame(f: nat)
    ensures FramesFrom(f, 1) == [f] && ToSet(FramesFrom(f, 1)) == {f}
  {
  }

  lemma {:induction false} TakeStep(w: World, n: nat, all: set<nat>)
    requires WInv(w, all)
    ensures WInv(Step(w, TakeFrames(n)), all)
  {
    hide Inv, Pmm.Inv, Pmm.Request, Pmm.Popped;
    var s, taken := w.sys, ToSet(Pmm.Popped(w.sys.pm, n));
    Pmm.StepInv(Pmm.World(s.pm, w.owned + s.tabs.Values), Pmm.Take(n), all);
    RequestPrefix(s.pm, n);
    FewerFree(s, Pmm.Request(s.pm, n).0);
    MoreOwned(w.owned, s.tabs.Values, taken);
    NotTables(s, taken);
  }

  /** Fewer free frames keep the invariant. */
  lemma {:induction false} FewerFree(s: Sys, pm: Pmm.State)
    requires Inv(s) && pm.stack <= s.pm.stack
    ensures Inv(s.(pm := pm))
  {
    hide Tree;
    forall f | f in pm.stack ensures GoodFrame(s.mem, f) && f !in s.tabs.Values {
      assert f in s.pm.stack;
    }
    assert forall i :: 0 <= i < |pm.stack| ==> pm.stack[i] == s.pm.stack[i];
  }

  lemma {:induction false} NotTables(s: Sys, taken: set<nat>)
    requires Inv(s) && forall f :: f in taken ==> f in s.pm.stack
    ensures taken !! s.tabs.Values
  {
    hide Tree;
  }

  /** A request leaves a prefix of the stack and pops only frames that were on it. */
  lemma {:induction false} RequestPrefix(pm: Pmm.State, n: nat)
    ensures Pmm.Request(pm, n).0.stack <= pm.stack
    ensures forall f :: f in ToSet(Pmm.Popped(pm, n)) ==> f in pm.stack
  {
  }

  lemma {:induction false} MoreOwned(owned: set<nat>, tables: set<nat>, taken: set<nat>)
    ensures (owned + tables) + taken == (owned + taken) + tables
  {
  }

  /** Freeing a client's frame: pushed on the stack, no longer owned, never a table. */
  lemma {:induction false} GiveBack(w: World, mem: Memory, f: nat, all: set<nat>)
    requires WInv(w, all) && f in w.owned
    requires Tree(mem, w.sys.root, w.sys.tabs) && mem.Keys == w.sys.mem.Keys
    ensures WInv(World(Sys(mem, Pmm.Free(w.sys.pm, f, 1), w.sys.root, w.sys.tabs), w.owned - {f}), all)
  {
    hide Tree, Pmm.Inv, Pmm.Free;
    var s, total := w.sys, w.owned + w.sys.tabs.Values;
    OneFrame(f);
    WithoutOne(w.owned, s.tabs.Values, f);
    Pmm.GiveInv(Pmm.World(s.pm, total), f, 1, all);
    FreePushes(s.pm, f);
    OwnedInAll(w, all);
    MoreFree(s, mem, Pmm.Free(s.pm, f, 1), f);
  }

  lemma {:induction false} OwnedInAll(w: World, all: set<nat>)
    requires WInv(w, all)
    ensures w.owned <= all && w.owned !! ToSet(w.sys.pm.stack) && w.owned !! w.sys.tabs.Values
    ensures forall f :: f in w.owned ==> GoodFrame(w.sys.mem, f) && f !in w.sys.pm.stack
    ensures |w.sys.pm.stack| < w.sys.pm.total
  {
    hide Tree, GoodFrame;
    Pmm.InvCounts(Pmm.World(w.sys.pm, w.owned + w.sys.tabs.Values), all);
    RootIsTable(w.sys);
    assert w.sys.root in w.owned + w.sys.tabs.Values;
  }

  lemma {:induction false} RootIsTable(s: Sys)
    requires Inv(s)
    ensures s.root in s.tabs.Values
  {
    assert ROOT in s.tabs && s.tabs[ROOT] in s.tabs.Values;
  }

  /** With room on the stack, freeing a frame pushes it. */
  lemma {:induction false} FreePushes(pm: Pmm.State, f: nat)
    requires |pm.stack| < pm.total
    ensures Pmm.Free(pm, f, 1) == pm.(stack := pm.stack + [f], free := pm.free + 1, used := pm.used - 1)
  {
    OneFrame(f);
  }

  /** One more free frame that is no table keeps the invariant. */
  lemma {:induction false} MoreFree(s: Sys, mem: Memory, pm: Pmm.State, f: nat)
    requires Inv(s) && Tree(mem, s.root, s.tabs) && mem.Keys == s.mem.Keys && pm.stack == s.pm.stack + [f]
    requires GoodFrame(s.mem, f) && f !in s.tabs.Values && f !in s.pm.stack
    ensures Inv(Sys(mem, pm, s.root, s.tabs))
  {
    hide Tree;
    NoDupConcat(s.pm.stack, [f]);
  }

  lemma WithoutOne(owned: set<nat>, tables: set<nat>, f: nat)
    requires owned !! tables && f in owned
    ensures (owned + tables) - {f} == (owned - {f}) + tables
    ensures (owned - {f}) !! tables
  {
  }

  /** What clients write to their own frames never shows in the page tables. */
  lemma {:induction false} WriteStep(w: World, f: nat, data: Table, all: set<nat>)
    requires WInv(w, all) && f in w.owned
    ensures WInv(Step(w, WriteFrame(f, data)), all)
    ensures forall k: Key :: Leaf(Step(w, WriteFrame(f, data)).sys.mem, w.sys.root, k) == Leaf(w.sys.mem, w.sys.root, k)
  {
    hide Tree, Leaf, Pmm.Inv;
    OwnedInAll(w, all);
    OtherFrame(w.sys.mem, w.sys.root, w.sys.tabs, f, data);
    OtherMemory(w, w.sys.mem[f := data], all);
  }

  /** Memory may change wherever the tables remain a tree. */
  lemma {:induction false} OtherMemory(w: World, mem: Memory, all: set<nat>)
    requires WInv(w, all) && Tree(mem, w.sys.root, w.sys.tabs) && w.sys.mem.Keys <= mem.Keys
    ensures WInv(World(w.sys.(mem := mem), w.owned), all)
  {
    hide Tree, Pmm.Inv;
    assert forall f :: f in w.sys.mem ==> f in mem;
  }

  lemma {:induction false} MapKeepsFrames(s: Sys, virt: nat, phys: nat, flags: nat)
    requires Inv(s)
    ensures SameFrames(s, Map(s, virt, phys, flags))
  {
    var key := PageOf(virt);
    GrowGrew(s, 1, key);
    var (s1, ok) := Grow(s, 1, key);
    if ok {
      TablesStay(s, s1, key, Or(phys, flags));
    }
  }

  lemma {:induction false} TablesStay(s: Sys, s1: Sys, key: Key, w: nat)
    requires Inv(s1) && SameFrames(s, s1) && NodeFor(1, key) in s1.tabs
    ensures SameFrames(s, StoreAt(s1, key, w))
  {
    var s2, t := StoreAt(s1, key, w), s1.tabs[NodeFor(1, key)];
    assert NodeOk(s1.mem, s1.tabs, NodeFor(1, key));
    assert t in s1.tabs.Values;
    forall f | f in s.mem && f !in s.tabs.Values && f !in s.pm.stack ensures s2.mem[f] == s.mem[f] {
      assert f !in s.tabs.Values + ToSet(s.pm.stack);
      assert f != t;
    }
  }

  lemma MapInv(s: Sys, virt: nat, phys: nat, flags: nat)
    requires Inv(s)
    ensures Inv(Map(s, virt, phys, flags))
  {
    MapRefines(s, virt, phys, flags);
  }

  lemma {:induction false} MapStep(w: World, virt: nat, phys: nat, flags: nat, all: set<nat>)
    requires WInv(w, all)
    ensures WInv(Step(w, MapPage(virt, phys, flags)), all)
  {
    hide Inv, Map, SameFrames;
    MapInv(w.sys, virt, phys, flags);
    MapKeepsFrames(w.sys, virt, phys, flags);
    SplitOwned(w, Map(w.sys, virt, phys, flags), all);
  }

  /** Mapping never touches the contents of a client's frame. */
  lemma {:induction false} MapKeepsContents(w: World, virt: nat, phys: nat, flags: nat, all: set<nat>, f: nat)
    requires WInv(w, all) && f in w.owned
    ensures f in w.sys.mem && f in Map(w.sys, virt, phys, flags).mem
    ensures Map(w.sys, virt, phys, flags).mem[f] == w.sys.mem[f]
  {
    hide Tree, Map;
    MapKeepsFrames(w.sys, virt, phys, flags);
    assert f in all && GoodFrame(w.sys.mem, f);
    assert f !in ToSet(w.sys.pm.stack);
  }

  lemma {:induction false} SplitOwned(w: World, s': Sys, all: set<nat>)
    requires WInv(w, all) && SameFrames(w.sys, s') && Inv(s')
    ensures WInv(World(s', w.owned), all)
  {
    hide Tree, Pmm.Inv;
    NotTables(s', ToSet(s'.pm.stack));
    FramesMoved(w.sys.pm, s'.pm, w.sys.tabs.Values, s'.tabs.Values, w.owned, all);
  }

  /** Frames that go from the stack to tables leave the partition a partition. */
  lemma {:induction false} FramesMoved(pm: Pmm.State, pm': Pmm.State, t: set<nat>, t': set<nat>, o: set<nat>,
                                       all: set<nat>)
    requires Pmm.Inv(Pmm.World(pm, o + t), all) && o !! t
    requires NoDup(pm'.stack) && ToSet(pm'.stack) !! t' && t' + ToSet(pm'.stack) == t + ToSet(pm.stack)
    requires pm'.free - |pm'.stack| == pm.free - |pm.stack| && pm'.used + |pm'.stack| == pm.used + |pm.stack|
    requires pm'.total == pm.total
    ensures Pmm.Inv(Pmm.World(pm', o + t'), all) && o !! t'
  {
    NoDupCard(pm.stack);
    NoDupCard(pm'.stack);
    SplitSets(ToSet(pm.stack), ToSet(pm'.stack), t, t', o, all);
  }

  lemma SplitSets(a: set<nat>, a': set<nat>, t: set<nat>, t': set<nat>, o: set<nat>, all: set<nat>)
    requires a !! (o + t) && o !! t && a + (o + t) == all
    requires a' + t' == a + t && a' !! t'
    ensures a' !! (o + t') && o !! t' && a' + (o + t') == all
    ensures |a'| + |o + t'| == |a| + |o + t|
  {
    forall x | x in o ensures x !in a' + t' {
    }
    assert a' + (o + t') == all;
    assert |a' + (o + t')| == |a'| + |o + t'|;
    assert |a + (o + t)| == |a| + |o + t|;
  }

  lemma {:induction false} UnmapStep(w: World, virt: nat, freePhys: bool, all: set<nat>)
    requires WInv(w, all) && Allowed(w, UnmapPage(virt, freePhys))
    ensures WInv(Step(w, UnmapPage(virt, freePhys)), all)
  {
    hide Tree, WInv, Pmm.Inv, Pmm.Free, StoreAt, Leaf;
    var s, key := w.sys, PageOf(virt);
    WorldInv(w, all);
    if Halts(s, UnmapPage(virt, freePhys)) {
      return;
    }
    LeafInTree(s.mem, s.root, s.tabs, key);
    if NodeFor(1, key) in s.tabs {
      StoreKeeps(s, key, 0);
      OtherMemory(w, StoreAt(s, key, 0).mem, all);
      if freePhys {
        GiveBack(w, StoreAt(s, key, 0).mem, Field(Leaf(s.mem, s.root, key)), all);
      }
    }
  }

  lemma {:induction false} WorldInv(w: World, all: set<nat>)
    requires WInv(w, all)
    ensures Inv(w.sys)
  {
  }

  /** Storing an entry changes memory only, and no frame disappears. */
  lemma {:induction false} StoreKeeps(s: Sys, key: Key, e: nat)
    requires Inv(s) && NodeFor(1, key) in s.tabs
    ensures var s' := StoreAt(s, key, e);
            s' == s.(mem := s'.mem) && s'.mem.Keys == s.mem.Keys && Tree(s'.mem, s.root, s.tabs)
  {
    hide Tree;
    StoreInv(s, key, e);
    TableOf(s, NodeFor(1, key));
  }

  lemma {:induction false} TableOf(s: Sys, n: Node)
    requires Inv(s) && n in s.tabs && n.level >= 1
    ensures s.tabs[n] in s.mem
  {
    assert NodeOk(s.mem, s.tabs, n);
  }

  lemma {:induction false} StepInv(w: World, op: Op, all: set<nat>)
    requires WInv(w, all) && Allowed(w, op)
    ensures WInv(Step(w, op), all)
  {
    match op {
      case TakeFrames(n) => TakeStep(w, n, all);
      case GiveFrame(f) => GiveBack(w, w.sys.mem, f, all);
      case MapPage(virt, phys, flags) => MapStep(w, virt, phys, flags, all);
      case UnmapPage(virt, freePhys) => UnmapStep(w, virt, freePhys, all);
      case WriteFrame(f, data) => WriteStep(w, f, data, all);
    }
  }

  // ---------- what happens without that discipline ----------

  /** Pushing a frame that is free, a table, or none of the allocator's breaks the partition. */
  lemma {:induction false} PushUnowned(pm: Pmm.State, used: set<nat>, f: nat, all: set<nat>)
    requires Pmm.Inv(Pmm.World(pm, used), all) && |pm.stack| < pm.total
    ensures !Pmm.Inv(Pmm.World(Pmm.Free(pm, f, 1), used), all)
  {
    FreePushes(pm, f);
    var stack' := pm.stack + [f];
    assert stack'[|pm.stack|] == f && f in ToSet(stack');
    if f in pm.stack {
      var i :| 0 <= i < |pm.stack| && pm.stack[i] == f;
      assert stack'[i] == stack'[|pm.stack|];
    }
  }

  /** Giving a frame back keeps the partition exactly if the client holds it. */
  lemma {:induction false} GiveExact(w: World, mem: Memory, f: nat, all: set<nat>)
    requires WInv(w, all)
    requires Tree(mem, w.sys.root, w.sys.tabs) && mem.Keys == w.sys.mem.Keys
    ensures WInv(World(Sys(mem, Pmm.Free(w.sys.pm, f, 1), w.sys.root, w.sys.tabs), w.owned - {f}), all) <==>
            f in w.owned
  {
    hide Tree, Pmm.Inv, Pmm.Free;
    if f in w.owned {
      GiveBack(w, mem, f, all);
    } else {
      OwnedInAll(w, all);
      PushUnowned(w.sys.pm, w.owned + w.sys.tabs.Values, f, all);
      assert w.owned - {f} == w.owned;
    }
  }

  lemma {:induction false} UnmapIsGive(w: World, virt: nat)
    requires Inv(w.sys) && Reaches(w.sys.mem, w.sys.root, PageOf(virt)) && !Halts(w.sys, UnmapPage(virt, true))
    ensures NodeFor(1, PageOf(virt)) in w.sys.tabs
    ensures var s, key := w.sys, PageOf(virt);
            var f := Field(Leaf(s.mem, s.root, key));
            Step(w, UnmapPage(virt, true)) ==
            World(Sys(StoreAt(s, key, 0).mem, Pmm.Free(s.pm, f, 1), s.root, s.tabs), w.owned - {f})
  {
    hide Tree, Leaf, Pmm.Free;
    LeafInTree(w.sys.mem, w.sys.root, w.sys.tabs, PageOf(virt));
    StoreKeeps(w.sys, PageOf(virt), 0);
  }

  /**
   The two ways to give a frame back, a direct free and an unmap with freePhys of a page whose entry
   names it, keep the partition exactly if the client holds the frame or the call stops the machine.
   */
  lemma {:induction false} FreeExact(w: World, op: Op, all: set<nat>)
    requires WInv(w, all) && (op.GiveFrame? || op.UnmapPage?)
    ensures WInv(Step(w, op), all) <==> Allowed(w, op) || Halts(w.sys, op)
  {
    hide WInv, Tree, Leaf, Pmm.Inv, Pmm.Free, Unmap;
    WorldInv(w, all);
    if Halts(w.sys, op) {
      return;
    }
    match op {
      case GiveFrame(f) => TreeOf(w.sys); GiveExact(w, w.sys.mem, f, all);
      case UnmapPage(virt, freePhys) =>
        var s, key := w.sys, PageOf(virt);
        if Allowed(w, op) {
          UnmapStep(w, virt, freePhys, all);
        } else {
          UnmapIsGive(w, virt);
          StoreKeeps(s, key, 0);
          GiveExact(w, StoreAt(s, key, 0).mem, Field(Leaf(s.mem, s.root, key)), all);
        }
    }
  }

  lemma {:induction false} TreeOf(s: Sys)
    requires Inv(s)
    ensures Tree(s.mem, s.root, s.tabs)
  {
  }

  /**
   The code checks for NULL, but not for ownership: mapping any other frame the client does not hold,
   and unmapping the page with freePhys, leads from a partition to a state that is none.
   */
  lemma {:induction false} UnownedMapping(w: World, virt: nat, f: nat, flags: nat, all: set<nat>)
    requires WInv(w, all) && MapOk(w.sys, virt)
    requires f !in w.owned && f != 0 && PageAddress(f, 52) && Field(flags) == 0
    ensures var w1 := Step(w, MapPage(virt, f, flags));
            && WInv(w1, all)
            && !Allowed(w1, UnmapPage(virt, true)) && !WInv(Step(w1, UnmapPage(virt, true)), all)
  {
    hide WInv, Inv, Leaf, Pmm.Inv, Pmm.Free, Unmap, Map;
    WorldInv(w, all);
    MapStep(w, virt, f, flags, all);
    MapRefines(w.sys, virt, f, flags);
    EntryRoundTrip(f, flags, 52);
    FreeExact(Step(w, MapPage(virt, f, flags)), UnmapPage(virt, true), all);
  }

  // ---------- runs ----------

  /** w' is reached from w by a run of allowed operations; RunInv shows that every step is defined. */
  ghost predicate Runs(w: World, ops: seq<Op>, w': World)
    decreases |ops|
  {
    if ops == [] then w' == w
    else Inv(w.sys) ==> Allowed(w, ops[0]) && Runs(Step(w, ops[0]), ops[1..], w')
  }

  /**
   The ownership partition holds in every state any allowed run reaches: free frames, table frames
   and client frames are duplicate-free, pairwise disjoint, and together the initial frames.
   */
  lemma {:induction false} RunInv(w: World, ops: seq<Op>, w': World, all: set<nat>)
    requires WInv(w, all) && Runs(w, ops, w')
    ensures WInv(w', all)
    ensures |w'.sys.pm.stack| + |w'.owned| + |w'.sys.tabs| == |all|
    decreases |ops|
  {
    if ops == [] {
      Pmm.InvCounts(Pmm.World(w.sys.pm, w.owned + w.sys.tabs.Values), all);
      assert |w.owned + w.sys.tabs.Values| == |w.owned| + |w.sys.tabs.Values|;
      TablesAreFrames(w.sys.tabs);
    } else {
      StepInv(w, ops[0], all);
      RunInv(Step(w, ops[0]), ops[1..], w', all);
    }
  }

  /**
   In every state of every allowed run the upper tables let everything through: what the hardware
   grants for a page that is reached is decided by its leaf entry alone.
   */
  lemma {:induction false} RunAccess(w: World, ops: seq<Op>, w': World, all: set<nat>, key: Key)
    requires WInv(w, all) && Runs(w, ops, w') && Reaches(w'.sys.mem, w'.sys.root, key)
    ensures var mem, root := w'.sys.mem, w'.sys.root;
            && (SetAlong(mem, root, 4, key, 0) <==> Shr(Leaf(mem, root, key), 0) % 2 == 1)
            && (SetAlong(mem, root, 4, key, 1) <==> Shr(Leaf(mem, root, key), 1) % 2 == 1)
            && (SetAlong(mem, root, 4, key, 2) <==> Shr(Leaf(mem, root, key), 2) % 2 == 1)
            && (SetSomewhere(mem, root, 4, key, 63) <==> Shr(Leaf(mem, root, key), 63) % 2 == 1)
  {
    hide WInv, Runs, Tree, Leaf, Shr, SetAlong, SetSomewhere, Reaches;
    RunInv(w, ops, w', all);
    WorldInv(w', all);
    AccessExact(w'.sys.mem, w'.sys.root, w'.sys.tabs, key);
  }

  lemma {:induction false} TablesAreFrames(tabs: map<Node, nat>)
    requires forall m, n :: m in tabs && n in tabs && tabs[m] == tabs[n] ==> m == n
    ensures |tabs.Values| == |tabs|
    decreases |tabs|
  {
    if |tabs| == 0 {
      assert tabs.Keys == {};
      assert tabs.Values == {};
    } else {
      var n :| n in tabs;
      var rest := tabs - {n};
      assert rest.Keys == tabs.Keys - {n};
      assert rest[n := tabs[n]] == tabs;
      AddValue(rest, n, tabs[n]);
      forall m | m in rest ensures rest[m] != tabs[n] {
        assert tabs[m] == rest[m];
      }
      TablesAreFrames(rest);
      assert tabs.Values == rest.Values + {tabs[n]};
    }
  }

  // ---------- what the tables cost ----------

  /** The tables needed for a set of page numbers: the root and every table on some path. */
  function Needed(keys: set<Key>): set<Node> {
    {ROOT} + (set k | k in keys :: NodeFor(3, k)) + (set k | k in keys :: NodeFor(2, k)) +
      (set k | k in keys :: NodeFor(1, k))
  }

  /** Distinct prefixes of 9, 18 and 27 bits. */
  function Prefixes(keys: set<Key>, level: nat): set<nat> {
    set k | k in keys :: NodeFor(level, k).prefix
  }

  /** One root, and one table for each distinct prefix at each level below it. */
  function TableCount(keys: set<Key>): nat {
    1 + |Prefixes(keys, 3)| + |Prefixes(keys, 2)| + |Prefixes(keys, 1)|
  }

  lemma LevelNodes(keys: set<Key>, level: nat)
    ensures |set k | k in keys :: NodeFor(level, k)| == |Prefixes(keys, level)|
  {
    var nodes, prefixes := (set k | k in keys :: NodeFor(level, k)), Prefixes(keys, level);
    SameSize(nodes, prefixes, level);
  }

  lemma {:induction false} SameSize(nodes: set<Node>, prefixes: set<nat>, level: nat)
    requires forall n :: n in nodes <==> n.level == level && n.prefix in prefixes
    ensures |nodes| == |prefixes|
    decreases |nodes|
  {
    if nodes == {} {
      assert forall p :: p in prefixes ==> Node(level, p) in nodes;
      assert prefixes == {};
    } else {
      var n :| n in nodes;
      SameSize(nodes - {n}, prefixes - {n.prefix}, level);
    }
  }

  lemma NeededCount(keys: set<Key>)
    ensures |Needed(keys)| == TableCount(keys)
  {
    var a, b := (set k | k in keys :: NodeFor(3, k)), (set k | k in keys :: NodeFor(2, k));
    var c := (set k | k in keys :: NodeFor(1, k));
    LevelNodes(keys, 3);
    LevelNodes(keys, 2);
    LevelNodes(keys, 1);
    LevelsApart({ROOT}, a, b, c);
  }

  ghost predicate AllAt(nodes: set<Node>, level: nat) {
    forall n :: n in nodes ==> n.level == level
  }

  lemma LevelsApart(root: set<Node>, a: set<Node>, b: set<Node>, c: set<Node>)
    requires AllAt(root, 4) && AllAt(a, 3) && AllAt(b, 2) && AllAt(c, 1)
    ensures |root + a + b + c| == |root| + |a| + |b| + |c|
  {
    assert root !! a && (root + a) !! b && (root + a + b) !! c;
  }

  lemma NeededAdd(keys: set<Key>, key: Key)
    ensures Needed(keys + {key}) == Needed(keys) + Path(1, key)
  {
    assert Path(1, key) == {ROOT, NodeFor(3, key), NodeFor(2, key), NodeFor(1, key)};
  }

  /** The page numbers a run maps. */
  function Mapped(ops: seq<Op>): set<Key> {
    if ops == [] then {}
    else MappedBy(ops[0]) + Mapped(ops[1..])
  }

  /** No map of the run runs out of frames. */
  ghost predicate MapsSucceed(w: World, ops: seq<Op>)
    decreases |ops|
  {
    if ops == [] then true
    else Inv(w.sys) ==> (ops[0].MapPage? ==> MapOk(w.sys, ops[0].virt)) && MapsSucceed(Step(w, ops[0]), ops[1..])
  }

  /** The page an operation maps. */
  function MappedBy(op: Op): set<Key> {
    if op.MapPage? then {PageOf(op.virt)} else {}
  }

  lemma {:induction false} StepCost(w: World, op: Op, seen: set<Key>)
    requires Inv(w.sys) && w.sys.tabs.Keys == Needed(seen)
    requires op.MapPage? ==> MapOk(w.sys, op.virt)
    ensures Step(w, op).sys.tabs.Keys == Needed(seen + MappedBy(op))
  {
    hide Inv, Map, Needed, Missing, Leaf;
    if op.MapPage? {
      MapRefines(w.sys, op.virt, op.phys, op.flags);
      NeededAdd(seen, PageOf(op.virt));
    } else {
      assert seen + MappedBy(op) == seen;
    }
  }

  lemma {:induction false} RunTables(w: World, ops: seq<Op>, w': World, seen: set<Key>, all: set<nat>)
    requires WInv(w, all) && Runs(w, ops, w') && MapsSucceed(w, ops)
    requires w.sys.tabs.Keys == Needed(seen)
    ensures w'.sys.tabs.Keys == Needed(seen + Mapped(ops))
    decreases |ops|
  {
    hide WInv, Inv, Needed, Step, Allowed;
    MappedSplit(seen, ops);
    WorldInv(w, all);
    if ops != [] {
      StepCost(w, ops[0], seen);
      StepInv(w, ops[0], all);
      RunTables(Step(w, ops[0]), ops[1..], w', seen + MappedBy(ops[0]), all);
    }
  }

  lemma MappedSplit(seen: set<Key>, ops: seq<Op>)
    ensures ops == [] ==> seen + Mapped(ops) == seen
    ensures ops != [] ==> seen + Mapped(ops) == (seen + MappedBy(ops[0])) + Mapped(ops[1..])
  {
  }

  /**
   The exact cost of paging: after any allowed run without a failed map, the tables are those on the
   paths of the pages ever mapped, so their number is 1 plus the numbers of distinct 9-, 18- and
   27-bit prefixes of these pages, whatever the order, the repetitions and the unmaps.
   */
  lemma {:induction false} RunCost(w: World, ops: seq<Op>, w': World, all: set<nat>)
    requires WInv(w, all) && Runs(w, ops, w') && MapsSucceed(w, ops)
    requires w.sys.tabs.Keys == {ROOT}
    ensures |w'.sys.tabs| == TableCount(Mapped(ops))
    ensures w'.sys.tabs.Keys == Needed(Mapped(ops))
  {
    hide WInv, Runs, MapsSucceed;
    var none: set<Key> := {};
    assert Needed(none) == {ROOT};
    RunTables(w, ops, w', none, all);
    assert none + Mapped(ops) == Mapped(ops);
    NeededCount(Mapped(ops));
    assert |w'.sys.tabs| == |w'.sys.tabs.Keys|;
  }

  /** Enough frames for all tables of a set of pages means no map within the set ever fails. */
  lemma {:induction false} EnoughFrames(s: Sys, keys: set<Key>, virt: nat)
    requires Inv(s) && PageOf(virt) in keys
    requires s.tabs.Keys <= Needed(keys)
    requires |s.tabs| + |s.pm.stack| >= |Needed(keys)|
    ensures MapOk(s, virt)
    ensures Path(1, PageOf(virt)) <= Needed(keys)
  {
    hide Inv, Needed, Path, Missing;
    var key := PageOf(virt);
    RootInTabs(s);
    var lacking := Path(1, key) - s.tabs.Keys;
    assert keys + {key} == keys;
    NeededAdd(keys, key);
    MissingIsPath(s.tabs, 1, key);
    CardSubset(lacking + s.tabs.Keys, Needed(keys));
    assert |lacking + s.tabs.Keys| == |lacking| + |s.tabs.Keys|;
  }

  lemma {:induction false} MissingIsPath(tabs: map<Node, nat>, level: nat, key: Key)
    requires ROOT in tabs && 1 <= level <= 4
    ensures Missing(tabs, level, key) == |Path(level, key) - tabs.Keys|
    decreases 4 - level
  {
    if level == 4 {
      assert Path(level, key) - tabs.Keys == {};
    } else {
      MissingIsPath(tabs, level + 1, key);
      NotOnHigherPath(level, level + 1, key);
      OneMore(Path(level + 1, key), NodeFor(level, key), tabs.Keys);
    }
  }

  lemma OneMore(path: set<Node>, n: Node, present: set<Node>)
    requires n !in path
    ensures |path + {n} - present| == |path - present| + if n in present then 0 else 1
  {
    assert path + {n} - present == if n in present then path - present else (path - present) + {n};
  }

  lemma {:induction false} CardSubset<T>(a: set<T>, b: set<T>)
    requires a <= b
    ensures |a| <= |b|
  {
    assert b == a + (b - a);
    assert |b| == |a| + |b - a|;
  }
}
