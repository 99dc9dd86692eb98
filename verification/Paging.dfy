/**
 What mapping and unmapping a page do to physical memory, the page tables and the free stack,
 and the properties of these operations over every run.
 */
module Paging {
  import opened Words
  import opened MemoryMap
  import opened Sequences
  import opened PageTree
  import Pmm

  /** tabs records which frame holds which table; the code itself only has mem, pm and root. */
  datatype Sys = Sys(mem: Memory, pm: Pmm.State, root: nat, tabs: map<Node, nat>)

  /** A frame the allocator may hand out: not NULL, addressable by an entry, present in memory. */
  ghost predicate GoodFrame(mem: Memory, f: nat) {
    f != 0 && PageAddress(f, 52) && f in mem
  }

  /** The tables form a tree and none of their frames is on the free stack. */
  ghost predicate Inv(s: Sys) {
    && Tree(s.mem, s.root, s.tabs)
    && NoDup(s.pm.stack)
    && forall f :: f in s.pm.stack ==> GoodFrame(s.mem, f) && f !in s.tabs.Values
  }

  // ---------- growing the tree ----------

  /** get_below_pml with force set, at the entry of table n in its parent. */
  function Extend(s: Sys, n: Node): (r: (Sys, bool))
    requires Inv(s) && 1 <= n.level <= 3 && Parent(n) in s.tabs
    ensures Inv(r.0) && (r.1 ==> n in r.0.tabs)
  {
    if n in s.tabs then (s, true)
    else if s.pm.stack == [] then (s, false)
    else
      ExtendInv(s, n);
      (LinkTop(s, n), true)
  }

  /** The top free frame becomes table n. */
  function LinkTop(s: Sys, n: Node): Sys
    requires Parent(n) in s.tabs && s.tabs[Parent(n)] in s.mem && s.pm.stack != []
  {
    var (pm, f) := Pmm.Request(s.pm, 1);
    Sys(Link(s.mem, s.tabs, n, f), pm, s.root, s.tabs[n := f])
  }

  lemma ExtendCanLink(s: Sys, n: Node)
    requires Inv(s) && 1 <= n.level <= 3 && Parent(n) in s.tabs && n !in s.tabs && s.pm.stack != []
    ensures CanLink(s.mem, s.root, s.tabs, n, s.pm.stack[|s.pm.stack|-1])
  {
    assert NodeOk(s.mem, s.tabs, Parent(n)) && GoodFrame(s.mem, s.pm.stack[|s.pm.stack|-1]);
  }

  lemma {:induction false} ExtendFrames(s: Sys, n: Node)
    requires Inv(s) && 1 <= n.level <= 3 && Parent(n) in s.tabs && n !in s.tabs && s.pm.stack != []
    ensures s.tabs[Parent(n)] in s.mem && SameFrames(s, LinkTop(s, n))
    ensures var s' := LinkTop(s, n); forall f :: f in s'.pm.stack ==> GoodFrame(s'.mem, f) && f !in s'.tabs.Values
  {
    hide Tree, CanLink, LinkTop, GoodFrame, SameFrames, Pmm.Request, Link, Zeroed;
    ExtendCanLink(s, n);
    LinkTopFields(s, n);
    var s', f := LinkTop(s, n), s.pm.stack[|s.pm.stack|-1];
    assert s.tabs[Parent(n)] in s.tabs.Values;
    PopTop(s.pm.stack);
    AddValue(s.tabs, n, f);
    OneMoved(s, s', n, s.tabs[Parent(n)], f);
    StillGood(s.mem, s'.mem);
  }

  /** The top frame has become a table, and only it and one other table have been written. */
  lemma {:induction false} OneMoved(s: Sys, s': Sys, n: Node, p: nat, f: nat)
    requires n !in s.tabs && p in s.tabs.Values && NoDup(s.pm.stack) && s.pm.stack != []
             && f == s.pm.stack[|s.pm.stack|-1]
    requires s'.root == s.root && s'.tabs == s.tabs[n := f] && s'.mem.Keys == s.mem.Keys
    requires s'.pm == s.pm.(stack := s.pm.stack[..|s.pm.stack|-1], free := s.pm.free - 1, used := s.pm.used + 1)
    requires forall g :: g in s.mem && g != p && g != f ==> s'.mem[g] == s.mem[g]
    ensures SameFrames(s, s')
  {
    PopTop(s.pm.stack);
    AddValue(s.tabs, n, f);
    ExtendSets(s.tabs.Values, ToSet(s.pm.stack), ToSet(s'.pm.stack), f);
  }

  lemma {:induction false} StillGood(mem: Memory, mem': Memory)
    requires mem'.Keys == mem.Keys
    ensures forall f :: GoodFrame(mem, f) ==> GoodFrame(mem', f)
  {
  }

  lemma {:induction false} LinkTopFields(s: Sys, n: Node)
    requires Inv(s) && 1 <= n.level <= 3 && Parent(n) in s.tabs && n !in s.tabs && s.pm.stack != []
    ensures s.tabs[Parent(n)] in s.mem
    ensures var s', left := LinkTop(s, n), |s.pm.stack| - 1;
            && s'.root == s.root && s'.tabs == s.tabs[n := s.pm.stack[left]] && s'.mem.Keys == s.mem.Keys
            && s'.pm == s.pm.(stack := s.pm.stack[..left], free := s.pm.free - 1, used := s.pm.used + 1)
            && forall g :: g in s.mem && g != s.tabs[Parent(n)] && g != s.pm.stack[left] ==> s'.mem[g] == s.mem[g]
  {
    hide Tree;
    ExtendCanLink(s, n);
    assert GoodFrame(s.mem, s.pm.stack[|s.pm.stack|-1]);
  }

  lemma {:induction false} PopTop(s: seq<nat>)
    requires NoDup(s) && s != []
    ensures s == s[..|s|-1] + [s[|s|-1]] && ToSet(s) == ToSet(s[..|s|-1]) + {s[|s|-1]}
    ensures s[|s|-1] !in s[..|s|-1]
  {
    assert s == s[..|s|-1] + [s[|s|-1]];
  }

  lemma {:induction false} ExtendSets(tables: set<nat>, free: set<nat>, left: set<nat>, f: nat)
    requires free == left + {f}
    ensures (tables + {f}) + left == tables + free
  {
  }

  lemma ExtendLeaves(s: Sys, n: Node)
    requires Inv(s) && 1 <= n.level <= 3 && Parent(n) in s.tabs && n !in s.tabs && s.pm.stack != []
    ensures s.tabs[Parent(n)] in s.mem
    ensures var s' := LinkTop(s, n); Tree(s'.mem, s'.root, s'.tabs) && SameLeaves(s, s')
  {
    ExtendCanLink(s, n);
    var f := s.pm.stack[|s.pm.stack|-1];
    var mem' := Link(s.mem, s.tabs, n, f);
    LinkTree(s.mem, s.root, s.tabs, n, f);
    forall k: Key ensures Leaf(mem', s.root, k) == Leaf(s.mem, s.root, k)
                  ensures Reaches(s.mem, s.root, k) ==> Reaches(mem', s.root, k) {
      LinkLeaf(s.mem, s.root, s.tabs, n, f, k);
      LeafInTree(s.mem, s.root, s.tabs, k);
      LeafInTree(mem', s.root, s.tabs[n := f], k);
    }
  }

  lemma ExtendInv(s: Sys, n: Node)
    requires Inv(s) && 1 <= n.level <= 3 && Parent(n) in s.tabs && n !in s.tabs && s.pm.stack != []
    ensures s.tabs[Parent(n)] in s.mem && Inv(LinkTop(s, n)) && Grew(s, LinkTop(s, n))
  {
    ExtendFrames(s, n);
    ExtendLeaves(s, n);
  }

  lemma AddValue(tabs: map<Node, nat>, n: Node, f: nat)
    requires n !in tabs
    ensures tabs[n := f].Values == tabs.Values + {f}
  {
    var tabs' := tabs[n := f];
    assert tabs'[n] == f;
    forall v | v in tabs.Values ensures v in tabs'.Values {
      var m :| m in tabs && tabs[m] == v;
      assert tabs'[m] == v;
    }
  }

  /** Frames move from the top of the stack to new tables; no other frame is touched. */
  ghost predicate SameFrames(s: Sys, s': Sys) {
    && s'.root == s.root && s'.mem.Keys == s.mem.Keys
    && s.tabs.Keys <= s'.tabs.Keys
    && s'.pm.stack <= s.pm.stack
    && |s'.tabs| + |s'.pm.stack| == |s.tabs| + |s.pm.stack|
    && s'.tabs.Values + ToSet(s'.pm.stack) == s.tabs.Values + ToSet(s.pm.stack)
    && s'.pm.free - |s'.pm.stack| == s.pm.free - |s.pm.stack|
    && s'.pm.used + |s'.pm.stack| == s.pm.used + |s.pm.stack|
    && s'.pm.total == s.pm.total
    && (forall f :: f in s.mem && f !in s.tabs.Values && f !in s.pm.stack ==> s'.mem[f] == s.mem[f])
  }

  /** The flat map is the same, and no path is lost. */
  ghost predicate SameLeaves(s: Sys, s': Sys) {
    && (forall k: Key :: Leaf(s'.mem, s'.root, k) == Leaf(s.mem, s.root, k))
    && (forall k: Key :: Reaches(s.mem, s.root, k) ==> Reaches(s'.mem, s'.root, k))
  }

  /** What growing the tree may do: nothing a client can see. */
  ghost predicate Grew(s: Sys, s': Sys) {
    SameFrames(s, s') && SameLeaves(s, s')
  }

  /** pml4_to_pt with force set: make sure the tables for key exist from the root down to a level. */
  function Grow(s: Sys, level: nat, key: Key): (r: (Sys, bool))
    requires Inv(s) && 1 <= level <= 4
    ensures Inv(r.0)
    ensures r.1 ==> NodeFor(level, key) in r.0.tabs
    decreases 4 - level
  {
    if level == 4 then (s, true)
    else
      var (s1, ok) := Grow(s, level + 1, key);
      if !ok then (s1, false)
      else
        NodeForParent(level, key);
        Extend(s1, NodeFor(level, key))
  }

  /** How many tables between the root and a level are missing for key. */
  function Missing(tabs: map<Node, nat>, level: nat, key: Key): nat
    requires 1 <= level <= 4
    decreases 4 - level
  {
    if level == 4 then 0
    else Missing(tabs, level + 1, key) + if NodeFor(level, key) in tabs then 0 else 1
  }

  /** The tables on key's path down to a level. */
  function Path(level: nat, key: Key): set<Node>
    requires 1 <= level <= 4
    decreases 4 - level
  {
    if level == 4 then {ROOT} else Path(level + 1, key) + {NodeFor(level, key)}
  }

  lemma {:induction false} GrewTrans(a: Sys, b: Sys, c: Sys)
    requires Grew(a, b) && Grew(b, c)
    ensures Grew(a, c)
  {
    hide SameFrames, SameLeaves;
    FramesTrans(a, b, c);
    LeavesTrans(a, b, c);
  }

  lemma {:induction false} LeavesTrans(a: Sys, b: Sys, c: Sys)
    requires SameLeaves(a, b) && SameLeaves(b, c)
    ensures SameLeaves(a, c)
  {
    hide Leaf, Reaches;
  }

  lemma {:induction false} FramesTrans(a: Sys, b: Sys, c: Sys)
    requires SameFrames(a, b) && SameFrames(b, c)
    ensures SameFrames(a, c)
  {
    PrefixTrans(a.pm.stack, b.pm.stack, c.pm.stack);
    forall f | f in a.mem && f !in a.tabs.Values && f !in a.pm.stack ensures c.mem[f] == a.mem[f] {
      NotMoved(a, b, f);
    }
  }

  lemma {:induction false} PrefixTrans(a: seq<nat>, b: seq<nat>, c: seq<nat>)
    requires c <= b <= a
    ensures c <= a
  {
  }

  lemma {:induction false} NotMoved(a: Sys, b: Sys, f: nat)
    requires SameFrames(a, b) && f !in a.tabs.Values && f !in a.pm.stack
    ensures f !in b.tabs.Values && f !in b.pm.stack
  {
    assert f !in a.tabs.Values + ToSet(a.pm.stack);
    assert f !in ToSet(b.pm.stack);
  }

  lemma {:induction false} GrewNothing(s: Sys)
    ensures Grew(s, s)
  {
    hide Leaf, Reaches;
  }

  lemma {:induction false} GrowGrew(s: Sys, level: nat, key: Key)
    requires Inv(s) && 1 <= level <= 4
    ensures Grew(s, Grow(s, level, key).0)
    decreases 4 - level
  {
    hide Inv, Grew, LinkTop;
    if level == 4 {
      GrewNothing(s);
    } else {
      GrowGrew(s, level + 1, key);
      var (s1, ok) := Grow(s, level + 1, key);
      NodeForParent(level, key);
      if ok && NodeFor(level, key) !in s1.tabs && s1.pm.stack != [] {
        ExtendInv(s1, NodeFor(level, key));
        GrewTrans(s, s1, LinkTop(s1, NodeFor(level, key)));
      }
    }
  }

  /** What one extension does to the counts. */
  ghost predicate Extended(s: Sys, s': Sys, ok: bool, n: Node) {
    && (ok <==> n in s.tabs || s.pm.stack != [])
    && s'.tabs.Keys == (if ok then s.tabs.Keys + {n} else s.tabs.Keys)
    && |s'.pm.stack| == |s.pm.stack| - (if n in s.tabs || !ok then 0 else 1)
  }

  /** What growing down to a level does to the counts. */
  ghost predicate Counted(s: Sys, s': Sys, ok: bool, level: nat, key: Key)
    requires 1 <= level <= 4
  {
    && (ok <==> Missing(s.tabs, level, key) <= |s.pm.stack|)
    && (ok ==> s'.tabs.Keys == s.tabs.Keys + Path(level, key))
    && (ok ==> |s'.pm.stack| == |s.pm.stack| - Missing(s.tabs, level, key))
    && (!ok ==> s'.pm.stack == [])
  }

  lemma ExtendCounts(s: Sys, n: Node)
    requires Inv(s) && 1 <= n.level <= 3 && Parent(n) in s.tabs
    ensures Extended(s, Extend(s, n).0, Extend(s, n).1, n)
  {
  }

  lemma CountStep(s: Sys, s1: Sys, s2: Sys, ok: bool, level: nat, key: Key)
    requires 1 <= level <= 3
    requires Counted(s, s1, true, level + 1, key) && Extended(s1, s2, ok, NodeFor(level, key))
    ensures Counted(s, s2, ok, level, key)
  {
    var n := NodeFor(level, key);
    NotOnHigherPath(level, level + 1, key);
    assert n in s1.tabs.Keys <==> n in s.tabs.Keys;
  }

  lemma {:induction false} GrowCounts(s: Sys, level: nat, key: Key)
    requires Inv(s) && 1 <= level <= 4
    ensures Counted(s, Grow(s, level, key).0, Grow(s, level, key).1, level, key)
    decreases 4 - level
  {
    hide Inv, Counted, Extended, Extend, Missing, Path;
    if level < 4 {
      GrowCounts(s, level + 1, key);
      var (s1, ok) := Grow(s, level + 1, key);
      if ok {
        NodeForParent(level, key);
        ExtendCounts(s1, NodeFor(level, key));
        CountStep(s, s1, Grow(s, level, key).0, Grow(s, level, key).1, level, key);
      } else {
        CountFailed(s, s1, level, key);
      }
    } else {
      RootInTabs(s);
      CountNothing(s, key);
    }
  }

  lemma {:induction false} RootInTabs(s: Sys)
    requires Inv(s)
    ensures ROOT in s.tabs
  {
  }

  lemma {:induction false} CountFailed(s: Sys, s1: Sys, level: nat, key: Key)
    requires 1 <= level <= 3 && Counted(s, s1, false, level + 1, key)
    ensures Counted(s, s1, false, level, key)
  {
  }

  lemma {:induction false} CountNothing(s: Sys, key: Key)
    requires ROOT in s.tabs
    ensures Counted(s, s, true, 4, key)
  {
    assert s.tabs.Keys + {ROOT} == s.tabs.Keys;
  }

  /**
   Growing succeeds exactly when there are as many free frames as missing tables, takes exactly
   the missing ones (or all there are), and changes nothing that can be observed by translating.
   */
  lemma {:induction false} GrowEffect(s: Sys, level: nat, key: Key)
    requires Inv(s) && 1 <= level <= 4
    ensures var (s', ok) := Grow(s, level, key);
            && Grew(s, s')
            && Counted(s, s', ok, level, key)
  {
    GrowGrew(s, level, key);
    GrowCounts(s, level, key);
  }

  lemma {:induction false} NotOnHigherPath(level: nat, high: nat, key: Key)
    requires 1 <= level < high <= 4
    ensures NodeFor(level, key) !in Path(high, key)
    decreases 4 - high
  {
    if high < 4 { NotOnHigherPath(level, high + 1, key); }
  }

  // ---------- mapping and unmapping ----------

  /** vmm_map. */
  function Map(s: Sys, virt: nat, phys: nat, flags: nat): Sys
    requires Inv(s)
  {
    var (s1, ok) := Grow(s, 1, PageOf(virt));
    if ok then StoreAt(s1, PageOf(virt), Or(phys, flags)) else s1
  }

  predicate MapOk(s: Sys, virt: nat) {
    Missing(s.tabs, 1, PageOf(virt)) <= |s.pm.stack|
  }

  function StoreAt(s: Sys, key: Key, w: nat): Sys
    requires Inv(s) && NodeFor(1, key) in s.tabs
  {
    assert NodeOk(s.mem, s.tabs, NodeFor(1, key));
    s.(mem := Store(s.mem, s.tabs[NodeFor(1, key)], key % ENTRIES, w))
  }

  lemma {:induction false} StoreInv(s: Sys, key: Key, w: nat)
    requires Inv(s) && NodeFor(1, key) in s.tabs
    ensures Inv(StoreAt(s, key, w))
    ensures forall k: Key :: Leaf(StoreAt(s, key, w).mem, s.root, k) == if k == key then w else Leaf(s.mem, s.root, k)
    ensures forall k: Key :: Reaches(StoreAt(s, key, w).mem, s.root, k) <==> Reaches(s.mem, s.root, k)
  {
    assert NodeOk(s.mem, s.tabs, NodeFor(1, key));
    StoreTree(s.mem, s.root, s.tabs, NodeFor(1, key), key % ENTRIES, w);
    forall k: Key ensures Leaf(StoreAt(s, key, w).mem, s.root, k) == if k == key then w else Leaf(s.mem, s.root, k)
                  ensures Reaches(StoreAt(s, key, w).mem, s.root, k) <==> Reaches(s.mem, s.root, k) {
      StoreLeaf(s.mem, s.root, s.tabs, key, w, k);
    }
  }

  /**
   vmm_map refines the flat map: with enough frames for the missing tables it sets exactly the
   page's entry to phys | flags and takes exactly those frames; without, it leaves every entry as
   it was, keeps the tables it managed to link, and the frames are gone. Either way the tables
   remain a tree with frames of their own.
   */
  lemma {:induction false} MapRefines(s: Sys, virt: nat, phys: nat, flags: nat)
    requires Inv(s)
    ensures var s', key := Map(s, virt, phys, flags), PageOf(virt);
            && Inv(s')
            && (forall k: Key :: Leaf(s'.mem, s'.root, k) ==
                                 if MapOk(s, virt) && k == key then Or(phys, flags) else Leaf(s.mem, s.root, k))
            && (MapOk(s, virt) ==> Reaches(s'.mem, s'.root, key))
            && (forall k: Key :: Reaches(s.mem, s.root, k) ==> Reaches(s'.mem, s'.root, k))
            && (MapOk(s, virt) ==> |s'.pm.stack| == |s.pm.stack| - Missing(s.tabs, 1, key))
            && (MapOk(s, virt) ==> s'.tabs.Keys == s.tabs.Keys + Path(1, key))
            && (!MapOk(s, virt) ==> s'.pm.stack == [])
            && s.tabs.Keys <= s'.tabs.Keys
  {
    var key := PageOf(virt);
    GrowEffect(s, 1, key);
    var (s1, ok) := Grow(s, 1, key);
    if ok {
      StoreInv(s1, key, Or(phys, flags));
      LeafInTree(s1.mem, s1.root, s1.tabs, key);
    }
  }

  /** A page that already has its path can always be mapped again, and takes no frame. */
  lemma {:induction false} RemapIsFree(s: Sys, virt: nat, phys: nat, flags: nat)
    requires Inv(s) && Reaches(s.mem, s.root, PageOf(virt))
    ensures MapOk(s, virt) && Map(s, virt, phys, flags).tabs == s.tabs && Map(s, virt, phys, flags).pm == s.pm
  {
    var key := PageOf(virt);
    LeafInTree(s.mem, s.root, s.tabs, key);
    Ancestors(s.mem, s.root, s.tabs, 1, 2, key);
    Ancestors(s.mem, s.root, s.tabs, 1, 3, key);
    GrowPresent(s, 1, key);
  }

  lemma {:induction false} GrowPresent(s: Sys, level: nat, key: Key)
    requires Inv(s) && 1 <= level <= 4
    requires forall l :: level <= l <= 3 ==> NodeFor(l, key) in s.tabs
    ensures Grow(s, level, key) == (s, true) && Missing(s.tabs, level, key) == 0
    decreases 4 - level
  {
    if level < 4 {
      NodeForParent(level, key);
      GrowPresent(s, level + 1, key);
    }
  }

  /**
   A failed map costs nothing in the long run: it keeps the tables it linked, so the number of
   frames a retry still needs is smaller by exactly the frames the failed attempt took.
   */
  lemma RetryReuses(s: Sys, virt: nat, phys: nat, flags: nat)
    requires Inv(s) && !MapOk(s, virt)
    ensures Missing(Map(s, virt, phys, flags).tabs, 1, PageOf(virt)) + |s.pm.stack| ==
            Missing(s.tabs, 1, PageOf(virt))
  {
    GrowMissing(s, 1, PageOf(virt));
  }

  /** Frames taken and tables no longer missing balance. */
  ghost predicate Balanced(s: Sys, s': Sys, level: nat, key: Key)
    requires 1 <= level <= 4
  {
    Missing(s'.tabs, level, key) + |s.pm.stack| == Missing(s.tabs, level, key) + |s'.pm.stack|
  }

  lemma {:induction false} GrowMissing(s: Sys, level: nat, key: Key)
    requires Inv(s) && 1 <= level <= 4
    ensures Balanced(s, Grow(s, level, key).0, level, key)
    decreases 4 - level
  {
    hide Inv, Missing;
    if level < 4 {
      GrowMissing(s, level + 1, key);
      AbsentStays(s, level + 1, key, level);
      GrowMissingStep(s, Grow(s, level + 1, key).0, level, key);
    }
  }

  lemma {:induction false} GrowMissingStep(s: Sys, s1: Sys, level: nat, key: Key)
    requires Inv(s) && 1 <= level <= 3 && s1 == Grow(s, level + 1, key).0
    requires Balanced(s, s1, level + 1, key)
    requires NodeFor(level, key) in s1.tabs <==> NodeFor(level, key) in s.tabs
    ensures Balanced(s, Grow(s, level, key).0, level, key)
  {
    if Grow(s, level + 1, key).1 {
      NodeForParent(level, key);
      ExtendMissing(s1, level, key);
      BalanceStep(s, s1, Extend(s1, NodeFor(level, key)).0, level, key);
    }
  }

  ghost predicate ExtendBalance(s: Sys, s': Sys, level: nat, key: Key)
    requires 1 <= level <= 3
  {
    var n := NodeFor(level, key);
    && Missing(s'.tabs, level + 1, key) == Missing(s.tabs, level + 1, key)
    && |s.pm.stack| - |s'.pm.stack| == (if n in s.tabs then 0 else 1) - (if n in s'.tabs then 0 else 1)
  }

  lemma BalanceStep(s: Sys, s1: Sys, s2: Sys, level: nat, key: Key)
    requires 1 <= level <= 3 && Balanced(s, s1, level + 1, key) && ExtendBalance(s1, s2, level, key)
    requires NodeFor(level, key) in s1.tabs <==> NodeFor(level, key) in s.tabs
    ensures Balanced(s, s2, level, key)
  {
  }

  lemma ExtendMissing(s: Sys, level: nat, key: Key)
    requires Inv(s) && 1 <= level <= 3 && Parent(NodeFor(level, key)) in s.tabs
    ensures ExtendBalance(s, Extend(s, NodeFor(level, key)).0, level, key)
  {
    var n := NodeFor(level, key);
    if n !in s.tabs && s.pm.stack != [] {
      MissingAbove(s.tabs, level + 1, key, n, s.pm.stack[|s.pm.stack|-1]);
    }
  }

  lemma {:induction false} MissingAbove(tabs: map<Node, nat>, level: nat, key: Key, n: Node, f: nat)
    requires 1 <= level <= 4 && n.level < level
    ensures Missing(tabs[n := f], level, key) == Missing(tabs, level, key)
    decreases 4 - level
  {
    if level < 4 { MissingAbove(tabs, level + 1, key, n, f); }
  }

  /** Growing down to a level adds no table below that level. */
  lemma {:induction false} AbsentStays(s: Sys, level: nat, key: Key, low: nat)
    requires Inv(s) && 1 <= low < level <= 4
    ensures NodeFor(low, key) in Grow(s, level, key).0.tabs <==> NodeFor(low, key) in s.tabs
    decreases 4 - level
  {
    hide Inv, Link, Pmm.Request;
    if level < 4 {
      NodeForParent(level, key);
      AbsentStays(s, level + 1, key, low);
    }
  }

  /** vmm_unmap, when it does not stop the machine by giving back NULL. */
  function Unmap(s: Sys, virt: nat, freePhys: bool): (Sys, bool)
    requires Inv(s)
  {
    var key := PageOf(virt);
    if NodeFor(1, key) !in s.tabs then (s, false)
    else
      var s1 := StoreAt(s, key, 0);
      (if freePhys then s1.(pm := Pmm.Free(s.pm, Field(Leaf(s.mem, s.root, key)), 1)) else s1, true)
  }

  /**
   vmm_unmap refines the flat map: it reports whether the path exists (not whether the page was
   mapped), sets exactly the page's entry to 0, and never gives a table back.
   */
  lemma {:induction false} UnmapRefines(s: Sys, virt: nat, freePhys: bool)
    requires Inv(s)
    ensures var (s', found) := Unmap(s, virt, freePhys);
            && Tree(s'.mem, s'.root, s'.tabs) && s'.tabs == s.tabs && s'.root == s.root
            && (found <==> Reaches(s.mem, s.root, PageOf(virt)))
            && (forall k: Key :: Leaf(s'.mem, s'.root, k) == if k == PageOf(virt) then 0 else Leaf(s.mem, s.root, k))
            && (forall k: Key :: Reaches(s'.mem, s'.root, k) <==> Reaches(s.mem, s.root, k))
            && (!freePhys ==> Inv(s') && s'.pm == s.pm)
  {
    var key := PageOf(virt);
    LeafInTree(s.mem, s.root, s.tabs, key);
    if NodeFor(1, key) in s.tabs {
      StoreInv(s, key, 0);
    }
  }

  /** Mapping and then unmapping a page leaves the flat map with just that page's entry 0. */
  lemma {:induction false} MapUnmap(s: Sys, virt: nat, phys: nat, flags: nat)
    requires Inv(s) && MapOk(s, virt)
    ensures var s1 := Map(s, virt, phys, flags);
            Inv(s1) &&
            var (s2, found) := Unmap(s1, virt, false);
            found && forall k: Key ::
              Leaf(s2.mem, s2.root, k) == if k == PageOf(virt) then 0 else Leaf(s.mem, s.root, k)
  {
    MapRefines(s, virt, phys, flags);
    UnmapRefines(Map(s, virt, phys, flags), virt, false);
  }

  /** virt2phys: no path gives 0; the leaf's present bit is not looked at. */
  function Translate(s: Sys, virt: nat, width: nat): nat {
    if Reaches(s.mem, s.root, PageOf(virt))
    then AddressBits(Leaf(s.mem, s.root, PageOf(virt)), width) + virt % PAGE_SIZE
    else 0
  }

  /**
   Without a path the answer is 0; otherwise the address in the page's entry, cut to the width of a
   physical address, and the offset in the page.
   */
  lemma {:induction false} TranslateExact(s: Sys, virt: nat, width: nat)
    requires 12 <= width
    ensures !Reaches(s.mem, s.root, PageOf(virt)) ==> Translate(s, virt, width) == 0
    ensures Reaches(s.mem, s.root, PageOf(virt)) ==>
              Translate(s, virt, width) == Leaf(s.mem, s.root, PageOf(virt)) % Pow2(width) / 4096 * 4096 + virt % 4096
  {
    hide AddressBits, Leaf;
    AddressExact(Leaf(s.mem, s.root, PageOf(virt)), width);
  }

  /**
   What the hardware lets through to a page just mapped is what the flags say, whichever of its tables
   the map had to create.
   */
  lemma {:induction false} MapAccess(s: Sys, virt: nat, phys: nat, flags: nat)
    requires Inv(s) && MapOk(s, virt) && PageAddress(phys, 52)
    ensures var s', key := Map(s, virt, phys, flags), PageOf(virt);
            && (SetAlong(s'.mem, s'.root, 4, key, 0) <==> Shr(flags, 0) % 2 == 1)
            && (SetAlong(s'.mem, s'.root, 4, key, 1) <==> Shr(flags, 1) % 2 == 1)
            && (SetAlong(s'.mem, s'.root, 4, key, 2) <==> Shr(flags, 2) % 2 == 1)
            && (SetSomewhere(s'.mem, s'.root, 4, key, 63) <==> Shr(flags, 63) % 2 == 1)
  {
    hide Tree, Map, MapOk, Leaf, Shr, Or, SetAlong, SetSomewhere, Reaches, PageAddress;
    var s', key := Map(s, virt, phys, flags), PageOf(virt);
    MapRefines(s, virt, phys, flags);
    AccessExact(s'.mem, s'.root, s'.tabs, key);
    FlagBit(phys, flags, 0);
    FlagBit(phys, flags, 1);
    FlagBit(phys, flags, 2);
    FlagBit(phys, flags, 63);
  }

  lemma {:induction false} FlagBit(phys: nat, flags: nat, n: nat)
    requires PageAddress(phys, 52) && (n < 4 || n == 63)
    ensures Shr(Or(phys, flags), n) % 2 == Shr(flags, n) % 2
  {
    AddressHasNoFlags(phys, 52, n);
    BitOr(phys, flags, n);
  }

  /** Translating any address of a page just mapped gives the physical address, offset included. */
  lemma {:induction false} MapTranslate(s: Sys, virt: nat, phys: nat, flags: nat, v: nat, width: nat)
    requires Inv(s) && MapOk(s, virt) && PageOf(v) == PageOf(virt)
    requires width <= 52 && PageAddress(phys, width) && Field(flags) == 0
    ensures Translate(Map(s, virt, phys, flags), v, width) == phys + v % PAGE_SIZE
  {
    MapRefines(s, virt, phys, flags);
    EntryRoundTrip(phys, flags, width);
  }

  /** No two entries of the tables above the last level point to the same table. */
  lemma UniqueParentEntry(s: Sys, m: Node, i: nat, n: Node, j: nat)
    requires Inv(s) && m in s.tabs && n in s.tabs && m.level > 1 && n.level > 1
    requires s.tabs[m] in s.mem && s.tabs[n] in s.mem && i < ENTRIES && j < ENTRIES
    requires Present(s.mem[s.tabs[m]][i]) && Present(s.mem[s.tabs[n]][j])
    requires Field(s.mem[s.tabs[m]][i]) == Field(s.mem[s.tabs[n]][j])
    ensures m == n && i == j
  {
    assert NodeOk(s.mem, s.tabs, m) && NodeOk(s.mem, s.tabs, n);
    assert EntryOk(s.mem[s.tabs[m]][i], s.tabs, Child(m, i));
    assert EntryOk(s.mem[s.tabs[n]][j], s.tabs, Child(n, j));
    assert Child(m, i) == Child(n, j);
    assert Parent(Child(m, i)) == m && Parent(Child(n, j)) == n;
  }
}
