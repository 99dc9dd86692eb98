/**
 The four-level page tables as a tree of 512-entry tables in physical frames (section 4.5 of
 volume 3A of the Intel 64 and IA-32 Architectures Software Developer's Manual), and the flat
 map from page numbers to leaf entries that the tree stands for.
 */
module PageTree {
  import opened Wrappers
  import opened Words
  import opened MemoryMap

  const ENTRIES := 512
  const KEYS := 0x10_0000_0000 // 2^36 page numbers
  const LINK_FLAGS := 7        // present, read/write, accessible to all

  type Table = t: seq<nat> | |t| == ENTRIES witness seq(ENTRIES, _ => 0)

  /** A frame after memset(frame, 0, PAGE_SIZE). */
  function Zeroed(): (t: Table)
    ensures forall i :: 0 <= i < ENTRIES ==> t[i] == 0
  {
    seq(ENTRIES, _ => 0)
  }

  /** Physical memory, frame by frame, as the page-table code sees it through the direct map. */
  type Memory = map<nat, Table>

  /** A 36-bit page number. */
  type Key = k: nat | k < KEYS

  // ---------- positions in the tree ----------

  /** The table at a level (4 is the PML4, 1 is a page table) that covers one address prefix. */
  datatype Node = Node(level: nat, prefix: nat)

  const ROOT := Node(4, 0)

  function Parent(n: Node): Node {
    Node(n.level + 1, n.prefix / ENTRIES)
  }

  /** The index of n's entry in its parent. */
  function Slot(n: Node): (i: nat)
    ensures i < ENTRIES
  {
    n.prefix % ENTRIES
  }

  function Child(n: Node, i: nat): Node
    requires n.level > 0
  {
    Node(n.level - 1, n.prefix * ENTRIES + i)
  }

  /** The table at a level through which a page number is translated. */
  function NodeFor(level: nat, key: Key): Node {
    Node(level, match level
                case 1 => key / 0x200
                case 2 => key / 0x4_0000
                case 3 => key / 0x800_0000
                case _ => 0)
  }

  function PageOf(virt: nat): Key {
    virt / PAGE_SIZE % KEYS
  }

  lemma NodeForParent(level: nat, key: Key)
    requires 1 <= level <= 3
    ensures Parent(NodeFor(level, key)) == NodeFor(level + 1, key)
    ensures Child(NodeFor(level + 1, key), Slot(NodeFor(level, key))) == NodeFor(level, key)
  {
  }

  /** The index fields the code extracts from an address are the slots of the tables on its path. */
  lemma {:induction false} IndexFields(virt: nat)
    ensures virt / 0x80_0000_0000 % ENTRIES == Slot(NodeFor(3, PageOf(virt)))
    ensures virt / 0x4000_0000 % ENTRIES == Slot(NodeFor(2, PageOf(virt)))
    ensures virt / 0x20_0000 % ENTRIES == Slot(NodeFor(1, PageOf(virt)))
    ensures virt / 0x1000 % ENTRIES == PageOf(virt) % ENTRIES
  {
    var q := virt / PAGE_SIZE;
    var h, key := q / KEYS, q % KEYS;
    assert q / 0x800_0000 == 0x200 * h + key / 0x800_0000;
    assert q / 0x4_0000 == 0x4_0000 * h + key / 0x4_0000;
    assert q / 0x200 == 0x800_0000 * h + key / 0x200;
    SameSlot(0x200 * h, key / 0x800_0000, h);
    SameSlot(0x4_0000 * h, key / 0x4_0000, 0x200 * h);
    SameSlot(0x800_0000 * h, key / 0x200, 0x4_0000 * h);
    SameSlot(KEYS * h, key, 0x800_0000 * h);
  }

  lemma SameSlot(high: nat, x: nat, k: nat)
    requires high == ENTRIES * k
    ensures (high + x) % ENTRIES == x % ENTRIES
  {
  }

  // ---------- following pointers ----------

  /** The hardware's walk: follow present entries down from a table to the page table for key. */
  function Walk(mem: Memory, frame: nat, level: nat, key: Key): (pt: Option<nat>)
    requires 1 <= level <= 4
    ensures pt.Some? ==> pt.value in mem
    decreases level
  {
    if frame !in mem then None
    else if level == 1 then Some(frame)
    else
      var e := mem[frame][Slot(NodeFor(level - 1, key))];
      if Present(e) then Walk(mem, Field(e), level - 1, key) else None
  }

  /** The path to key's leaf entry exists. */
  predicate Reaches(mem: Memory, root: nat, key: Key) {
    Walk(mem, root, 4, key).Some?
  }

  /** The flat map: the leaf entry of a page number, 0 where no path exists. */
  function Leaf(mem: Memory, root: nat, key: Key): nat {
    match Walk(mem, root, 4, key)
    case None => 0
    case Some(pt) => mem[pt][key % ENTRIES]
  }

  // ---------- the separation invariant ----------

  /** An entry that leaves all permissions to the levels below: present, writable, for user mode, executable. */
  ghost predicate Open(e: nat) {
    Shr(e, 0) % 2 == 1 && Shr(e, 1) % 2 == 1 && Shr(e, 2) % 2 == 1 && Shr(e, 63) % 2 == 0
  }

  ghost predicate EntryOk(e: nat, tabs: map<Node, nat>, c: Node) {
    (Present(e) <==> c in tabs) && (c in tabs ==> Field(e) == tabs[c] && Open(e))
  }

  ghost predicate NodeOk(mem: Memory, tabs: map<Node, nat>, n: Node)
    requires n in tabs
  {
    && 1 <= n.level <= 4
    && (n.level == 4 ==> n == ROOT)
    && (n.level < 4 ==> Parent(n) in tabs)
    && tabs[n] in mem
    && (n.level > 1 ==> forall i :: 0 <= i < ENTRIES ==> EntryOk(mem[tabs[n]][i], tabs, Child(n, i)))
  }

  /** The tables reachable from root are exactly tabs, each in a frame of its own with one parent entry. */
  ghost predicate Tree(mem: Memory, root: nat, tabs: map<Node, nat>) {
    && ROOT in tabs && tabs[ROOT] == root
    && (forall n :: n in tabs ==> NodeOk(mem, tabs, n))
    && (forall m, n :: m in tabs && n in tabs && tabs[m] == tabs[n] ==> m == n)
  }

  /** In a tree the walk for key ends at the page table recorded for key's prefix. */
  lemma {:induction false} WalkTree(mem: Memory, root: nat, tabs: map<Node, nat>, level: nat, key: Key)
    requires Tree(mem, root, tabs) && 1 <= level <= 4 && NodeFor(level, key) in tabs
    ensures Walk(mem, tabs[NodeFor(level, key)], level, key) ==
            if NodeFor(1, key) in tabs then Some(tabs[NodeFor(1, key)]) else None
    decreases level
  {
    var n := NodeFor(level, key);
    assert NodeOk(mem, tabs, n);
    if level > 1 {
      var c := NodeFor(level - 1, key);
      NodeForParent(level - 1, key);
      assert EntryOk(mem[tabs[n]][Slot(c)], tabs, Child(n, Slot(c)));
      if c in tabs {
        WalkTree(mem, root, tabs, level - 1, key);
      } else if NodeFor(1, key) in tabs {
        Ancestors(mem, root, tabs, 1, level - 1, key);
      }
    }
  }

  /** Every table on the path above a table is there too. */
  lemma {:induction false} Ancestors(mem: Memory, root: nat, tabs: map<Node, nat>, low: nat, high: nat, key: Key)
    requires Tree(mem, root, tabs) && 1 <= low <= high <= 4 && NodeFor(low, key) in tabs
    ensures NodeFor(high, key) in tabs
    decreases high - low
  {
    if low < high {
      assert NodeOk(mem, tabs, NodeFor(low, key));
      NodeForParent(low, key);
      Ancestors(mem, root, tabs, low + 1, high, key);
    }
  }

  lemma {:induction false} LeafInTree(mem: Memory, root: nat, tabs: map<Node, nat>, key: Key)
    requires Tree(mem, root, tabs)
    ensures Reaches(mem, root, key) <==> NodeFor(1, key) in tabs
    ensures NodeFor(1, key) in tabs ==> tabs[NodeFor(1, key)] in mem
    ensures Leaf(mem, root, key) ==
            if NodeFor(1, key) in tabs then mem[tabs[NodeFor(1, key)]][key % ENTRIES] else 0
  {
    assert NodeFor(4, key) == ROOT;
    WalkTree(mem, root, tabs, 4, key);
    if NodeFor(1, key) in tabs {
      assert NodeOk(mem, tabs, NodeFor(1, key));
    }
  }

  // ---------- what the hardware lets through ----------

  /** The entry of the table in a frame that a page number is translated through. */
  function EntryFor(mem: Memory, frame: nat, level: nat, key: Key): nat
    requires frame in mem && 1 <= level <= 4
  {
    mem[frame][if level == 1 then key % ENTRIES else Slot(NodeFor(level - 1, key))]
  }

  /** Bit n is set in every entry from a table down to the leaf. */
  ghost predicate SetAlong(mem: Memory, frame: nat, level: nat, key: Key, n: nat)
    requires 1 <= level <= 4
    decreases level
  {
    && frame in mem
    && Shr(EntryFor(mem, frame, level, key), n) % 2 == 1
    && (level > 1 ==> SetAlong(mem, Field(EntryFor(mem, frame, level, key)), level - 1, key, n))
  }

  /** Bit n is set in some of them. */
  ghost predicate SetSomewhere(mem: Memory, frame: nat, level: nat, key: Key, n: nat)
    requires 1 <= level <= 4
    decreases level
  {
    && frame in mem
    && (Shr(EntryFor(mem, frame, level, key), n) % 2 == 1
        || (level > 1 && SetSomewhere(mem, Field(EntryFor(mem, frame, level, key)), level - 1, key, n)))
  }

  /** The tables above a page that is reached never decide about it: only its leaf does. */
  lemma {:induction false} LeafDecides(mem: Memory, root: nat, tabs: map<Node, nat>, level: nat, key: Key, n: nat)
    requires Tree(mem, root, tabs) && 1 <= level <= 4
    requires NodeFor(level, key) in tabs && NodeFor(1, key) in tabs
    ensures tabs[NodeFor(1, key)] in mem
    ensures var f, e := tabs[NodeFor(level, key)], mem[tabs[NodeFor(1, key)]][key % ENTRIES];
            && (n <= 2 ==> (SetAlong(mem, f, level, key, n) <==> Shr(e, n) % 2 == 1))
            && (n == 63 ==> (SetSomewhere(mem, f, level, key, n) <==> Shr(e, n) % 2 == 1))
    decreases level
  {
    hide Shr, Field;
    var t := NodeFor(level, key);
    assert NodeOk(mem, tabs, t);
    if level > 1 {
      var c := NodeFor(level - 1, key);
      NodeForParent(level - 1, key);
      Ancestors(mem, root, tabs, 1, level - 1, key);
      assert EntryOk(mem[tabs[t]][Slot(c)], tabs, Child(t, Slot(c)));
      LeafDecides(mem, root, tabs, level - 1, key, n);
    }
  }

  /**
   A page that is reached is present, writable and open to user mode along the whole walk exactly if
   its leaf says so, and execute-disabled anywhere exactly if its leaf says so.
   */
  lemma {:induction false} AccessExact(mem: Memory, root: nat, tabs: map<Node, nat>, key: Key)
    requires Tree(mem, root, tabs) && Reaches(mem, root, key)
    ensures SetAlong(mem, root, 4, key, 0) <==> Shr(Leaf(mem, root, key), 0) % 2 == 1
    ensures SetAlong(mem, root, 4, key, 1) <==> Shr(Leaf(mem, root, key), 1) % 2 == 1
    ensures SetAlong(mem, root, 4, key, 2) <==> Shr(Leaf(mem, root, key), 2) % 2 == 1
    ensures SetSomewhere(mem, root, 4, key, 63) <==> Shr(Leaf(mem, root, key), 63) % 2 == 1
  {
    hide Shr, SetAlong, SetSomewhere, Walk;
    LeafInTree(mem, root, tabs, key);
    assert NodeFor(4, key) == ROOT;
    LeafDecides(mem, root, tabs, 4, key, 0);
    LeafDecides(mem, root, tabs, 4, key, 1);
    LeafDecides(mem, root, tabs, 4, key, 2);
    LeafDecides(mem, root, tabs, 4, key, 63);
  }

  // ---------- linking a new table and storing a leaf ----------

  /** A zeroed frame f becomes the table n, by an entry in n's parent. */
  function Link(mem: Memory, tabs: map<Node, nat>, n: Node, f: nat): Memory
    requires Parent(n) in tabs && tabs[Parent(n)] in mem
  {
    var p := tabs[Parent(n)];
    mem[f := Zeroed()][p := mem[p][Slot(n) := Or(f, LINK_FLAGS)]]
  }

  ghost predicate CanLink(mem: Memory, root: nat, tabs: map<Node, nat>, n: Node, f: nat) {
    && Tree(mem, root, tabs)
    && n !in tabs && 1 <= n.level <= 3 && Parent(n) in tabs && tabs[Parent(n)] in mem
    && f !in tabs.Values && f in mem && PageAddress(f, 52)
  }

  lemma NoOrphan(mem: Memory, root: nat, tabs: map<Node, nat>, n: Node, i: nat)
    requires Tree(mem, root, tabs) && n !in tabs && 1 < n.level <= 3 && i < ENTRIES
    ensures Child(n, i) !in tabs
  {
    var c := Child(n, i);
    assert Parent(c) == n && c.level < 4;
    assert c in tabs ==> NodeOk(mem, tabs, c);
  }

  lemma {:induction false} LinkOpens(f: nat)
    requires PageAddress(f, 52)
    ensures Open(Or(f, LINK_FLAGS))
  {
    hide Shr, Or;
    LinkBit(f, 0);
    LinkBit(f, 1);
    LinkBit(f, 2);
    LinkBit(f, 63);
    LinkFlagBits();
  }

  lemma {:induction false} LinkBit(f: nat, n: nat)
    requires PageAddress(f, 52) && (n <= 2 || n == 63)
    ensures Shr(Or(f, LINK_FLAGS), n) % 2 == Shr(LINK_FLAGS, n) % 2
  {
    AddressHasNoFlags(f, 52, n);
    BitOr(f, LINK_FLAGS, n);
  }

  lemma {:induction false} LinkFlagBits()
    ensures Shr(LINK_FLAGS, 0) % 2 == Shr(LINK_FLAGS, 1) % 2 == Shr(LINK_FLAGS, 2) % 2 == 1 && Shr(LINK_FLAGS, 63) == 0
  {
    assert Shr(LINK_FLAGS, 1) == 3 && Shr(LINK_FLAGS, 2) == 1;
    ShrAdd(LINK_FLAGS, 3, 60);
    assert Shr(1, 1) == 0 && Shr(3, 2) == 0 && Shr(LINK_FLAGS, 3) == 0;
    ShrZero(60);
  }

  lemma {:induction false} ShrZero(n: nat)
    ensures Shr(0, n) == 0
  {
    if n > 0 { ShrZero(n - 1); }
  }

  lemma LinkNode(mem: Memory, root: nat, tabs: map<Node, nat>, n: Node, f: nat, m: Node)
    requires CanLink(mem, root, tabs, n, f)
    requires m in tabs || m == n
    ensures NodeOk(Link(mem, tabs, n, f), tabs[n := f], m)
  {
    hide Open;
    var mem', tabs' := Link(mem, tabs, n, f), tabs[n := f];
    assert n in tabs';
    if m == n {
      forall i | 0 <= i < ENTRIES && n.level > 1 ensures EntryOk(mem'[f][i], tabs', Child(n, i)) {
        assert tabs[Parent(n)] in tabs.Values;
        NoOrphan(mem, root, tabs, n, i);
      }
    } else {
      assert NodeOk(mem, tabs, m) && tabs[m] in tabs.Values;
      forall i | 0 <= i < ENTRIES && m.level > 1 ensures EntryOk(mem'[tabs[m]][i], tabs', Child(m, i)) {
        assert EntryOk(mem[tabs[m]][i], tabs, Child(m, i));
        if Child(m, i) == n {
          assert m == Parent(n) && i == Slot(n);
          SmallFlags(LINK_FLAGS);
          EntryRoundTrip(f, LINK_FLAGS, 52);
          LinkOpens(f);
        } else {
          assert tabs[m] == tabs[Parent(n)] ==> m == Parent(n) && i != Slot(n);
        }
      }
    }
  }

  lemma {:induction false} LinkTree(mem: Memory, root: nat, tabs: map<Node, nat>, n: Node, f: nat)
    requires CanLink(mem, root, tabs, n, f)
    ensures Tree(Link(mem, tabs, n, f), root, tabs[n := f])
  {
    var tabs' := tabs[n := f];
    forall m | m in tabs' ensures NodeOk(Link(mem, tabs, n, f), tabs', m) {
      LinkNode(mem, root, tabs, n, f, m);
    }
    forall m, k | m in tabs' && k in tabs' && tabs'[m] == tabs'[k] ensures m == k {
      assert m in tabs ==> tabs[m] in tabs.Values;
      assert k in tabs ==> tabs[k] in tabs.Values;
    }
  }

  /** Linking a table changes no leaf: page numbers that gain a path had and have the value 0. */
  lemma {:induction false} LinkLeaf(mem: Memory, root: nat, tabs: map<Node, nat>, n: Node, f: nat, key: Key)
    requires CanLink(mem, root, tabs, n, f)
    ensures Leaf(Link(mem, tabs, n, f), root, key) == Leaf(mem, root, key)
  {
    var c := NodeFor(1, key);
    LinkTree(mem, root, tabs, n, f);
    LeafInTree(mem, root, tabs, key);
    LeafInTree(Link(mem, tabs, n, f), root, tabs[n := f], key);
    if c == n {
      assert tabs[Parent(n)] in tabs.Values;
    } else if c in tabs {
      assert tabs[c] in tabs.Values;
      assert tabs[c] != tabs[Parent(n)];
    }
  }

  function Store(mem: Memory, pt: nat, i: nat, w: nat): Memory
    requires pt in mem && i < ENTRIES
  {
    mem[pt := mem[pt][i := w]]
  }

  /** Leaf entries are not part of the tree's structure: storing one keeps it a tree. */
  lemma StoreTree(mem: Memory, root: nat, tabs: map<Node, nat>, n: Node, i: nat, w: nat)
    requires Tree(mem, root, tabs) && n in tabs && n.level == 1 && tabs[n] in mem && i < ENTRIES
    ensures Tree(Store(mem, tabs[n], i, w), root, tabs)
  {
    var mem' := Store(mem, tabs[n], i, w);
    forall m | m in tabs ensures NodeOk(mem', tabs, m) {
      assert NodeOk(mem, tabs, m);
      assert m.level > 1 ==> mem'[tabs[m]] == mem[tabs[m]];
    }
  }

  /** Storing key's leaf entry changes the flat map at key and nowhere else. */
  lemma {:induction false} StoreLeaf(mem: Memory, root: nat, tabs: map<Node, nat>, key: Key, w: nat, k: Key)
    requires Tree(mem, root, tabs) && NodeFor(1, key) in tabs && tabs[NodeFor(1, key)] in mem
    ensures Leaf(Store(mem, tabs[NodeFor(1, key)], key % ENTRIES, w), root, k) ==
            if k == key then w else Leaf(mem, root, k)
    ensures Reaches(Store(mem, tabs[NodeFor(1, key)], key % ENTRIES, w), root, k) <==> Reaches(mem, root, k)
  {
    StoreTree(mem, root, tabs, NodeFor(1, key), key % ENTRIES, w);
    LeafInTree(mem, root, tabs, k);
    LeafInTree(Store(mem, tabs[NodeFor(1, key)], key % ENTRIES, w), root, tabs, k);
    assert k / ENTRIES == key / ENTRIES && k % ENTRIES == key % ENTRIES ==> k == key;
  }

  /** The tables do not depend on the contents of any other frame. */
  lemma OtherFrame(mem: Memory, root: nat, tabs: map<Node, nat>, f: nat, data: Table)
    requires Tree(mem, root, tabs) && f in mem && f !in tabs.Values
    ensures Tree(mem[f := data], root, tabs)
    ensures forall k: Key :: Leaf(mem[f := data], root, k) == Leaf(mem, root, k)
  {
    var mem' := mem[f := data];
    forall n | n in tabs ensures NodeOk(mem', tabs, n) && mem'[tabs[n]] == mem[tabs[n]] {
      assert NodeOk(mem, tabs, n) && tabs[n] in tabs.Values;
    }
    forall k: Key ensures Leaf(mem', root, k) == Leaf(mem, root, k) {
      LeafInTree(mem, root, tabs, k);
      LeafInTree(mem', root, tabs, k);
    }
  }
}
