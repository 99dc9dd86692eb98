/**
 The mappings vmm_init makes, as a list, and what they translate to once all are made.
 */
module VmmInit {
  import opened Words
  import opened MemoryMap
  import opened PageTree
  import opened Paging
  import opened PagingRuns

  const TWO_TO_64 := 0x1_0000_0000_0000_0000

  const PRESENT := 1
  const READ_WRITE := 2
  const WRITE_THROUGH := 8
  const EXECUTE_DISABLE := 0x8000_0000_0000_0000

  const TEXT_FLAGS := PRESENT
  const RODATA_FLAGS := EXECUTE_DISABLE + PRESENT
  const DATA_FLAGS := EXECUTE_DISABLE + (PRESENT + READ_WRITE)
  const RAM_FLAGS := PRESENT + READ_WRITE
  const FRAMEBUFFER_FLAGS := EXECUTE_DISABLE + (PRESENT + READ_WRITE + WRITE_THROUGH)

  /** One call of vmm_map. */
  datatype Write = Write(virt: nat, phys: nat, flags: nat)

  /** The sections of the kernel image, already rounded to pages, and where the loader put it. */
  datatype Image = Image(textStart: nat, textEnd: nat, rodataStart: nat, rodataEnd: nat, dataStart: nat, dataEnd: nat,
                         kernelVirt: nat, kernelPhys: nat)

  /** How many pages a loop over [0, n) in page steps visits. */
  function PagesUpTo(n: nat): nat {
    AlignUp(n) / PAGE_SIZE
  }

  function DirectWrite(phys: nat, hhdm: nat, flags: nat): Write {
    Write(phys + hhdm, phys, flags)
  }

  /** The mapping made for a memory-map entry at an offset. */
  function EntryWrite(e: Entry, hhdm: nat, off: nat): Write {
    match e.kind
    case Framebuffer => DirectWrite(AlignUp(e.base + off), hhdm, FRAMEBUFFER_FLAGS)
    case _ => DirectWrite(e.base + off, hhdm, RAM_FLAGS)
  }

  /**
   How many mappings are made for an entry. For framebuffer and reclaimable entries the loop runs
   the offset up to the entry's end address, not up to its length.
   */
  function EntryCount(e: Entry): nat {
    match e.kind
    case Usable => PagesUpTo(e.length)
    case Framebuffer => PagesUpTo(e.base + e.length)
    case BootloaderReclaimable => PagesUpTo(e.base + e.length)
    case Other => 0
  }

  function EntryWrites(e: Entry, hhdm: nat): seq<Write> {
    seq(EntryCount(e), i requires 0 <= i => EntryWrite(e, hhdm, i * PAGE_SIZE))
  }

  function MapWrites(m: seq<Entry>, hhdm: nat): seq<Write> {
    if m == [] then [] else MapWrites(m[..|m|-1], hhdm) + EntryWrites(m[|m|-1], hhdm)
  }

  /** Where an image address lies in physical memory, in 64-bit arithmetic. */
  function ImagePhys(im: Image, virt: nat): nat {
    (virt - im.kernelVirt + im.kernelPhys) % TWO_TO_64
  }

  function ImageWrite(im: Image, virt: nat, flags: nat): Write {
    Write(virt, ImagePhys(im, virt), flags)
  }

  function SegmentWrites(im: Image, start: nat, end: nat, flags: nat): seq<Write> {
    seq(if start < end then PagesUpTo(end - start) else 0,
        i requires 0 <= i => ImageWrite(im, start + i * PAGE_SIZE, flags))
  }

  function ImageWrites(im: Image): seq<Write> {
    SegmentWrites(im, im.textStart, im.textEnd, TEXT_FLAGS)
    + SegmentWrites(im, im.rodataStart, im.rodataEnd, RODATA_FLAGS)
    + SegmentWrites(im, im.dataStart, im.dataEnd, DATA_FLAGS)
  }

  function InitWrites(m: seq<Entry>, hhdm: nat, im: Image): seq<Write> {
    MapWrites(m, hhdm) + ImageWrites(im)
  }

  lemma {:induction false} EntryFlags(e: Entry, hhdm: nat, w: Write)
    requires w in EntryWrites(e, hhdm)
    ensures Present(w.flags)
  {
    hide PagesUpTo, AlignUp;
    var ws := EntryWrites(e, hhdm);
    var i :| 0 <= i < |ws| && ws[i] == w;
  }

  /** All mappings of the list set the present bit. */
  lemma {:induction false} MapFlags(m: seq<Entry>, hhdm: nat, w: Write)
    requires w in MapWrites(m, hhdm)
    ensures Present(w.flags)
  {
    hide EntryWrites, Present;
    var front, last := MapWrites(m[..|m|-1], hhdm), EntryWrites(m[|m|-1], hhdm);
    if w in last {
      EntryFlags(m[|m|-1], hhdm, w);
    } else {
      assert w in front;
      MapFlags(m[..|m|-1], hhdm, w);
    }
  }

  lemma {:induction false} ImageFlags(im: Image, w: Write)
    requires w in ImageWrites(im)
    ensures Present(w.flags)
  {
    var a := SegmentWrites(im, im.textStart, im.textEnd, TEXT_FLAGS);
    var b := SegmentWrites(im, im.rodataStart, im.rodataEnd, RODATA_FLAGS);
    var c := SegmentWrites(im, im.dataStart, im.dataEnd, DATA_FLAGS);
    assert w in a || w in b || w in c;
  }

  // ---------- making a list of mappings ----------

  function MapOne(s: Sys, w: Write): (r: Sys)
    requires Inv(s)
    ensures Inv(r)
  {
    MapInv(s, w.virt, w.phys, w.flags);
    Map(s, w.virt, w.phys, w.flags)
  }

  function MapAll(s: Sys, ws: seq<Write>): (r: Sys)
    requires Inv(s)
    ensures Inv(r)
  {
    if ws == [] then s else MapOne(MapAll(s, ws[..|ws|-1]), ws[|ws|-1])
  }

  lemma MapAllAppend(s: Sys, ws: seq<Write>, w: Write)
    requires Inv(s)
    ensures MapAll(s, ws + [w]) == MapOne(MapAll(s, ws), w)
  {
    assert (ws + [w])[..|ws|] == ws;
  }

  function KeysOf(ws: seq<Write>): set<Key> {
    set w | w in ws :: PageOf(w.virt)
  }

  /** Enough free frames for every table the list needs. */
  ghost predicate Enough(s: Sys, ws: seq<Write>) {
    s.tabs.Keys == {ROOT} && TableCount(KeysOf(ws)) <= 1 + |s.pm.stack|
  }

  /** The tables stay within what a set of pages needs, and no frame disappears. */
  ghost predicate WithinBudget(s: Sys, keys: set<Key>, frames: nat) {
    s.tabs.Keys <= Needed(keys) && |s.tabs| + |s.pm.stack| == frames && |Needed(keys)| <= frames
  }

  lemma {:induction false} MapOneBudget(s: Sys, w: Write, keys: set<Key>, frames: nat)
    requires Inv(s) && WithinBudget(s, keys, frames) && PageOf(w.virt) in keys
    ensures MapOk(s, w.virt) && WithinBudget(MapOne(s, w), keys, frames)
  {
    EnoughFrames(s, keys, w.virt);
    MapRefines(s, w.virt, w.phys, w.flags);
    MapKeepsFrames(s, w.virt, w.phys, w.flags);
  }

  lemma {:induction false} MapAllBudget(s: Sys, ws: seq<Write>, keys: set<Key>, frames: nat)
    requires Inv(s) && WithinBudget(s, keys, frames) && KeysOf(ws) <= keys
    ensures WithinBudget(MapAll(s, ws), keys, frames)
  {
    if ws != [] {
      var front, w := ws[..|ws|-1], ws[|ws|-1];
      assert KeysOf(front) <= KeysOf(ws) && PageOf(w.virt) in KeysOf(ws);
      MapAllBudget(s, front, keys, frames);
      MapOneBudget(MapAll(s, front), w, keys, frames);
    }
  }

  /** The leaf of a page some mapping of the list names comes from one of these mappings. */
  ghost predicate FromList(leaf: nat, ws: seq<Write>, k: Key) {
    exists w :: w in ws && PageOf(w.virt) == k && leaf == Or(w.phys, w.flags)
  }

  lemma {:induction false} MapAllLeaf(s: Sys, ws: seq<Write>, keys: set<Key>, frames: nat, k: Key)
    requires Inv(s) && WithinBudget(s, keys, frames) && KeysOf(ws) <= keys && k in KeysOf(ws)
    ensures var s' := MapAll(s, ws);
            Reaches(s'.mem, s'.root, k) && FromList(Leaf(s'.mem, s'.root, k), ws, k)
  {
    hide Map, Needed;
    var front, w := ws[..|ws|-1], ws[|ws|-1];
    assert ws == front + [w];
    assert KeysOf(front) <= KeysOf(ws) && PageOf(w.virt) in KeysOf(ws);
    MapAllBudget(s, front, keys, frames);
    var s1 := MapAll(s, front);
    MapOneBudget(s1, w, keys, frames);
    MapRefines(s1, w.virt, w.phys, w.flags);
    if k != PageOf(w.virt) {
      assert k in KeysOf(front);
      MapAllLeaf(s, front, keys, frames, k);
      var v :| v in front && PageOf(v.virt) == k && Leaf(s1.mem, s1.root, k) == Or(v.phys, v.flags);
      assert v in ws;
    }
  }

  /** With enough frames, making the list succeeds throughout. */
  lemma {:induction false} ListLeaf(s: Sys, ws: seq<Write>, w: Write)
    requires Inv(s) && Enough(s, ws) && w in ws
    ensures var s', k := MapAll(s, ws), PageOf(w.virt);
            Reaches(s'.mem, s'.root, k) && FromList(Leaf(s'.mem, s'.root, k), ws, k)
  {
    var keys := KeysOf(ws);
    NeededCount(keys);
    assert |s.tabs| == |s.tabs.Keys| == 1;
    assert PageOf(w.virt) in keys;
    MapAllLeaf(s, ws, keys, 1 + |s.pm.stack|, PageOf(w.virt));
  }

  /** A page the list does not name keeps its entry, whether or not the frames suffice. */
  lemma {:induction false} MapAllOther(s: Sys, ws: seq<Write>, k: Key)
    requires Inv(s) && k !in KeysOf(ws)
    ensures Leaf(MapAll(s, ws).mem, MapAll(s, ws).root, k) == Leaf(s.mem, s.root, k)
  {
    hide Tree, Map;
    if ws != [] {
      var front, w := ws[..|ws|-1], ws[|ws|-1];
      assert w in ws && PageOf(w.virt) in KeysOf(ws);
      assert KeysOf(front) <= KeysOf(ws);
      MapAllOther(s, front, k);
      MapRefines(MapAll(s, front), w.virt, w.phys, w.flags);
    }
  }

  // ---------- what vmm_init's list translates to ----------

  /** A mapping of the direct map: physical memory at the fixed offset. */
  ghost predicate Linear(w: Write, hhdm: nat, width: nat) {
    && w.virt == w.phys + hhdm
    && PageAddress(w.phys, width) && w.phys < PAGE_SIZE * KEYS
    && Field(w.flags) == 0
  }

  ghost predicate InSegment(v: nat, start: nat, end: nat) {
    start <= v < end && v % PAGE_SIZE == 0
  }

  ghost predicate InImage(im: Image, v: nat) {
    || InSegment(v, im.textStart, im.textEnd)
    || InSegment(v, im.rodataStart, im.rodataEnd)
    || InSegment(v, im.dataStart, im.dataEnd)
  }

  lemma PageBelow(v: nat, end: nat)
    requires v % PAGE_SIZE == 0 && v <= end
    ensures v <= end / PAGE_SIZE * PAGE_SIZE
  {
  }

  /** The physical address of the page at which the image ends. */
  function ImageTop(im: Image): nat
    requires im.kernelVirt % PAGE_SIZE == 0 && im.kernelVirt <= im.dataEnd
  {
    PageBelow(im.kernelVirt, im.dataEnd);
    im.dataEnd / PAGE_SIZE * PAGE_SIZE - im.kernelVirt + im.kernelPhys
  }

  /**
   The memory layout the boot protocol and the linker script provide: physical addresses fit the
   address width, sections are in order, do not share pages, and lie clear of the direct map.
   */
  ghost predicate Layout(m: seq<Entry>, hhdm: nat, im: Image, width: nat) {
    && width <= 52 && hhdm % PAGE_SIZE == 0
    && (forall w :: w in MapWrites(m, hhdm) ==> Linear(w, hhdm, width))
    && im.textStart % PAGE_SIZE == im.rodataStart % PAGE_SIZE == im.dataStart % PAGE_SIZE == 0
    && im.kernelVirt % PAGE_SIZE == im.kernelPhys % PAGE_SIZE == 0
    && im.kernelVirt <= im.textStart <= im.textEnd <= im.rodataStart <= im.rodataEnd <= im.dataStart <= im.dataEnd
    && im.dataEnd < im.kernelVirt + PAGE_SIZE * KEYS
    && PageAddress(ImageTop(im), width)
    && (forall w, v :: w in MapWrites(m, hhdm) && InImage(im, v) ==> PageOf(w.virt) != PageOf(v))
  }

  const TOP := 0xffff_ffff_8000_0000
  const SMALL_MAP := [Entry(0x10_0000, 0x2000, Usable)]
  const SMALL_IMAGE := Image(TOP, TOP + 0x1000, TOP + 0x1000, TOP + 0x2000, TOP + 0x2000, TOP + 0x3000, TOP, 0x20_0000)

  lemma {:induction false} SmallMapWrites(w: Write, hhdm: nat)
    requires hhdm == 0xffff_8000_0000_0000 && w in MapWrites(SMALL_MAP, hhdm)
    ensures Linear(w, hhdm, 52) && PageOf(w.virt) <= 0x8_0000_0101
  {
    var ws := EntryWrites(SMALL_MAP[0], hhdm);
    assert SMALL_MAP[..0] == [] && MapWrites([], hhdm) == [] && [] + ws == ws;
    var i :| 0 <= i < |ws| && ws[i] == w;
    assert w == DirectWrite(0x10_0000 + i * PAGE_SIZE, hhdm, RAM_FLAGS) && i < 2;
    SmallWrite(i, w);
  }

  lemma {:induction false} SmallWrite(i: nat, w: Write)
    requires i < 2 && w == DirectWrite(0x10_0000 + i * PAGE_SIZE, 0xffff_8000_0000_0000, RAM_FLAGS)
    ensures Linear(w, 0xffff_8000_0000_0000, 52) && PageOf(w.virt) <= 0x8_0000_0101
  {
    SmallFlags(RAM_FLAGS);
    SmallAddress(w.phys);
    SmallPage(w.virt);
  }

  lemma {:induction false} SmallAddress(p: nat)
    requires p == 0x10_0000 || p == 0x10_1000
    ensures PageAddress(p, 52)
  {
    Pow2Values();
  }

  lemma {:induction false} SmallPage(v: nat)
    requires v == 0xffff_8000_0010_0000 || v == 0xffff_8000_0010_1000
    ensures PageOf(v) <= 0x8_0000_0101
  {
  }

  lemma {:induction false} SmallImagePages(v: nat)
    requires InImage(SMALL_IMAGE, v)
    ensures PageOf(v) > 0x8_0000_0101
  {
    assert TOP <= v < TOP + 0x3000;
  }

  /** Such layouts exist: two usable pages, and an image of one page a section at the top of the address space. */
  lemma {:induction false} LayoutExists()
    ensures Layout(SMALL_MAP, 0xffff_8000_0000_0000, SMALL_IMAGE, 52) && InImage(SMALL_IMAGE, TOP)
  {
    forall w | w in MapWrites(SMALL_MAP, 0xffff_8000_0000_0000)
      ensures Linear(w, 0xffff_8000_0000_0000, 52) && PageOf(w.virt) <= 0x8_0000_0101
    {
      SmallMapWrites(w, 0xffff_8000_0000_0000);
    }
    forall v: nat | InImage(SMALL_IMAGE, v) ensures PageOf(v) > 0x8_0000_0101 {
      SmallImagePages(v);
    }
    Pow2Values();
  }

  lemma SegmentMember(im: Image, start: nat, end: nat, flags: nat, w: Write)
    requires start % PAGE_SIZE == 0
    ensures w in SegmentWrites(im, start, end, flags) <==>
            InSegment(w.virt, start, end) && w == ImageWrite(im, w.virt, flags)
  {
    var ws := SegmentWrites(im, start, end, flags);
    if InSegment(w.virt, start, end) && w == ImageWrite(im, w.virt, flags) {
      var i := (w.virt - start) / PAGE_SIZE;
      assert ws[i] == w;
    }
  }

  /** The flags of an image page are those of the section it lies in. */
  function SectionFlags(im: Image, v: nat): nat {
    if v < im.textEnd then TEXT_FLAGS
    else if v < im.rodataEnd then RODATA_FLAGS
    else DATA_FLAGS
  }

  lemma {:induction false} ImageMember(m: seq<Entry>, hhdm: nat, im: Image, width: nat, w: Write)
    requires Layout(m, hhdm, im, width)
    ensures w in ImageWrites(im) <==> InImage(im, w.virt) && w == ImageWrite(im, w.virt, SectionFlags(im, w.virt))
  {
    SegmentMember(im, im.textStart, im.textEnd, TEXT_FLAGS, w);
    SegmentMember(im, im.rodataStart, im.rodataEnd, RODATA_FLAGS, w);
    SegmentMember(im, im.dataStart, im.dataEnd, DATA_FLAGS, w);
  }

  lemma SameImagePage(im: Image, v: nat, w: nat)
    requires v % PAGE_SIZE == 0 && w % PAGE_SIZE == 0 && PageOf(v) == PageOf(w)
    requires im.kernelVirt <= v < im.kernelVirt + PAGE_SIZE * KEYS
    requires im.kernelVirt <= w < im.kernelVirt + PAGE_SIZE * KEYS
    requires im.kernelVirt % PAGE_SIZE == 0
    ensures v == w
  {
    SameResidue(v / PAGE_SIZE, w / PAGE_SIZE, im.kernelVirt / PAGE_SIZE);
  }

  lemma SameResidue(a: nat, b: nat, base: nat)
    requires a % KEYS == b % KEYS && base <= a < base + KEYS && base <= b < base + KEYS
    ensures a == b
  {
  }

  lemma LinearSame(u: Write, w: Write, hhdm: nat, width: nat)
    requires Linear(u, hhdm, width) && Linear(w, hhdm, width) && hhdm % PAGE_SIZE == 0
    requires PageOf(u.virt) == PageOf(w.virt)
    ensures u.phys == w.phys
  {
    SameResidue(u.virt / PAGE_SIZE, w.virt / PAGE_SIZE, hhdm / PAGE_SIZE);
  }

  /** Whatever mapping of the list a direct-map page's entry comes from, it holds the linear address. */
  lemma {:induction false} DirectEntry(m: seq<Entry>, hhdm: nat, im: Image, width: nat, w: Write, leaf: nat)
    requires Layout(m, hhdm, im, width) && w in MapWrites(m, hhdm)
    requires FromList(leaf, InitWrites(m, hhdm, im), PageOf(w.virt))
    ensures AddressBits(leaf, width) == w.phys
  {
    var u :| u in InitWrites(m, hhdm, im) && PageOf(u.virt) == PageOf(w.virt) && leaf == Or(u.phys, u.flags);
    ImageMember(m, hhdm, im, width, u);
    assert u in MapWrites(m, hhdm);
    LinearSame(u, w, hhdm, width);
    EntryRoundTrip(u.phys, u.flags, width);
  }

  /**
   Every page mapped through the direct map translates linearly, whatever other entry, of whatever
   kind and with whatever over-long loop, maps it as well. For usable entries this covers every
   page of the entry.
   */
  lemma {:induction false} DirectMapLinear(s: Sys, m: seq<Entry>, hhdm: nat, im: Image, width: nat, w: Write, v: nat)
    requires Inv(s) && Layout(m, hhdm, im, width) && Enough(s, InitWrites(m, hhdm, im))
    requires w in MapWrites(m, hhdm) && w.virt <= v < w.virt + PAGE_SIZE
    ensures Translate(MapAll(s, InitWrites(m, hhdm, im)), v, width) + hhdm == v
  {
    DirectAddress(w, hhdm, width, v);
    ListLeaf(s, InitWrites(m, hhdm, im), w);
    DirectTranslate(MapAll(s, InitWrites(m, hhdm, im)), m, hhdm, im, width, w, v);
  }

  lemma {:induction false} DirectTranslate(s': Sys, m: seq<Entry>, hhdm: nat, im: Image, width: nat, w: Write, v: nat)
    requires Layout(m, hhdm, im, width) && w in MapWrites(m, hhdm)
    requires Reaches(s'.mem, s'.root, PageOf(w.virt))
    requires FromList(Leaf(s'.mem, s'.root, PageOf(w.virt)), InitWrites(m, hhdm, im), PageOf(w.virt))
    requires PageOf(v) == PageOf(w.virt) && v == w.phys + hhdm + v % PAGE_SIZE
    ensures Translate(s', v, width) + hhdm == v
  {
    DirectEntry(m, hhdm, im, width, w, Leaf(s'.mem, s'.root, PageOf(w.virt)));
  }

  lemma DirectAddress(w: Write, hhdm: nat, width: nat, v: nat)
    requires Linear(w, hhdm, width) && hhdm % PAGE_SIZE == 0 && w.virt <= v < w.virt + PAGE_SIZE
    ensures PageOf(v) == PageOf(w.virt) && v == w.phys + hhdm + v % PAGE_SIZE
  {
    assert w.virt % PAGE_SIZE == 0;
    assert v / PAGE_SIZE == w.virt / PAGE_SIZE;
  }

  /** Every page of a usable entry is mapped through the direct map. */
  lemma {:induction false} UsableIsMapped(m: seq<Entry>, hhdm: nat, i: nat, p: nat)
    requires i < |m| && Within(p, m[i]) && m[i].base % PAGE_SIZE == 0
    ensures DirectWrite(p, hhdm, RAM_FLAGS) in MapWrites(m, hhdm)
  {
    if i == |m| - 1 {
      assert EntryWrites(m[i], hhdm)[(p - m[i].base) / PAGE_SIZE] == DirectWrite(p, hhdm, RAM_FLAGS);
    } else {
      UsableIsMapped(m[..|m|-1], hhdm, i, p);
    }
  }

  /** Usable memory after vmm_init: page p is found at p + hhdm, for every usable page p. */
  lemma {:induction false} UsableTranslates(s: Sys, m: seq<Entry>, hhdm: nat, im: Image, width: nat, i: nat, p: nat)
    requires Inv(s) && Layout(m, hhdm, im, width) && Enough(s, InitWrites(m, hhdm, im))
    requires i < |m| && Within(p, m[i]) && m[i].base % PAGE_SIZE == 0
    ensures Translate(MapAll(s, InitWrites(m, hhdm, im)), p + hhdm, width) == p
  {
    hide Translate, Tree, MapWrites, Layout, Enough, InitWrites;
    var w := DirectWrite(p, hhdm, RAM_FLAGS);
    UsableIsMapped(m, hhdm, i, p);
    var v := p + hhdm;
    var t := Translate(MapAll(s, InitWrites(m, hhdm, im)), v, width);
    assert t + hhdm == v by { DirectMapLinear(s, m, hhdm, im, width, w, v); }
    assert t == p;
  }

  /**
   Nothing else is mapped: from tables without entries, vmm_init's list leaves a present entry exactly
   for the pages it names, and 0 for every other page.
   */
  lemma {:induction false} MappedExactly(s: Sys, m: seq<Entry>, hhdm: nat, im: Image, k: Key)
    requires Inv(s) && Enough(s, InitWrites(m, hhdm, im)) && Leaf(s.mem, s.root, k) == 0
    ensures var s', ws := MapAll(s, InitWrites(m, hhdm, im)), InitWrites(m, hhdm, im);
            && (Present(Leaf(s'.mem, s'.root, k)) <==> k in KeysOf(ws))
            && (k !in KeysOf(ws) ==> Leaf(s'.mem, s'.root, k) == 0)
  {
    hide Tree, Leaf, Walk, Enough, MapWrites, ImageWrites, MapAll;
    var s', ws := MapAll(s, InitWrites(m, hhdm, im)), InitWrites(m, hhdm, im);
    if k in KeysOf(ws) {
      var w :| w in ws && PageOf(w.virt) == k;
      ListLeaf(s, ws, w);
      var u :| u in ws && PageOf(u.virt) == k && Leaf(s'.mem, s'.root, k) == Or(u.phys, u.flags);
      if u in MapWrites(m, hhdm) { MapFlags(m, hhdm, u); } else { ImageFlags(im, u); }
      OrHalf(u.phys, u.flags);
    } else {
      MapAllOther(s, ws, k);
    }
  }

  lemma ImagePhysInRange(m: seq<Entry>, hhdm: nat, im: Image, width: nat, v: nat)
    requires Layout(m, hhdm, im, width) && InImage(im, v)
    ensures ImagePhys(im, v) == v - im.kernelVirt + im.kernelPhys
    ensures PageAddress(ImagePhys(im, v), width)
  {
    var p := v - im.kernelVirt + im.kernelPhys;
    var top := ImageTop(im);
    assert v % PAGE_SIZE == 0 && im.kernelVirt <= v < im.dataEnd;
    PageBelow(v, im.dataEnd);
    Multiples(v, im.kernelVirt, im.kernelPhys);
    SmallerAddress(p, top, width);
  }

  lemma Multiples(a: nat, b: nat, c: nat)
    requires a % PAGE_SIZE == 0 && b % PAGE_SIZE == 0 && c % PAGE_SIZE == 0 && b <= a
    ensures (a - b + c) % PAGE_SIZE == 0
  {
  }

  lemma SmallerAddress(p: nat, top: nat, width: nat)
    requires width <= 52 && PageAddress(top, width) && p % PAGE_SIZE == 0 && p <= top
    ensures PageAddress(p, width) && p % TWO_TO_64 == p
  {
    WiderAddress(top, width);
    Pow2Values();
    assert top < 0x10_0000_0000_0000;
  }

  /** Only one mapping of the list names an image page. */
  lemma {:induction false} ImageEntry(m: seq<Entry>, hhdm: nat, im: Image, width: nat, v: nat, leaf: nat)
    requires Layout(m, hhdm, im, width) && InImage(im, v)
    requires FromList(leaf, InitWrites(m, hhdm, im), PageOf(v))
    ensures leaf == Or(ImagePhys(im, v), SectionFlags(im, v))
    ensures AddressBits(leaf, width) == v - im.kernelVirt + im.kernelPhys
  {
    var u :| u in InitWrites(m, hhdm, im) && PageOf(u.virt) == PageOf(v) && leaf == Or(u.phys, u.flags);
    assert u in ImageWrites(im);
    assert InImage(im, u.virt) && u == ImageWrite(im, u.virt, SectionFlags(im, u.virt)) by {
      ImageMember(m, hhdm, im, width, u);
    }
    assert u.virt == v by { SameImagePage(im, u.virt, v); }
    ImagePhysInRange(m, hhdm, im, width, v);
    SectionFlagsOk(im, v);
    EntryRoundTrip(u.phys, u.flags, width);
  }

  lemma ImageIsMapped(m: seq<Entry>, hhdm: nat, im: Image, width: nat, v: nat)
    requires Layout(m, hhdm, im, width) && InImage(im, v)
    ensures ImageWrite(im, v, SectionFlags(im, v)) in InitWrites(m, hhdm, im)
  {
    ImageMember(m, hhdm, im, width, ImageWrite(im, v, SectionFlags(im, v)));
  }

  /**
   Every page of the kernel image translates to where the loader put it, with exactly the
   permissions of its section.
   */
  lemma {:induction false} ImageTranslates(s: Sys, m: seq<Entry>, hhdm: nat, im: Image, width: nat, v: nat)
    requires Inv(s) && Layout(m, hhdm, im, width) && Enough(s, InitWrites(m, hhdm, im))
    requires InImage(im, v)
    ensures var s' := MapAll(s, InitWrites(m, hhdm, im));
            && Translate(s', v, width) == v - im.kernelVirt + im.kernelPhys
            && Leaf(s'.mem, s'.root, PageOf(v)) == Or(ImagePhys(im, v), SectionFlags(im, v))
  {
    var s', w := MapAll(s, InitWrites(m, hhdm, im)), ImageWrite(im, v, SectionFlags(im, v));
    ImageIsMapped(m, hhdm, im, width, v);
    ListLeaf(s, InitWrites(m, hhdm, im), w);
    ImageEntry(m, hhdm, im, width, v, Leaf(s'.mem, s'.root, PageOf(v)));
    assert v % PAGE_SIZE == 0;
  }

  lemma SectionFlagsOk(im: Image, v: nat)
    ensures Field(SectionFlags(im, v)) == 0
  {
    SmallFlags(TEXT_FLAGS);
    HighFlag(PRESENT);
    HighFlag(PRESENT + READ_WRITE);
  }

  /** No page of the image is both writable and executable. */
  lemma {:induction false} NoWritableExecutable(s: Sys, m: seq<Entry>, hhdm: nat, im: Image, width: nat, v: nat)
    requires Inv(s) && Layout(m, hhdm, im, width) && Enough(s, InitWrites(m, hhdm, im))
    requires InImage(im, v)
    ensures var s' := MapAll(s, InitWrites(m, hhdm, im));
            var leaf := Leaf(s'.mem, s'.root, PageOf(v));
            && (Writable(leaf) <==> im.rodataEnd <= v)
            && (NoExecute(leaf) <==> im.textEnd <= v)
            && !(Writable(leaf) && !NoExecute(leaf))
            && KernelBits(leaf)
  {
    ImageTranslates(s, m, hhdm, im, width, v);
    ImagePhysInRange(m, hhdm, im, width, v);
    ImagePermissions(im, width, v);
  }

  /** An entry of the kernel image: present, cached, closed to user mode. */
  ghost predicate KernelBits(entry: nat) {
    Shr(entry, 0) % 2 == 1 && Shr(entry, 2) % 2 == 0 && Shr(entry, 3) % 2 == 0
  }

  lemma {:induction false} ImagePermissions(im: Image, width: nat, v: nat)
    requires width <= 52 && PageAddress(ImagePhys(im, v), width)
    requires im.textEnd <= im.rodataEnd
    ensures var entry := Or(ImagePhys(im, v), SectionFlags(im, v));
            && (Writable(entry) <==> im.rodataEnd <= v)
            && (NoExecute(entry) <==> im.textEnd <= v)
            && KernelBits(entry)
  {
    hide Shr, Or, PageAddress;
    var phys, flags := ImagePhys(im, v), SectionFlags(im, v);
    WiderAddress(phys, width);
    FlagBit(phys, flags, 0);
    FlagBit(phys, flags, 1);
    FlagBit(phys, flags, 2);
    FlagBit(phys, flags, 3);
    FlagBit(phys, flags, 63);
    FlagBits();
  }

  lemma {:induction false} ShrOfPow2(m: nat, low: nat, n: nat)
    requires n <= m && low < Pow2(n)
    ensures Shr(Pow2(m) + low, n) == Pow2(m - n)
  {
    if n > 0 { ShrOfPow2(m - 1, low / 2, n - 1); }
  }

  lemma {:induction false} TopBit()
    ensures Pow2(63) == EXECUTE_DISABLE
  {
    Pow2Values();
    assert Pow2(55) == 0x80_0000_0000_0000;
  }

  lemma {:induction false} SmallLow(low: nat)
    requires low < 16
    ensures low < Pow2(63) && Pow2(0) == 1
  {
    TopBit();
  }

  lemma {:induction false} HighFlagBits(low: nat)
    requires low < 16
    ensures Shr(EXECUTE_DISABLE + low, 63) == 1 && Shr(EXECUTE_DISABLE + low, 0) == EXECUTE_DISABLE + low
    ensures Shr(EXECUTE_DISABLE + low, 1) == 0x4000_0000_0000_0000 + low / 2
    ensures Shr(EXECUTE_DISABLE + low, 2) == 0x2000_0000_0000_0000 + low / 4
    ensures Shr(EXECUTE_DISABLE + low, 3) == 0x1000_0000_0000_0000 + low / 8
  {
    hide Shr, Pow2;
    TopBit();
    SmallLow(low);
    ShrOfPow2(63, low, 63);
    ShrFew(EXECUTE_DISABLE + low);
  }

  // ---------- what the loops over the memory map touch, and with which bits ----------

  /**
   The i-th page the loop for an entry touches. Only the loop over a usable entry stops at its length; the
   others run on by its base address. A framebuffer's pages are rounded up to page boundaries.
   */
  ghost predicate Touches(e: Entry, i: nat, phys: nat) {
    match e.kind
    case Usable => phys == e.base + i * 4096 && i * 4096 < e.length
    case Framebuffer => phys == (e.base + i * 4096 + 4095) / 4096 * 4096 && i * 4096 < e.base + e.length
    case BootloaderReclaimable => phys == e.base + i * 4096 && i * 4096 < e.base + e.length
    case Other => false
  }

  lemma {:induction false} LoopLength(n: nat, i: nat)
    ensures i < PagesUpTo(n) <==> i * 4096 < n
    ensures AlignUp(n) == (n + 4095) / 4096 * 4096
  {
  }

  /** The mappings made for an entry are those of the pages its loop touches, at the offset. */
  lemma {:induction false} EntryExact(e: Entry, hhdm: nat, w: Write)
    ensures w in EntryWrites(e, hhdm) ==> w.virt == w.phys + hhdm && exists i: nat :: Touches(e, i, w.phys)
    ensures forall i: nat :: Touches(e, i, w.phys) ==>
              Write(w.phys + hhdm, w.phys, if e.kind == Framebuffer then FRAMEBUFFER_FLAGS else RAM_FLAGS)
              in EntryWrites(e, hhdm)
  {
    hide PagesUpTo, AlignUp;
    var ws := EntryWrites(e, hhdm);
    if w in ws {
      var i :| 0 <= i < |ws| && ws[i] == w;
      LoopPage(e, hhdm, i);
    }
    forall i: nat | Touches(e, i, w.phys)
      ensures Write(w.phys + hhdm, w.phys, if e.kind == Framebuffer then FRAMEBUFFER_FLAGS else RAM_FLAGS) in ws
    {
      LoopPage(e, hhdm, i);
      assert ws[i] in ws;
    }
  }

  lemma {:induction false} LoopPage(e: Entry, hhdm: nat, i: nat)
    ensures i < EntryCount(e) ==> Touches(e, i, EntryWrite(e, hhdm, i * PAGE_SIZE).phys)
    ensures forall phys {:trigger Touches(e, i, phys)} :: Touches(e, i, phys) ==>
              i < EntryCount(e) && EntryWrite(e, hhdm, i * PAGE_SIZE).phys == phys
  {
    hide PagesUpTo, AlignUp;
    LoopLength(e.length, i);
    LoopLength(e.base + e.length, i);
    LoopLength(e.base + i * PAGE_SIZE, i);
  }

  /** The loop for some entry of this kind maps the page. */
  ghost predicate NamedBy(m: seq<Entry>, hhdm: nat, framebuffer: bool, k: Key) {
    exists i, u {:trigger u in EntryWrites(m[i], hhdm)} ::
      && 0 <= i < |m| && (m[i].kind == Framebuffer <==> framebuffer)
      && u in EntryWrites(m[i], hhdm) && PageOf(u.virt) == k
  }

  /** A mapping of the direct map belongs to some entry, and has the flags of its kind. */
  lemma {:induction false} MapSource(m: seq<Entry>, hhdm: nat, w: Write)
    requires w in MapWrites(m, hhdm)
    ensures (w.flags == FRAMEBUFFER_FLAGS && NamedBy(m, hhdm, true, PageOf(w.virt)))
            || (w.flags == RAM_FLAGS && NamedBy(m, hhdm, false, PageOf(w.virt)))
  {
    hide EntryWrite, EntryCount;
    var front, e := m[..|m|-1], m[|m|-1];
    if w in EntryWrites(e, hhdm) {
      EntryKind(e, hhdm, w);
      assert w in EntryWrites(m[|m|-1], hhdm);
    } else {
      MapSource(front, hhdm, w);
      var framebuffer := w.flags == FRAMEBUFFER_FLAGS;
      var i, u :| 0 <= i < |front| && (front[i].kind == Framebuffer <==> framebuffer)
                  && u in EntryWrites(front[i], hhdm) && PageOf(u.virt) == PageOf(w.virt);
      assert m[i] == front[i] && u in EntryWrites(m[i], hhdm);
    }
  }

  lemma {:induction false} EntryKind(e: Entry, hhdm: nat, w: Write)
    requires w in EntryWrites(e, hhdm)
    ensures w.flags == if e.kind == Framebuffer then FRAMEBUFFER_FLAGS else RAM_FLAGS
  {
    hide PagesUpTo, AlignUp;
    var ws := EntryWrites(e, hhdm);
    var i :| 0 <= i < |ws| && ws[i] == w;
  }

  /** An entry of the direct map: writable by the kernel only, and uncached exactly if not executable. */
  ghost predicate DirectBits(leaf: nat, framebuffer: bool) {
    && Shr(leaf, 0) % 2 == 1 && Shr(leaf, 1) % 2 == 1 && Shr(leaf, 2) % 2 == 0
    && (Shr(leaf, 3) % 2 == 1 <==> framebuffer) && (Shr(leaf, 63) % 2 == 1 <==> framebuffer)
  }

  lemma {:induction false} DirectFlagBits()
    ensures DirectBits(FRAMEBUFFER_FLAGS, true) && DirectBits(RAM_FLAGS, false)
  {
    hide Shr;
    HighFlagBits(PRESENT + READ_WRITE + WRITE_THROUGH);
    ShrFew(RAM_FLAGS);
    ShrAdd(RAM_FLAGS, 2, 61);
    ShrZero(61);
  }

  lemma {:induction false} DirectBitsOr(phys: nat, flags: nat, framebuffer: bool)
    requires PageAddress(phys, 52) && DirectBits(flags, framebuffer)
    ensures DirectBits(Or(phys, flags), framebuffer)
  {
    hide Shr, Or, PageAddress;
    FlagBit(phys, flags, 0);
    FlagBit(phys, flags, 1);
    FlagBit(phys, flags, 2);
    FlagBit(phys, flags, 3);
    FlagBit(phys, flags, 63);
  }

  /**
   Every page of the direct map is present, writable and closed to user mode after vmm_init. It is
   write-through and not executable only if the loop for some framebuffer touches it, and it is cached and
   executable only if the loop for some other entry does.
   */
  lemma {:induction false} DirectMapBits(s: Sys, m: seq<Entry>, hhdm: nat, im: Image, width: nat, w: Write)
    requires Inv(s) && Layout(m, hhdm, im, width) && Enough(s, InitWrites(m, hhdm, im))
    requires w in MapWrites(m, hhdm)
    ensures var s', k := MapAll(s, InitWrites(m, hhdm, im)), PageOf(w.virt);
            exists framebuffer ::
              DirectBits(Leaf(s'.mem, s'.root, k), framebuffer) && NamedBy(m, hhdm, framebuffer, k)
  {
    hide Leaf, Walk, MapAll, Enough, MapWrites, ImageWrites, NamedBy, DirectBits, Or;
    var s', k := MapAll(s, InitWrites(m, hhdm, im)), PageOf(w.virt);
    ListLeaf(s, InitWrites(m, hhdm, im), w);
    var u :| u in InitWrites(m, hhdm, im) && PageOf(u.virt) == k && Leaf(s'.mem, s'.root, k) == Or(u.phys, u.flags);
    ImageMember(m, hhdm, im, width, u);
    assert u in MapWrites(m, hhdm);
    MapSource(m, hhdm, u);
    WiderAddress(u.phys, width);
    DirectFlagBits();
    DirectBitsOr(u.phys, u.flags, u.flags == FRAMEBUFFER_FLAGS);
  }

  lemma {:induction false} FlagBits()
    ensures Shr(TEXT_FLAGS, 1) % 2 == 0 && Shr(TEXT_FLAGS, 63) % 2 == 0
    ensures Shr(RODATA_FLAGS, 1) % 2 == 0 && Shr(RODATA_FLAGS, 63) % 2 == 1
    ensures Shr(DATA_FLAGS, 1) % 2 == 1 && Shr(DATA_FLAGS, 63) % 2 == 1
    ensures KernelBits(TEXT_FLAGS) && KernelBits(RODATA_FLAGS) && KernelBits(DATA_FLAGS)
  {
    hide Shr, Pow2;
    TopBit();
    SmallLow(TEXT_FLAGS);
    ShrSmall(TEXT_FLAGS, 63);
    ShrFew(TEXT_FLAGS);
    HighFlagBits(PRESENT);
    HighFlagBits(PRESENT + READ_WRITE);
  }
}
