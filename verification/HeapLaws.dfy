/**
 Where kmalloc puts a block and what it asks the page source for, in plain numbers: headers of 40
 bytes, 32 bytes of slack, pages of 4096 bytes, at least 16 of them.
 */
module HeapLaws {
  import opened Wrappers
  import opened HeapView
  import opened HeapRuns
  import opened HeapRep
  import opened HeapHint

  /** The free bytes before block j of a major, or behind the last one. */
  function FreeBytes(m: Major, j: nat): int
    requires j <= |m.blocks|
  {
    (if j == |m.blocks| then m.addr + m.pages * 4096 else m.blocks[j].addr) - FreeFrom(m, j)
  }

  function FreeFrom(m: Major, j: nat): nat
    requires j <= |m.blocks|
  {
    if j == 0 then m.addr + 40 else m.blocks[j-1].addr + 40 + m.blocks[j-1].size
  }

  /** The free bytes before the first n blocks. */
  function FreeSum(m: Major, n: nat): int
    requires n <= |m.blocks| + 1
  {
    if n == 0 then 0 else FreeSum(m, n - 1) + FreeBytes(m, n - 1)
  }

  /** No gap of the major holds the block: its header, the request and the slack. */
  ghost predicate NoRoom(m: Major, req: nat) {
    forall j :: 0 <= j <= |m.blocks| ==> FreeBytes(m, j) < req + 72
  }

  /** The hint names major h, and the gaps of h together have more than enough room. */
  ghost predicate HintServes(v: seq<Major>, bet: nat, req: nat, h: nat) {
    h < |v| && bet != 0 && v[h].addr == bet && FreeSum(v[h], |v[h].blocks| + 1) > req + 72
  }

  /** No major that is searched before major i has room. */
  ghost predicate SearchedFirst(v: seq<Major>, bet: nat, req: nat, i: nat) {
    && ((forall h: nat :: !HintServes(v, bet, req, h)) ==> forall k :: 0 <= k < i && k < |v| ==> NoRoom(v[k], req))
    && forall h: nat :: HintServes(v, bet, req, h) ==>
         if h <= i then forall k :: h <= k < i && k < |v| ==> NoRoom(v[k], req)
         else forall k :: 0 <= k < |v| && (k < i || h <= k) ==> NoRoom(v[k], req)
  }

  /** n pages are the least, at least 16, that hold so many bytes. */
  ghost predicate LeastPages(n: nat, bytes: nat) {
    n >= 16 && n * 4096 >= bytes && (n == 16 || (n - 1) * 4096 < bytes)
  }

  lemma LeastOfAll(n: nat, bytes: nat, k: nat)
    requires LeastPages(n, bytes) && k >= 16 && k * 4096 >= bytes
    ensures n <= k
  {
  }

  /** allocate_new_page asks for the least number of pages that hold the size and both headers. */
  lemma {:induction false} PagesLeast(size: nat)
    ensures LeastPages(PagesFor(size), size + 80)
  {
  }

  /** The block is in gap j of major i, the first that has room, and nothing else has changed. */
  ghost predicate PlacedAt(v: seq<Major>, bet: nat, req: nat, v': seq<Major>, b: Option<Block>, i: nat, j: nat) {
    && i < |v| && j <= |v[i].blocks|
    && FreeBytes(v[i], j) >= req + 72
    && (forall l :: 0 <= l < j ==> FreeBytes(v[i], l) < req + 72)
    && SearchedFirst(v, bet, req, i)
    && b == Some(Block(FreeFrom(v[i], j), req + 32, req))
    && v' == v[i := v[i].(blocks := v[i].blocks[..j] + [b.value] + v[i].blocks[j..])]
  }

  /** Nothing had room: a new major behind the others, if the page source grants one, begins with the block. */
  ghost predicate PlacedNew(v: seq<Major>, req: nat, grant: nat, v': seq<Major>, b: Option<Block>) {
    if grant == 0 then v' == v && b == None
    else
      && |v'| == |v| + 1 && v'[..|v|] == v
      && b == Some(Block(grant + 40, req + 32, req))
      && v'[|v|].addr == grant && v'[|v|].blocks == [b.value]
      && LeastPages(v'[|v|].pages, req + 112)
  }

  lemma {:induction false} GapIs(m: Major, j: nat)
    requires j <= |m.blocks|
    ensures Gap(m, j) == FreeBytes(m, j) && GapLow(m, j) == FreeFrom(m, j)
  {
  }

  lemma {:induction false} GapSumIs(m: Major, n: nat)
    requires n <= |m.blocks| + 1
    ensures GapSum(m, n) == FreeSum(m, n)
  {
    if n > 0 {
      GapIs(m, n - 1);
      GapSumIs(m, n - 1);
    }
  }

  lemma {:induction false} NoRoomIs(m: Major, req: nat)
    ensures NoRoom(m, req) <==> FirstGap(m, Need(req), 0) == |m.blocks| + 1
  {
    var r := FirstGap(m, Need(req), 0);
    forall j | 0 <= j <= |m.blocks| ensures Gap(m, j) == FreeBytes(m, j) {
      GapIs(m, j);
    }
    if r <= |m.blocks| {
      assert FreeBytes(m, r) >= req + 72;
    }
  }

  /** Majors before the first one with room have none. */
  lemma {:induction false} FirstRoom(v: seq<Major>, req: nat, s: nat)
    requires s <= |v|
    ensures var i := FirstMajor(v, Need(req), s);
            && (forall k :: s <= k < i ==> NoRoom(v[k], req))
            && (i < |v| ==> !NoRoom(v[i], req))
  {
    hide NoRoom, FirstGap;
    forall k | s <= k < |v| ensures NoRoom(v[k], req) <==> FirstGap(v[k], Need(req), 0) == |v[k].blocks| + 1 {
      NoRoomIs(v[k], req);
    }
  }

  lemma {:induction false} StartIs(v: seq<Major>, bet: nat, req: nat)
    requires HeapOk(v)
    ensures (forall h: nat :: !HintServes(v, bet, req, h)) ==> Start(v, bet, Need(req)) == 0
    ensures forall h: nat :: HintServes(v, bet, req, h) ==> Start(v, bet, Need(req)) == h
  {
    hide HeapOk;
    var i := IndexOf(v, bet);
    if i < |v| {
      GapsAreFree(v[i]);
      GapSumIs(v[i], |v[i].blocks| + 1);
      assert bet != 0 && Size(v[i]) - Usage(v[i]) > Need(req) ==> HintServes(v, bet, req, i);
    }
    forall h: nat | HintServes(v, bet, req, h) ensures Start(v, bet, Need(req)) == h {
      IndexOfAddr(v, h);
    }
  }

  /**
   kmalloc is first fit from a roomy hint on, else from the root on, and around once: the block goes
   to the first gap with room, and the page source is needed exactly if no major has any.
   */
  lemma {:induction false} FirstFit(v: seq<Major>, bet: nat, req: nat, grant: nat)
    requires HeapOk(v)
    ensures var (v', b) := Alloc(v, bet, req, grant);
            if forall i :: 0 <= i < |v| ==> NoRoom(v[i], req) then
              Locate(v, bet, Need(req)).None? && PlacedNew(v, req, grant, v', b)
            else exists i: nat, j: nat :: PlacedAt(v, bet, req, v', b, i, j)
  {
    hide HeapOk, NoRoom, FirstMajor, FirstGap, Start;
    var s := Start(v, bet, Need(req));
    FirstRoom(v, req, s);
    FirstRoom(v, req, 0);
    match Locate(v, bet, Need(req)) {
      case Some((i, j)) =>
        Placed(v, bet, req, grant, i, j);
      case None =>
        PagesLeast(req + SLACK);
    }
  }

  lemma {:induction false} Placed(v: seq<Major>, bet: nat, req: nat, grant: nat, i: nat, j: nat)
    requires HeapOk(v) && Locate(v, bet, Need(req)) == Some((i, j))
    ensures PlacedAt(v, bet, req, Alloc(v, bet, req, grant).0, Alloc(v, bet, req, grant).1, i, j)
    ensures !NoRoom(v[i], req)
  {
    hide HeapOk, SearchedFirst, NoRoom;
    Searched(v, bet, req, i, j);
    FirstGapIs(v[i], req);
    NoRoomIs(v[i], req);
    GapIs(v[i], j);
  }

  lemma {:induction false} FirstGapIs(m: Major, req: nat)
    ensures var r := FirstGap(m, Need(req), 0);
            && (r <= |m.blocks| ==> FreeBytes(m, r) >= req + 72)
            && forall l :: 0 <= l < r ==> FreeBytes(m, l) < req + 72
  {
    forall j | 0 <= j <= |m.blocks| ensures Gap(m, j) == FreeBytes(m, j) {
      GapIs(m, j);
    }
  }

  lemma {:induction false} Searched(v: seq<Major>, bet: nat, req: nat, i: nat, j: nat)
    requires HeapOk(v) && Locate(v, bet, Need(req)) == Some((i, j))
    ensures SearchedFirst(v, bet, req, i)
  {
    hide HeapOk, NoRoom, HintServes, FirstMajor, FirstGap, Start;
    var s := Start(v, bet, Need(req));
    StartIs(v, bet, req);
    FirstRoom(v, req, s);
    FirstRoom(v, req, 0);
  }

  /** The pointer is the one multiple of 16 that lies 56 to 71 bytes behind the start of the block. */
  lemma {:induction false} PointerIs(v: seq<Major>, bet: nat, req: nat, grant: nat)
    ensures match Alloc(v, bet, req, grant).1
            case None => AllocPtr(v, bet, req, grant) == 0
            case Some(b) =>
              var p := AllocPtr(v, bet, req, grant);
              p % 16 == 0 && b.addr + 56 <= p <= b.addr + 71 && Tag(b) == p - (b.addr + 40) && TagAddr(b) == p - 16
  {
    hide Alloc;
  }

  /** The totals grow by the request with its slack, and by the pages of a new major. */
  lemma {:induction false} TotalsAre(v: seq<Major>, bet: nat, req: nat, grant: nat)
    ensures var (v', b) := Alloc(v, bet, req, grant);
            && InUse(v') == InUse(v) + (if b.Some? then req + 32 else 0)
            && (|v'| == |v| ==> Allocated(v') == Allocated(v))
            && (|v'| != |v| ==> exists n: nat :: LeastPages(n, req + 112) && Allocated(v') == Allocated(v) + n * 4096)
  {
    hide Locate;
    AllocTotals(v, bet, req, grant);
    PagesLeast(req + SLACK);
    assert LeastPages(PagesFor(req + SLACK), req + 112);
  }

  lemma {:induction false} EagerIs(v: seq<Major>, bet: nat, req: nat)
    requires HeapOk(v)
    ensures (forall h: nat :: !HintServes(v, bet, req, h)) ==> !Eager(v, bet, Need(req))
    ensures forall h: nat :: HintServes(v, bet, req, h) ==> Eager(v, bet, Need(req))
  {
    hide HeapOk;
    var i := IndexOf(v, bet);
    if i < |v| {
      GapsAreFree(v[i]);
      GapSumIs(v[i], |v[i].blocks| + 1);
      assert bet != 0 && Size(v[i]) - Usage(v[i]) > Need(req) ==> HintServes(v, bet, req, i);
    }
    forall h: nat | HintServes(v, bet, req, h) ensures Eager(v, bet, Need(req)) {
      IndexOfAddr(v, h);
    }
  }

  /** The majors a search visits that ends at major i, from the hinted major h on or else from the root on. */
  function SeenFromHint(v: seq<Major>, h: nat, i: nat): seq<Major>
    requires h < |v| && i < |v|
  {
    if h <= i then v[h..i + 1] else v[h..] + v[..i + 1]
  }

  /** The hint after the block went to major i, by the majors that were visited. */
  lemma {:induction false} HintFound(v: seq<Major>, bet: nat, req: nat, grant: nat, i: nat, j: nat)
    requires HeapOk(v) && Locate(v, bet, Need(req)) == Some((i, j))
    ensures var h0 := Hint(bet, HintRoom(v, bet));
            && ((forall h: nat :: !HintServes(v, bet, req, h)) ==>
                  HintAfter(v, bet, req, grant) == NoteAll(h0, v[..i + 1]).bet)
            && (forall h: nat :: HintServes(v, bet, req, h) ==>
                  HintAfter(v, bet, req, grant) == NoteAll(h0, SeenFromHint(v, h, i)).bet)
  {
    hide HeapOk, NoteAll, HintServes, Start, Eager, Locate, HintRoom, Visited, SeenFromHint;
    StartIs(v, bet, req);
    EagerIs(v, bet, req);
    VisitedIs(v, bet, Need(req), i);
  }

  lemma {:induction false} VisitedIs(v: seq<Major>, bet: nat, need: nat, i: nat)
    requires i < |v|
    ensures var s := Start(v, bet, need);
            var seen := Visited(v, bet, need, i + 1, Eager(v, bet, need) && s <= i);
            if Eager(v, bet, need) then s < |v| && seen == SeenFromHint(v, s, i) else seen == v[..i + 1]
  {
    hide Room;
    assert [] + v[..i + 1] == v[..i + 1];
  }

  /**
   The hint when nothing had room: all majors were visited, and a new one counts unless the last one was
   left because its free bytes are too few.
   */
  lemma {:induction false} HintNew(v: seq<Major>, bet: nat, req: nat, grant: nat)
    requires HeapOk(v) && Locate(v, bet, Need(req)).None?
    ensures var h0 := Hint(bet, HintRoom(v, bet));
            var full := grant != 0 && (v == [] || FreeSum(v[|v|-1], |v[|v|-1].blocks| + 1) >= req + 72);
            && ((forall h: nat :: !HintServes(v, bet, req, h)) ==>
                  HintAfter(v, bet, req, grant) == WithNew(NoteAll(h0, v), full, req, grant).bet)
            && (forall h: nat :: HintServes(v, bet, req, h) ==>
                  HintAfter(v, bet, req, grant) == WithNew(NoteAll(h0, v[h..] + v), full, req, grant).bet)
  {
    hide HeapOk, NoteAll, HintServes, Start, Eager, FreeSum, Note, Locate, Size, Usage, HintRoom;
    StartIs(v, bet, req);
    EagerIs(v, bet, req);
    LazyStart(v, bet, Need(req));
    assert v[..|v|] == v && [] + v == v;
    if v != [] {
      GapsAreFree(v[|v|-1]);
      GapSumIs(v[|v|-1], |v[|v|-1].blocks| + 1);
    }
  }

  function WithNew(h: Hint, counts: bool, req: nat, grant: nat): Hint {
    if counts then Note(h, Major(grant, PagesFor(req + 32), [])) else h
  }
}
