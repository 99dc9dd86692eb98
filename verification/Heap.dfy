/**
 The kernel heap: majors obtained from a page source, minors carved from their gaps, both linked
 by hand through headers in the memory they manage.
 */
module Heap {
  import opened Wrappers
  import opened HeapView
  import opened HeapRuns
  import opened HeapRep
  import opened HeapContents
  import opened HeapHint

  /** What passes between the heap and the page source. */
  datatype PageEvent =
    | Asked(pages: nat, answer: nat)
    | GivenBack(addr: nat, pages: nat)

  class KernelHeap {
    var memRoot: nat
    var bestBet: nat
    var allocatedBytes: int
    var inuseBytes: int
    var warningCount: nat
    var errorCount: nat
    var possibleOverruns: nat
    var majors: Majors
    var minors: Minors
    const mem: array<byte>
    ghost var view: seq<Major>
    ghost var log: seq<PageEvent>

    /** The hint is NULL or a major of the list. */
    static ghost predicate Hinted(v: seq<Major>, bet: nat) {
      bet == 0 || IndexOf(v, bet) < |v|
    }

    ghost predicate Rep()
      reads this, mem
    {
      && Represents(view, majors, minors, mem[..])
      && memRoot == AddrOf(view, 0)
      && Hinted(view, bestBet)
      && inuseBytes == InUse(view)
      && allocatedBytes == Allocated(view)
    }

    /** What holds between calls. */
    ghost predicate Valid()
      reads this, mem
    {
      Rep() && NoneEmpty(view)
    }

    constructor (mem: array<byte>)
      ensures Valid() && view == [] && log == [] && this.mem == mem
    {
      memRoot, bestBet, allocatedBytes, inuseBytes := 0, 0, 0, 0;
      warningCount, errorCount, possibleOverruns := 0, 0, 0;
      majors, minors := map[], map[];
      this.mem := mem;
      view, log := [], [];
    }

    // ---------- taking a major from the page source ----------

    /** The page source's range for this call, if it grants one. */
    ghost predicate CanAsk(v: seq<Major>, req: nat, grant: nat) {
      Asks(v, req, grant) && (grant != 0 ==> grant + Size(FreshMajor(grant, req + SLACK)) <= mem.Length)
    }

    /** allocate_new_page: a major header, not yet linked, or NULL. */
    method AllocateNewPage(size: nat, grant: nat) returns (maj: nat)
      modifies `majors, `minors, `allocatedBytes, `warningCount, `log
      ensures maj == grant && log == old(log) + [Asked(PagesFor(size), grant)]
      ensures grant == 0 ==>
                warningCount == old(warningCount) + 1 && unchanged(`majors, `minors, `allocatedBytes)
      ensures grant != 0 ==>
                && warningCount == old(warningCount)
                && majors == old(majors)[grant := FreshHeader(size)]
                && minors == Forget(old(minors), grant, grant + Size(FreshMajor(grant, size)))
                && allocatedBytes == old(allocatedBytes) + Size(FreshMajor(grant, size))
    {
      var st := size + MAJOR_HEADER;
      st := st + MINOR_HEADER;
      if st % HEAP_PAGE == 0 {
        st := st / HEAP_PAGE;
      } else {
        st := st / HEAP_PAGE + 1;
      }
      if st < MIN_PAGES {
        st := MIN_PAGES;
      }
      maj := grant;
      log := log + [Asked(st, grant)];
      if maj == 0 {
        warningCount := warningCount + 1;
        return;
      }
      minors := Forget(minors, maj, maj + st * HEAP_PAGE);
      majors := majors[maj := MajorHeader(0, 0, st, st * HEAP_PAGE, MAJOR_HEADER, 0)];
      allocatedBytes := allocatedBytes + majors[maj].size;
    }

    // ---------- placing a block ----------

    /** Block j of major i is new and all else is as before. */
    twostate predicate Placed(i: nat, j: nat, req: nat, p: nat)
      reads this, mem
    {
      && i < |old(view)| && j <= |old(view)[i].blocks|
      && var b := NewBlock(GapLow(old(view)[i], j), req);
         && Rep()
         && view == old(view)[i := InsertBlock(old(view)[i], j, b)]
         && p == Ptr(b)
         && TagAddr(b) < mem.Length && mem[..] == old(mem[..])[TagAddr(b) := Tag(b)]
    }

    /** The end of every case: account for the block and align the pointer, leaving the tag. */
    method Deliver(minor: nat, maj: nat, req: nat, ghost i: nat, ghost j: nat, ghost majors0: Majors,
                   ghost minors0: Minors)
      returns (p: nat)
      requires Represents(view, majors0, minors0, mem[..]) && i < |view| && view[i].addr == maj
      requires j <= |view[i].blocks| && minor == GapLow(view[i], j) && FillsGap(view[i], j, NewBlock(minor, req))
      requires maj in majors0
      requires majors ==
               majors0[maj := majors0[maj].(first := BlockAddr(InsertBlock(view[i], j, NewBlock(minor, req)), 0))]
      requires LinkedIn(view[i], j, NewBlock(minor, req), minors0, minors)
      requires memRoot == AddrOf(view, 0) && Hinted(view, bestBet)
      requires inuseBytes == InUse(view) && allocatedBytes == Allocated(view)
      modifies `majors, `inuseBytes, `view, mem
      ensures Placed(i, j, req, p)
    {
      var size := req + SLACK;
      ghost var b, bytes := NewBlock(minor, req), mem[..];
      majors := majors[maj := majors[maj].(usage := majors[maj].usage + (size + MINOR_HEADER))];
      DeliverOk(view, i, j, b, majors0, minors0, bytes, majors, minors, bestBet);
      inuseBytes := inuseBytes + size;
      view := view[i := InsertBlock(view[i], j, b)];
      p := Align(minor + MINOR_HEADER, b);
    }

    /** The macro ALIGN: move up to the payload and leave the distance in the byte 16 before it. */
    method Align(start: nat, ghost b: Block) returns (p: nat)
      requires start == b.addr + MINOR_HEADER && TagAddr(b) < mem.Length
      modifies mem
      ensures p == Ptr(b) && mem[..] == old(mem[..])[TagAddr(b) := Tag(b)]
    {
      p := start + 16;
      var diff := p % 16;
      if diff != 0 {
        diff := 16 - diff;
        p := p + diff;
      }
      mem[p - 16] := diff + 16;
    }

    /** CASE 2: the major is empty. */
    method PlaceInEmpty(maj: nat, req: nat, ghost i: nat) returns (p: nat)
      requires Rep() && i < |view| && view[i].addr == maj && view[i].blocks == []
      requires Gap(view[i], 0) >= Need(req)
      modifies `majors, `minors, `inuseBytes, `view, mem
      ensures Placed(i, 0, req, p)
    {
      hide TagsOk, InRange;
      var size := req + SLACK;
      assert MajorAt(view, majors, i);
      ghost var majors0, minors0 := majors, minors;
      var first := maj + MAJOR_HEADER;
      majors := majors[maj := majors[maj].(first := first)];
      minors := Forget(minors, first, first + MINOR_HEADER + size);
      minors := minors[first := MinorHeader(0, 0, maj, MAGIC, size, req)];
      p := Deliver(first, maj, req, i, 0, majors0, minors0);
    }

    /** CASE 3: room before the first minor. */
    method PlaceBeforeFirst(maj: nat, req: nat, ghost i: nat) returns (p: nat)
      requires Rep() && i < |view| && view[i].addr == maj && view[i].blocks != []
      requires Gap(view[i], 0) >= Need(req)
      modifies `majors, `minors, `inuseBytes, `view, mem
      ensures Placed(i, 0, req, p)
    {
      hide TagsOk, InRange;
      var size := req + SLACK;
      assert MajorAt(view, majors, i) && ChainRep(view[i], minors);
      assert MinorAt(view[i], minors, 0);
      ghost var majors0, minors0 := majors, minors;
      var second := majors[maj].first;
      var first := maj + MAJOR_HEADER;
      minors := Forget(minors, first, first + MINOR_HEADER + size);
      minors := minors[second := minors[second].(prev := first)];
      minors := minors[first := MinorHeader(0, second, maj, MAGIC, size, req)];
      majors := majors[maj := majors[maj].(first := first)];
      p := Deliver(first, maj, req, i, 0, majors0, minors0);
    }

    /** CASE 4.1: room after the last minor. */
    method PlaceAfterLast(min: nat, maj: nat, req: nat, ghost i: nat) returns (p: nat)
      requires Rep() && i < |view| && view[i].addr == maj && view[i].blocks != []
      requires min == view[i].blocks[|view[i].blocks|-1].addr
      requires Gap(view[i], |view[i].blocks|) >= Need(req)
      modifies `majors, `minors, `inuseBytes, `view, mem
      ensures Placed(i, |old(view)[i].blocks|, req, p)
    {
      hide TagsOk, InRange;
      var size := req + SLACK;
      ghost var j := |view[i].blocks|;
      assert MajorAt(view, majors, i) && ChainRep(view[i], minors);
      assert MinorAt(view[i], minors, j - 1);
      ghost var majors0, minors0 := majors, minors;
      var next := min + MINOR_HEADER + minors[min].size;
      minors := Forget(minors, next, next + MINOR_HEADER + size);
      minors := minors[min := minors[min].(next := next)];
      minors := minors[next := MinorHeader(min, 0, maj, MAGIC, size, req)];
      assert majors == majors[maj := majors[maj].(first := majors[maj].first)];
      p := Deliver(next, maj, req, i, j, majors0, minors0);
    }

    /** CASE 4.2: room between a minor and the next. */
    method PlaceBetween(min: nat, maj: nat, req: nat, ghost i: nat, ghost j: nat) returns (p: nat)
      requires Rep() && i < |view| && view[i].addr == maj && 0 < j < |view[i].blocks|
      requires min == view[i].blocks[j-1].addr
      requires Gap(view[i], j) >= Need(req)
      modifies `majors, `minors, `inuseBytes, `view, mem
      ensures Placed(i, j, req, p)
    {
      hide Hinted, InUse;
      var size := req + SLACK;
      assert MajorAt(view, majors, i) && ChainRep(view[i], minors);
      assert MinorAt(view[i], minors, j - 1) && MinorAt(view[i], minors, j);
      BlockAddrUnique(view[i], j - 1, j);
      ghost var majors0, minors0 := majors, minors;
      var newMin := min + MINOR_HEADER + minors[min].size;
      var next := minors[min].next;
      minors := Forget(minors, newMin, newMin + MINOR_HEADER + size);
      minors := minors[newMin := MinorHeader(min, next, maj, MAGIC, size, req)];
      minors := minors[next := minors[next].(prev := newMin)];
      minors := minors[min := minors[min].(next := newMin)];
      assert majors == majors[maj := majors[maj].(first := majors[maj].first)];
      p := Deliver(newMin, maj, req, i, j, majors0, minors0);
    }

    /** CASE 4: walk the minors of a major until a gap behind one of them can take the request. */
    method WalkMinors(maj: nat, req: nat, ghost i: nat) returns (p: nat)
      requires Rep() && i < |view| && view[i].addr == maj && view[i].blocks != []
      requires Gap(view[i], 0) < Need(req)
      modifies `majors, `minors, `inuseBytes, `view, mem
      ensures var j := FirstGap(old(view)[i], Need(req), 0);
              if j <= |old(view)[i].blocks| then Placed(i, j, req, p)
              else p == 0 && unchanged(`majors, `minors, `inuseBytes, `view, mem)
    {
      var size := req + SLACK;
      assert MajorAt(view, majors, i);
      ghost var m, j := view[i], 0;
      var min := majors[maj].first;
      while min != 0
        invariant j <= |m.blocks| && min == BlockAddr(m, j)
        invariant FirstGap(m, Need(req), 0) == FirstGap(m, Need(req), j + 1)
        invariant unchanged(`majors, `minors, `inuseBytes, `view, mem) && Rep()
        decreases |m.blocks| - j
      {
        p := TryAfter(min, maj, req, i, j);
        if p != 0 {
          return;
        }
        assert ChainRep(m, minors) && MinorAt(m, minors, j);
        min := minors[min].next;
        j := j + 1;
      }
      AddrIsNull(m, j);
      return 0;
    }

    /** The body of that walk: the gap behind one minor, or NULL if it is too small. */
    method TryAfter(min: nat, maj: nat, req: nat, ghost i: nat, ghost j: nat) returns (p: nat)
      requires Rep() && i < |view| && view[i].addr == maj && j < |view[i].blocks| && min == view[i].blocks[j].addr
      modifies `majors, `minors, `inuseBytes, `view, mem
      ensures if Gap(old(view)[i], j + 1) >= Need(req) then p != 0 && Placed(i, j + 1, req, p)
              else p == 0 && unchanged(`majors, `minors, `inuseBytes, `view, mem)
    {
      var size := req + SLACK;
      assert MajorAt(view, majors, i) && ChainRep(view[i], minors);
      assert MinorAt(view[i], minors, j);
      AddrIsNull(view[i], j + 1);
      if minors[min].next == 0 {
        var diff := maj + majors[maj].size - min - MINOR_HEADER - minors[min].size;
        if diff >= size + MINOR_HEADER {
          p := PlaceAfterLast(min, maj, req, i);
          return;
        }
      }
      if minors[min].next != 0 {
        var diff := minors[min].next - min - MINOR_HEADER - minors[min].size;
        if diff >= size + MINOR_HEADER {
          p := PlaceBetween(min, maj, req, i, j + 1);
          return;
        }
      }
      return 0;
    }

    /** CASES 2 to 4 for one major: the first gap that will do, or NULL. */
    method TryMajor(maj: nat, req: nat, ghost i: nat) returns (p: nat)
      requires Rep() && i < |view| && view[i].addr == maj
      requires view[i].blocks == [] ==> Gap(view[i], 0) >= Need(req)
      modifies `majors, `minors, `inuseBytes, `view, mem
      ensures var j := FirstGap(old(view)[i], Need(req), 0);
              if j <= |old(view)[i].blocks| then p != 0 && Placed(i, j, req, p)
              else p == 0 && unchanged(`majors, `minors, `inuseBytes, `view, mem)
    {
      assert MajorAt(view, majors, i);
      AddrIsNull(view[i], 0);
      if majors[maj].first == 0 {
        p := PlaceInEmpty(maj, req, i);
        return;
      }
      var size := req + SLACK;
      var diff := majors[maj].first;
      diff := diff - maj;
      diff := diff - MAJOR_HEADER;
      if diff >= size + MINOR_HEADER {
        p := PlaceBeforeFirst(maj, req, i);
        return;
      }
      p := WalkMinors(maj, req, i);
    }

    // ---------- kmalloc ----------

    /** Either the page source refused, or its range is now an empty major at the end of the list. */
    twostate predicate Extended(req: nat, grant: nat)
      reads this, mem
    {
      && Rep() && mem[..] == old(mem[..])
      && log == old(log) + [Asked(PagesFor(req + SLACK), grant)]
      && view == (if grant == 0 then old(view) else old(view) + [FreshMajor(grant, req + SLACK)])
      && warningCount == old(warningCount) + (if grant == 0 then 1 else 0)
    }

    /** The first major of an empty heap. */
    method FirstPage(req: nat, grant: nat)
      requires Rep() && view == [] && CanAsk(view, req, grant)
      modifies `memRoot, `majors, `minors, `allocatedBytes, `warningCount, `log, `view
      ensures Extended(req, grant) && memRoot == grant
    {
      hide HeapOk, MajorsRep, MinorsRep, TagsOk, InRange, NoneEmpty;
      ghost var majors0, minors0 := majors, minors;
      if grant != 0 {
        FirstOk(view, grant, req, majors0, minors0, mem[..], bestBet);
      }
      memRoot := AllocateNewPage(req + SLACK, grant);
      if memRoot != 0 {
        view := view + [FreshMajor(grant, req + SLACK)];
      }
    }

    /** A new major behind the last one. */
    method NextPage(maj: nat, req: nat, grant: nat) returns (n: nat)
      requires Rep() && view != [] && maj == view[|view|-1].addr && CanAsk(view, req, grant)
      modifies `majors, `minors, `allocatedBytes, `warningCount, `log, `view
      ensures Extended(req, grant) && n == grant
    {
      hide HeapOk, MajorsRep, MinorsRep, TagsOk, InRange, NoneEmpty, Forget, PagesFor, Asks, Usage, Size;
      LastMajor(view, majors);
      if grant != 0 {
        NextOk(view, grant, req, majors, minors, mem[..], bestBet);
      }
      n := AllocateNewPage(req + SLACK, grant);
      majors := majors[maj := majors[maj].(next := n)];
      if n == 0 {
        assert majors == old(majors);
        return;
      }
      majors := majors[n := majors[n].(prev := maj)];
      view := view + [FreshMajor(grant, req + SLACK)];
    }

    /**
     kmalloc. The block goes to the first gap that will do, from the hinted major or the root on,
     and the page source is asked, once, only if no major has such a gap. Only the tag byte of the
     new block is written. A request of 0 bytes is served like any other.
     */
    method Kmalloc(req: nat, grant: nat) returns (p: nat)
      requires Valid() && CanAsk(view, req, grant)
      modifies `memRoot, `majors, `minors, `inuseBytes, `allocatedBytes, `warningCount, `log, `view, `bestBet, mem
      ensures Valid() && Decided(old(view), old(bestBet), req, grant, old(mem[..]), p)
      ensures log == if Locate(old(view), old(bestBet), Need(req)).Some? then old(log)
                     else old(log) + [Asked(PagesFor(req + SLACK), grant)]
      ensures warningCount == old(warningCount) + (if p == 0 then 1 else 0)
      ensures bestBet == HintAfter(old(view), old(bestBet), req, grant)
    {
      var size := req + SLACK;
      ghost var v0, bet0 := view, bestBet;
      ghost var added := false;
      RootIsNull(view);
      if memRoot == 0 {
        FirstPage(req, grant);
        if memRoot == 0 {
          return 0;
        }
        added := true;
      }
      p := Search(req, grant, v0, bet0, added);
    }

    /** The search stands at maj and has found nothing yet. */
    ghost predicate Searching(v0: seq<Major>, bet0: nat, req: nat, grant: nat, maj: nat, startedBet: bool, added: bool)
      reads this, mem
    {
      && maj != 0 && Rep()
      && Scan(v0, bet0, req, grant, view, IndexOf(view, maj), startedBet, added)
    }

    /** The request has been decided: the block is where the specification puts it, or it was refused. */
    ghost predicate Decided(v0: seq<Major>, bet0: nat, req: nat, grant: nat, bytes: seq<byte>, p: nat)
      reads this, mem
    {
      && Rep() && NoneEmpty(view)
      && (view, p) == (Alloc(v0, bet0, req, grant).0, AllocPtr(v0, bet0, req, grant))
      && match Alloc(v0, bet0, req, grant).1
         case None => mem[..] == bytes
         case Some(b) => TagAddr(b) < |bytes| && mem[..] == bytes[TagAddr(b) := Tag(b)]
    }

    /** The outer loop of kmalloc, from a heap that has a root. */
    method Search(req: nat, grant: nat, ghost v0: seq<Major>, ghost bet0: nat, ghost added0: bool) returns (p: nat)
      requires Rep() && CanAsk(v0, req, grant) && bestBet == bet0
      requires added0 ==> bet0 == 0
      requires Scan(v0, bet0, req, grant, view, 0, false, added0)
               || (view == v0 && v0 != [] && NoneEmpty(v0) && !added0)
      modifies `majors, `minors, `inuseBytes, `allocatedBytes, `warningCount, `log, `view, `bestBet, mem
      ensures Decided(v0, bet0, req, grant, old(mem[..]), p)
      ensures log == if added0 || Locate(v0, bet0, Need(req)).Some? then old(log)
                     else old(log) + [Asked(PagesFor(req + SLACK), grant)]
      ensures warningCount == old(warningCount) + (if p == 0 then 1 else 0)
      ensures bestBet == HintAfter(v0, bet0, req, grant)
    {
      var maj, startedBet, bestSize := StartingPoint(req, v0, bet0, added0, grant);
      ghost var added := added0;
      p := 0;
      while maj != 0
        invariant p == 0
        invariant maj != 0 ==> Searching(v0, bet0, req, grant, maj, startedBet, added) && mem[..] == old(mem[..])
        invariant maj == 0 ==>
                    !added0 && Decided(v0, bet0, req, grant, old(mem[..]), 0) && Locate(v0, bet0, Need(req)).None?
        invariant maj != 0 ==> Noted(v0, bet0, Need(req), IndexOf(view, maj), startedBet, added, bestBet, bestSize)
        invariant maj == 0 ==> bestBet == HintAfter(v0, bet0, req, grant)
        invariant log == if (maj == 0 || added) && !added0
                         then old(log) + [Asked(PagesFor(req + SLACK), grant)] else old(log)
        invariant warningCount == old(warningCount) + (if maj == 0 then 1 else 0)
        decreases TurnsLeft(v0, view, maj, startedBet, added)
      {
        p, maj, startedBet, bestSize, added := Turn(maj, startedBet, bestSize, req, grant, v0, bet0, added);
        if p != 0 {
          return;
        }
      }
    }

    /**
     One turn of that loop; it ends with a block, with a refusal, or closer to the end of the
     search. A major with too little free space is skipped (CASE 1).
     */
    method Turn(maj: nat, startedBet: bool, bestSize: int, req: nat, grant: nat,
                ghost v0: seq<Major>, ghost bet0: nat, ghost added: bool)
      returns (p: nat, next: nat, started: bool, best: int, ghost added': bool)
      requires CanAsk(v0, req, grant) && Searching(v0, bet0, req, grant, maj, startedBet, added)
      requires Noted(v0, bet0, Need(req), IndexOf(view, maj), startedBet, added, bestBet, bestSize)
      modifies `majors, `minors, `inuseBytes, `allocatedBytes, `warningCount, `log, `view, `bestBet, mem
      ensures p != 0 ==> Decided(v0, bet0, req, grant, old(mem[..]), p)
      ensures p == 0 && next == 0 ==>
                !added && Decided(v0, bet0, req, grant, old(mem[..]), 0) && Locate(v0, bet0, Need(req)).None?
      ensures p == 0 && next != 0 ==>
                Searching(v0, bet0, req, grant, next, started, added') && mem[..] == old(mem[..]) && (added ==> added')
      ensures p == 0 ==> TurnsLeft(v0, view, next, started, added') < old(TurnsLeft(v0, view, maj, startedBet, added))
      ensures log == if !added && (if p == 0 then next == 0 || added' else Locate(v0, bet0, Need(req)).None?)
                     then old(log) + [Asked(PagesFor(req + SLACK), grant)] else old(log)
      ensures warningCount == old(warningCount) + (if p == 0 && next == 0 then 1 else 0)
      ensures p != 0 || next == 0 ==> bestBet == HintAfter(v0, bet0, req, grant)
      ensures p == 0 && next != 0 ==> Noted(v0, bet0, Need(req), IndexOf(view, next), started, added', bestBet, best)
    {
      hide Represents, HeapOk, NoneEmpty, Alloc, AllocPtr, Locate, TurnsLeft, Noted, HintAfter;
      var here;
      here, next, started, best, added' := Skip(maj, startedBet, bestSize, req, grant, v0, bet0, added);
      p := 0;
      if here != 0 {
        p, next, started, added' := Serve(here, started, req, grant, v0, bet0, added', best);
      }
    }

    /** The start of a turn: note the hint, and on CASE 1 leave for another major or for a new one. */
    method Skip(maj: nat, startedBet: bool, bestSize: int, req: nat, grant: nat,
                ghost v0: seq<Major>, ghost bet0: nat, ghost added: bool)
      returns (here: nat, next: nat, started: bool, best: int, ghost added': bool)
      requires CanAsk(v0, req, grant) && Searching(v0, bet0, req, grant, maj, startedBet, added)
      requires Noted(v0, bet0, Need(req), IndexOf(view, maj), startedBet, added, bestBet, bestSize)
      modifies `majors, `minors, `allocatedBytes, `warningCount, `log, `view, `bestBet
      ensures here != 0 ==> Searching(v0, bet0, req, grant, here, started, added') && next == here
      ensures here == 0 && next != 0 ==> Searching(v0, bet0, req, grant, next, started, added') && !added'
      ensures here == 0 && next == 0 ==> Decided(v0, bet0, req, grant, mem[..], 0) && Locate(v0, bet0, Need(req)).None?
      ensures (here != 0 && added' == added
               && TurnsLeft(v0, view, here, started, added') == old(TurnsLeft(v0, view, maj, startedBet, added)))
              ||
              (!added
               && TurnsLeft(v0, view, next, started, added') < old(TurnsLeft(v0, view, maj, startedBet, added)))
      ensures log == if (here == next == 0) || added' != added
                     then old(log) + [Asked(PagesFor(req + SLACK), grant)] else old(log)
      ensures warningCount == old(warningCount) + (if here == next == 0 then 1 else 0)
      ensures here == next == 0 || (here != 0 && added') ==> bestBet == HintAfter(v0, bet0, req, grant)
      ensures here == 0 && next != 0 ==> Noted(v0, bet0, Need(req), IndexOf(view, next), started, false, bestBet, best)
      ensures here != 0 && !added' ==> Passed(v0, bet0, req, IndexOf(view, here), started, bestBet, best)
    {
      hide Represents, HeapOk, NoneEmpty, Alloc, AllocPtr, Locate, TurnsLeft, Noted, HintAfter, ScanMissed, Size, Usage;
      var size := req + SLACK;
      here, next, started, added' := maj, maj, startedBet, added;
      var diff;
      diff, best := NoteMajor(maj, startedBet, bestSize, req, grant, v0, bet0, added);
      if diff < size + MINOR_HEADER {
        ScanSkip(v0, bet0, req, grant, view, IndexOf(view, maj), startedBet, added);
        var isNew: bool;
        next, started, isNew := MoveOn(maj, startedBet, req, grant, v0, bet0, IndexOf(view, maj), best);
        if isNew {
          NotedSkipped(v0, bet0, req, grant, bestBet, best);
        }
        here := if isNew then next else 0;
        added' := isNew;
      }
    }

    /** Note the major the search stands at. */
    method NoteMajor(maj: nat, startedBet: bool, bestSize: int, req: nat, grant: nat,
                     ghost v0: seq<Major>, ghost bet0: nat, ghost added: bool)
      returns (diff: int, best: int)
      requires Searching(v0, bet0, req, grant, maj, startedBet, added)
      requires Noted(v0, bet0, Need(req), IndexOf(view, maj), startedBet, added, bestBet, bestSize)
      modifies `bestBet
      ensures Searching(v0, bet0, req, grant, maj, startedBet, added)
      ensures diff == Room(view[IndexOf(view, maj)])
      ensures if added then diff >= Need(req) && bestBet == HintAfter(v0, bet0, req, grant)
              else Noted(v0, bet0, Need(req), IndexOf(view, maj) + 1, startedBet, false, bestBet, best)
    {
      hide Represents, HeapOk, Noted, HintAfter, Hinted, Size, Usage, IndexOf, AddrOf;
      ghost var bet1 := bestBet;
      diff, best := NoteHint(maj, bestSize);
      NotedHere(v0, bet0, req, grant, view, IndexOf(view, maj), startedBet, added, bet1, bestSize, Hint(bestBet, best));
    }

    /** The free space of a major, and the hint moved to it if it beats the best so far. */
    method NoteHint(maj: nat, bestSize: int) returns (diff: int, best: int)
      requires Rep() && IndexOf(view, maj) < |view|
      modifies `bestBet
      ensures Rep()
      ensures diff == Size(view[IndexOf(view, maj)]) - Usage(view[IndexOf(view, maj)])
      ensures (bestBet, best) == if bestSize < diff then (maj, diff) else (old(bestBet), bestSize)
    {
      HintedMajor(view, majors, maj);
      diff := majors[maj].size - majors[maj].usage;
      best := bestSize;
      if best < diff {
        bestBet := maj;
        best := diff;
      }
    }

    /** CASES 2 to 5: place the block in this major, or move on. */
    method Serve(maj: nat, startedBet: bool, req: nat, grant: nat, ghost v0: seq<Major>, ghost bet0: nat,
                 ghost added: bool, ghost best: int)
      returns (p: nat, next: nat, started: bool, ghost added': bool)
      requires CanAsk(v0, req, grant) && Searching(v0, bet0, req, grant, maj, startedBet, added)
      requires if added then bestBet == HintAfter(v0, bet0, req, grant)
               else Passed(v0, bet0, req, IndexOf(view, maj), startedBet, bestBet, best)
      modifies `majors, `minors, `inuseBytes, `allocatedBytes, `warningCount, `log, `view, mem
      ensures p != 0 || next == 0 ==> bestBet == HintAfter(v0, bet0, req, grant)
      ensures p == 0 && next != 0 ==> Noted(v0, bet0, Need(req), IndexOf(view, next), started, added', bestBet, best)
      ensures p != 0 ==>
                Decided(v0, bet0, req, grant, old(mem[..]), p) && (added <==> Locate(v0, bet0, Need(req)).None?)
      ensures p == 0 ==> !added
      ensures p == 0 && next == 0 ==>
                Decided(v0, bet0, req, grant, old(mem[..]), 0) && Locate(v0, bet0, Need(req)).None?
      ensures p == 0 && next != 0 ==> Searching(v0, bet0, req, grant, next, started, added') && mem[..] == old(mem[..])
      ensures p == 0 ==> TurnsLeft(v0, view, next, started, added') < old(TurnsLeft(v0, view, maj, startedBet, added))
      ensures log == if p == 0 && (next == 0 || added')
                     then old(log) + [Asked(PagesFor(req + SLACK), grant)] else old(log)
      ensures warningCount == old(warningCount) + (if p == 0 && next == 0 then 1 else 0)
    {
      hide HeapOk, MajorsRep, MinorsRep, TagsOk, InRange, NoneEmpty, Locate, FirstGap, TurnsLeft, HintAfter, Noted,
           Passed, Alloc, Hinted, IndexOf, InsertBlock;
      next, started, added' := maj, startedBet, added;
      ScanTry(v0, bet0, req, grant, view, IndexOf(view, maj), startedBet, added);
      PassedOn(v0, bet0, req, grant, view, IndexOf(view, maj), startedBet, added, bestBet, best);
      p := TryMajor(maj, req, IndexOf(view, maj));
      if p != 0 {
        return;
      }
      var isNew: bool;
      next, started, isNew := MoveOn(maj, startedBet, req, grant, v0, bet0, IndexOf(view, maj), best);
      if isNew {
        NotedFull(v0, bet0, Need(req), bestBet, best);
      }
      added' := isNew;
    }

    /** Where the search starts: the hinted major if it has more than enough room, else the root. */
    method StartingPoint(req: nat, ghost v0: seq<Major>, ghost bet0: nat, ghost added: bool, ghost grant: nat)
      returns (maj: nat, startedBet: bool, bestSize: int)
      requires Rep() && CanAsk(v0, req, grant) && bestBet == bet0
      requires added ==> bet0 == 0
      requires Scan(v0, bet0, req, grant, view, 0, false, added) || (view == v0 && v0 != [] && NoneEmpty(v0) && !added)
      ensures maj != 0 && Scan(v0, bet0, req, grant, view, IndexOf(view, maj), startedBet, added)
      ensures Noted(v0, bet0, Need(req), IndexOf(view, maj), startedBet, added, bestBet, bestSize)
    {
      hide HeapOk, MajorsRep, MinorsRep, TagsOk, InRange, NoneEmpty, Noted;
      maj := memRoot;
      startedBet := false;
      bestSize := 0;
      RootIsNull(view);
      if bestBet != 0 {
        HintedMajor(view, majors, bestBet);
        bestSize := majors[bestBet].size - majors[bestBet].usage;
        if bestSize > req + SLACK + MINOR_HEADER {
          maj := bestBet;
          startedBet := true;
          NotedBet(v0, bet0, Need(req));
        }
      }
      if !startedBet {
        IndexOfAddr(view, 0);
        NotedFirst(v0, bet0, Need(req));
      }
    }

    /**
     What kmalloc does when a major has no room: go to the next, or back to the root if the search
     started at the hint, or ask the page source for a new major behind the last.
     */
    method MoveOn(maj: nat, startedBet: bool, req: nat, grant: nat, ghost v0: seq<Major>, ghost bet0: nat, ghost i: nat,
                  ghost best: int)
      returns (next: nat, started: bool, isNew: bool)
      requires Rep() && CanAsk(v0, req, grant) && maj != 0 && i == IndexOf(view, maj) && i < |view|
      requires view == v0 && NoneEmpty(v0)
      requires ScanMissed(v0, bet0, req, grant, view, i, startedBet, false)
      requires Noted(v0, bet0, Need(req), i + 1, startedBet, false, bestBet, best)
      modifies `majors, `minors, `allocatedBytes, `warningCount, `log, `view
      ensures isNew ==> next != 0
      ensures next == 0 ==> Decided(v0, bet0, req, grant, mem[..], 0) && Locate(v0, bet0, Need(req)).None?
      ensures next != 0 ==> Searching(v0, bet0, req, grant, next, started, isNew)
      ensures TurnsLeft(v0, view, next, started, isNew) < old(TurnsLeft(v0, view, maj, startedBet, false))
      ensures log == if isNew || next == 0 then old(log) + [Asked(PagesFor(req + SLACK), grant)] else old(log)
      ensures warningCount == old(warningCount) + (if next == 0 then 1 else 0)
      ensures next == 0 ==> bestBet == HintAfter(v0, bet0, req, grant)
      ensures next != 0 && !isNew ==> Noted(v0, bet0, Need(req), IndexOf(view, next), started, false, bestBet, best)
      ensures isNew ==>
                && i + 1 == |v0| == IndexOf(view, next) && !started
                && grant != 0 && Locate(v0, bet0, Need(req)).None?
                && Noted(v0, bet0, Need(req), i + 1, false, false, bestBet, best)
    {
      hide HeapOk, MinorsRep, InRange, Noted, HintAfter, TurnsLeft, FirstMajor, FirstGap, Start, Size;
      HintedMajor(view, majors, maj);
      RootIsNull(view);
      TurnsNext(view, i, startedBet);
      NotedOn(v0, bet0, req, grant, i, startedBet, bestBet, best);
      if majors[maj].next != 0 {
        return majors[maj].next, startedBet, false;
      }
      if startedBet {
        return memRoot, false, false;
      }
      next := NextPage(maj, req, grant);
      if next != 0 {
        IndexOfAddr(view, i + 1);
      }
      return next, false, next != 0;
    }

    // ---------- kfree ----------

    /**
     The macro UNALIGN: step back over the alignment, if the byte before the pointer is a tag. It
     undoes ALIGN: from the pointer to any block whose tag is in place, back to the start of the block.
     */
    method Unalign(ptr: nat) returns (start: int)
      requires 16 <= ptr < mem.Length + 16
      ensures start == Start16(ptr, mem[ptr - 16])
      ensures forall b {:trigger TagOk(b, mem[..])} :: ptr == Ptr(b) && TagOk(b, mem[..]) ==>
                start == b.addr + MINOR_HEADER
    {
      var diff := mem[ptr - 16];
      start := ptr;
      if diff < 16 + 16 {
        start := start - diff;
      }
    }

    /** The address kfree takes for the header of a pointer. */
    ghost function HeaderOf(ptr: nat): int
      reads mem
      requires 16 <= ptr < mem.Length + 16
    {
      Start16(ptr, mem[ptr - 16]) - MINOR_HEADER
    }

    /** A pointer whose header is still in memory but not that of a live block. */
    ghost predicate Stale(ptr: nat)
      reads this, mem
    {
      && 16 <= ptr < mem.Length + 16
      && HeaderOf(ptr) >= 0 && HeaderOf(ptr) in minors && minors[HeaderOf(ptr)].magic != MAGIC
    }

    /** A magic number that differs from the right one only in its upper bytes. */
    static predicate Overrun(magic: nat) {
      || magic % 0x100_0000 == MAGIC % 0x100_0000
      || magic % 0x1_0000 == MAGIC % 0x1_0000
      || magic % 0x100 == MAGIC % 0x100
    }

    /**
     kfree. Freeing a live pointer releases its block, and gives its major back to the page source
     if that was the last; freeing NULL or a dead pointer only counts. While its major stays, a freed
     pointer is a dead one, so that freeing it again is counted as an error.
     */
    method Kfree(ptr: nat)
      requires Valid() && (ptr == 0 || Live(view, ptr) || Stale(ptr))
      modifies this
      ensures Valid()
      ensures ptr == 0 ==>
                && warningCount == old(warningCount) + 1
                && unchanged(`view, `log, `majors, `minors, `errorCount, `possibleOverruns, `memRoot, `bestBet)
      ensures ptr != 0 && Live(old(view), ptr) ==>
                && Freed(old(view), ptr, view, old(log), log) && HintMoved(old(view), ptr, old(bestBet), bestBet)
                && unchanged(`warningCount, `errorCount, `possibleOverruns)
      ensures ptr != 0 && Live(old(view), ptr) ==> !Live(view, ptr)
      ensures ptr != 0 && Live(old(view), ptr) && log == old(log) ==>
                Stale(ptr) && minors[HeaderOf(ptr)].magic == 0xdead_dead
      ensures ptr != 0 && !Live(old(view), ptr) ==>
                && errorCount == old(errorCount) + 1
                && possibleOverruns == old(possibleOverruns) +
                  (if Overrun(old(minors[HeaderOf(ptr)]).magic) then 1 else 0)
                && unchanged(`view, `log, `majors, `minors, `warningCount, `memRoot, `bestBet)
    {
      hide HeapOk, MajorsRep, MinorsRep, TagsOk, InRange, NoneEmpty, Live, LiveBlock, Freed, HintMoved, Overrun;
      if ptr == 0 {
        warningCount := warningCount + 1;
        return;
      }
      if Live(view, ptr) {
        LiveHeader(view, ptr, minors, mem[..]);
      }
      var start := Unalign(ptr);
      var min := start - MINOR_HEADER;
      if minors[min].magic != MAGIC {
        CountError(minors[min].magic);
        return;
      }
      FreeBlock(min, ptr);
      assert mem[..] == old(mem[..]);
    }

    /** Bookkeeping for a bad pointer. */
    method CountError(magic: nat)
      modifies `errorCount, `possibleOverruns
      ensures errorCount == old(errorCount) + 1
      ensures possibleOverruns == old(possibleOverruns) + (if Overrun(magic) then 1 else 0)
    {
      errorCount := errorCount + 1;
      if Overrun(magic) {
        possibleOverruns := possibleOverruns + 1;
      }
    }

    /** The part of kfree that unlinks a live block. */
    method FreeBlock(min: nat, ghost ptr: nat)
      requires Valid() && Live(view, ptr) && min == LiveBlock(view, ptr).addr
      modifies `memRoot, `bestBet, `allocatedBytes, `inuseBytes, `majors, `minors, `view, `log
      ensures Valid() && Freed(old(view), ptr, view, old(log), log) && HintMoved(old(view), ptr, old(bestBet), bestBet)
      ensures !Live(view, ptr)
      ensures log == old(log) ==> min in minors && minors[min].magic == 0xdead_dead
    {
      hide HeapOk, MajorsRep, MinorsRep, TagsOk, InRange, NoneEmpty, HintFreed, Live;
      ghost var i: nat, j: nat :| At(view, ptr, i, j);
      LiveBlockAt(view, ptr, i, j);
      ReleasedDead(view, ptr, i, j);
      ghost var majors0, minors0 := majors, minors;
      var maj := Detach(min, i, j);
      if majors[maj].first == 0 {
        DropMajor(maj, i, j, majors0, minors0);
      } else {
        KeepMajor(maj, i, j, majors0, minors0);
      }
      FreedBy(old(view), ptr, i, j, view, old(log), log, old(bestBet), bestBet);
    }

    /** Take a block off the books and out of its major. */
    method Detach(min: nat, ghost i: nat, ghost j: nat) returns (maj: nat)
      requires Valid() && IsBlock(view, i, j) && min == view[i].blocks[j].addr
      modifies `inuseBytes, `majors, `minors
      ensures Pending(maj, i, j, old(majors), old(minors))
      ensures maj in majors && (majors[maj].first == 0 <==> |view[i].blocks| == 1)
      ensures min in minors && minors[min].magic == 0xdead_dead
    {
      hide HeapOk, MajorsRep, MinorsRep, TagsOk, InRange, NoneEmpty, LinkedOut;
      FreeFacts(view, i, j, majors, minors);
      ReleaseTotals(view, i, j);
      FirstLeft(view, i, j, majors);
      maj := minors[min].block;
      inuseBytes := inuseBytes - minors[min].size;
      TakeOut(min, maj, i, j);
    }

    /** Block j of major i has been taken out of its major, and that is all. */
    ghost predicate Pending(maj: nat, i: nat, j: nat, majors0: Majors, minors0: Minors)
      reads this, mem
    {
      && Represents(view, majors0, minors0, mem[..]) && NoneEmpty(view)
      && IsBlock(view, i, j) && maj == view[i].addr
      && MajorAt(view, majors0, i) && majors0[maj].usage >= view[i].blocks[j].size + MINOR_HEADER
      && majors == WithoutBlock(view, i, j, majors0)
      && LinkedOut(view[i], j, minors0, minors)
      && memRoot == AddrOf(view, 0) && Hinted(view, bestBet)
      && inuseBytes == InUse(Release(view, i, j)) && allocatedBytes == Allocated(view)
    }

    /** The end of kfree when the major is empty now. */
    method DropMajor(maj: nat, ghost i: nat, ghost j: nat, ghost majors0: Majors, ghost minors0: Minors)
      requires Pending(maj, i, j, majors0, minors0) && |view[i].blocks| == 1
      modifies `memRoot, `bestBet, `allocatedBytes, `majors, `minors, `view, `log
      ensures Valid() && FreedAt(old(view), i, j, view, old(log), log)
              && bestBet == HintFreed(old(view), i, j, old(bestBet))
    {
      hide HeapOk, MajorsRep, MinorsRep, TagsOk, InRange, NoneEmpty;
      ReleaseOk(view, i, j);
      ReleaseTotals(view, i, j);
      StillListed(view, i, j, majors0);
      ghost var majors1, minors1 := majors, minors;
      ReturnMajor(maj, view, i);
      FreeDrops(view, i, j, majors0, minors0, mem[..], majors1, minors1, majors, minors);
      view := Release(view, i, j);
    }

    /** The end of kfree when the major still holds a block. */
    method KeepMajor(maj: nat, ghost i: nat, ghost j: nat, ghost majors0: Majors, ghost minors0: Minors)
      requires Pending(maj, i, j, majors0, minors0) && |view[i].blocks| > 1
      modifies `bestBet, `view
      ensures Valid() && FreedAt(old(view), i, j, view, old(log), log)
              && bestBet == HintFreed(old(view), i, j, old(bestBet))
    {
      hide MajorsRep, MinorsRep, InRange, NoneEmpty, Release, WithoutBlock, Size, IndexOf, AddrOf, InUse,
           Allocated, BlockAddr, ToInt32;
      FreeKeeps(view, i, j, majors0, minors0, mem[..], minors, bestBet);
      ReleaseOk(view, i, j);
      ReleaseTotals(view, i, j);
      if bestBet != 0 {
        HintedMajor(Release(view, i, j), majors, bestBet);
      }
      KeptRoom(view, i, j, majors);
      BetterHint(maj);
      view := Release(view, i, j);
    }

    /** Take a block out of its major's account and chain. */
    method TakeOut(min: nat, maj: nat, ghost i: nat, ghost j: nat)
      requires HeapOk(view) && NoneEmpty(view) && MajorsRep(view, majors) && MinorsRep(view, minors)
      requires IsBlock(view, i, j) && min == view[i].blocks[j].addr && maj == view[i].addr
      requires maj in majors && majors[maj].usage >= view[i].blocks[j].size + MINOR_HEADER
      modifies `majors, `minors
      ensures majors == WithoutBlock(view, i, j, old(majors))
      ensures LinkedOut(view[i], j, old(minors), minors)
      ensures min in minors && minors[min].magic == 0xdead_dead
    {
      FreeFacts(view, i, j, majors, minors);
      majors := majors[maj := majors[maj].(usage := majors[maj].usage - (minors[min].size + MINOR_HEADER))];
      UnlinkMinor(min, view[i], j);
      if minors[min].prev == 0 {
        majors := majors[maj := majors[maj].(first := minors[min].next)];
      }
    }

    /**
     After a block was freed: of the hinted major and the block's, the hint goes to the one that seems
     to have more room, and stays on a tie. Without a hint there is none afterwards either.
     */
    method BetterHint(maj: nat)
      requires maj in majors && (bestBet != 0 ==> bestBet in majors)
      modifies `bestBet
      ensures old(bestBet) == 0 ==> bestBet == 0
      ensures old(bestBet) != 0 ==>
                && bestBet in {old(bestBet), maj}
                && SignedRoom(majors, bestBet) >= SignedRoom(majors, maj)
                && SignedRoom(majors, bestBet) >= SignedRoom(majors, old(bestBet))
                && (SignedRoom(majors, old(bestBet)) == SignedRoom(majors, maj) ==> bestBet == old(bestBet))
    {
      if bestBet != 0 {
        var bestSize := ToInt32(majors[bestBet].size - majors[bestBet].usage);
        var majSize := ToInt32(majors[maj].size - majors[maj].usage);
        if majSize > bestSize {
          bestBet := maj;
        }
      }
    }

    /** Mark a minor dead and link its neighbours to each other: the chain is that without block j. */
    method UnlinkMinor(min: nat, ghost m: Major, ghost j: nat)
      requires MajorOk(m) && ChainRep(m, minors) && j < |m.blocks| && min == m.blocks[j].addr
      modifies `minors
      ensures LinkedOut(m, j, old(minors), minors) && ChainRep(RemoveBlock(m, j), minors)
      ensures min in old(minors) && min in minors && minors[min] == old(minors)[min].(magic := DEAD)
    {
      hide MajorOk, ChainRep, LinkedOut, RemoveBlock;
      ghost var before := minors;
      MinorFacts(m, j, minors);
      UnlinkedOut(m, j, minors);
      minors := minors[min := minors[min].(magic := DEAD)];
      if minors[min].next != 0 {
        minors := minors[minors[min].next := minors[minors[min].next].(prev := minors[min].prev)];
      }
      if minors[min].prev != 0 {
        minors := minors[minors[min].prev := minors[minors[min].prev].(next := minors[min].next)];
      }
      assert minors == WithoutMinor(before, min);
      LinkOutChain(m, j, before, minors);
    }

    /**
     Unlink an empty major and give it back: the links, the root and the hint are those of the list
     without it, and the page source gets its range whole.
     */
    method ReturnMajor(maj: nat, ghost v: seq<Major>, ghost i: nat)
      requires HeapOk(v) && i < |v| && maj == v[i].addr && Listed(v, majors, i)
      requires memRoot == AddrOf(v, 0) && Hinted(v, bestBet)
      modifies `memRoot, `bestBet, `allocatedBytes, `majors, `minors, `log
      ensures Dropped(v, i, old(majors), majors)
      ensures memRoot == AddrOf(v[..i] + v[i+1..], 0) && Hinted(v[..i] + v[i+1..], bestBet)
      ensures bestBet == if old(bestBet) == maj then 0 else old(bestBet)
      ensures allocatedBytes == old(allocatedBytes) - Size(v[i])
      ensures minors == Forget(old(minors), maj, maj + Size(v[i]))
      ensures log == old(log) + [GivenBack(maj, v[i].pages)]
    {
      hide HeapOk, Dropped, Hinted, Size, Forget;
      ghost var before := majors;
      ListedLinks(v, i, majors);
      UnlinkedMajor(v, i, majors);
      DropHint(v, i, bestBet);
      if memRoot == maj {
        memRoot := majors[maj].next;
      }
      if bestBet == maj {
        bestBet := 0;
      }
      if majors[maj].prev != 0 {
        majors := majors[majors[maj].prev := majors[majors[maj].prev].(next := majors[maj].next)];
      }
      if majors[maj].next != 0 {
        majors := majors[majors[maj].next := majors[majors[maj].next].(prev := majors[maj].prev)];
      }
      allocatedBytes := allocatedBytes - majors[maj].size;
      log := log + [GivenBack(maj, majors[maj].pages)];
      minors := Forget(minors, maj, maj + majors[maj].size);
      majors := majors - {maj};
      assert majors == WithoutMajor(before, maj);
    }

    // ---------- memory ----------

    /** liballoc_memcpy: whole words while four bytes are left, then single bytes. */
    method Memcpy(dst: nat, src: nat, n: nat)
      requires dst + n <= mem.Length && src + n <= mem.Length
      requires dst <= src || src + n <= dst
      modifies mem
      ensures mem[..] == Copied(old(mem[..]), dst, src, n) == CopyBytes(old(mem[..]), dst, src, n)
    {
      ghost var bytes := mem[..];
      var ldest, lsrc, left := dst, src, n;
      while left >= 4
        invariant 0 <= left <= n && ldest == dst + (n - left) && lsrc == src + (n - left)
        invariant SameBut(bytes, mem[..], dst, ldest)
        invariant forall a :: dst <= a < ldest ==> mem[a] == bytes[src + (a - dst)]
      {
        mem[ldest], mem[ldest + 1], mem[ldest + 2], mem[ldest + 3] :=
          mem[lsrc], mem[lsrc + 1], mem[lsrc + 2], mem[lsrc + 3];
        ldest, lsrc, left := ldest + 4, lsrc + 4, left - 4;
      }
      while left > 0
        invariant 0 <= left <= n && ldest == dst + (n - left) && lsrc == src + (n - left)
        invariant SameBut(bytes, mem[..], dst, ldest)
        invariant forall a :: dst <= a < ldest ==> mem[a] == bytes[src + (a - dst)]
      {
        mem[ldest] := mem[lsrc];
        ldest, lsrc, left := ldest + 1, lsrc + 1, left - 1;
      }
      CopiedFrom(bytes, dst, src, n, mem[..]);
      CopyBytesAt(bytes, dst, src, n);
    }

    /** liballoc_memset. */
    method Memset(s: nat, c: byte, n: nat)
      requires s + n <= mem.Length && n < LIMIT
      modifies mem
      ensures SameBut(old(mem[..]), mem[..], s, s + n)
      ensures forall a :: s <= a < s + n ==> mem[a] == c
    {
      var i := 0;
      while i < n
        invariant i <= n
        invariant SameBut(old(mem[..]), mem[..], s, s + i)
        invariant forall a :: s <= a < s + i ==> mem[a] == c
      {
        mem[s + i] := c;
        i := i + 1;
      }
    }

    /** Copy into the region of a live block. */
    method CopyInto(dst: nat, src: nat, n: nat, ghost i: nat, ghost j: nat)
      requires Valid() && At(view, dst, i, j) && n <= view[i].blocks[j].req
      requires dst + n <= mem.Length && src + n <= mem.Length && (dst + n <= src || src + n <= dst)
      modifies mem
      ensures Valid() && mem[..] == Copied(old(mem[..]), dst, src, n)
    {
      CopiedAt(mem[..], dst, src, n);
      ClientWrites(view, mem[..], Copied(mem[..], dst, src, n), i, j);
      Memcpy(dst, src, n);
    }

    /** Zero the region of a live block. */
    method Clear(p: nat, n: nat, ghost i: nat, ghost j: nat)
      requires Valid() && At(view, p, i, j) && n == view[i].blocks[j].req
      requires p + n <= mem.Length && n < LIMIT
      modifies mem
      ensures Valid() && SameBut(old(mem[..]), mem[..], p, p + n)
      ensures forall a :: p <= a < p + n ==> mem[a] == 0
    {
      ghost var bytes := mem[..];
      Memset(p, 0, n);
      ClientWrites(view, bytes, mem[..], i, j);
    }

    // ---------- kcalloc ----------

    /**
     kcalloc, when the allocation succeeds or there is nothing to clear. The product is cut to an int;
     as many bytes are allocated and zeroed, and no other client's bytes change.
     */
    method Kcalloc(nobj: nat, size: nat, grant: nat) returns (p: nat)
      requires Valid() && ToInt32(nobj * size) >= 0
      requires CanAsk(view, ToInt32(nobj * size), grant)
      requires Alloc(view, bestBet, ToInt32(nobj * size), grant).1.Some? || ToInt32(nobj * size) == 0
      modifies this, mem
      ensures Valid()
      ensures (view, p) == (Alloc(old(view), old(bestBet), ToInt32(nobj * size), grant).0,
                            AllocPtr(old(view), old(bestBet), ToInt32(nobj * size), grant))
      ensures bestBet == HintAfter(old(view), old(bestBet), ToInt32(nobj * size), grant)
      ensures p + ToInt32(nobj * size) <= mem.Length && forall a :: p <= a < p + ToInt32(nobj * size) ==> mem[a] == 0
      ensures OthersKept(old(view), p, old(mem[..]), mem[..])
    {
      hide HeapOk, MajorsRep, MinorsRep, TagsOk, NoneEmpty, Locate, Placement, HintAfter;
      var realSize := ToInt32(nobj * size);
      ghost var v0, bet0, bytes := view, bestBet, mem[..];
      ghost var at := Placement(v0, bet0, realSize);
      p := Kmalloc(realSize, grant);
      if p == 0 {
        Memset(p, 0, realSize);
        assert mem[..] == bytes;
      } else {
        NewRegion(v0, bet0, realSize, grant, mem.Length);
        Clear(p, realSize, at.0, at.1);
        AllocThenWrite(v0, bet0, realSize, grant, bytes, mem[..]);
      }
    }

    // ---------- krealloc ----------

    /** Allocate a larger block and copy a live one into it. */
    method AllocCopy(p: nat, had: nat, req: nat, grant: nat, ghost i: nat, ghost j: nat) returns (r: nat)
      requires Valid() && At(view, p, i, j) && had == view[i].blocks[j].req && had < req
      requires CanAsk(view, req, grant) && (Alloc(view, bestBet, req, grant).1.Some? || had == 0)
      modifies this, mem
      ensures Valid() && At(view, p, i, Shifted(old(view), old(bestBet), req, i, j))
      ensures (view, r) == (Alloc(old(view), old(bestBet), req, grant).0, AllocPtr(old(view), old(bestBet), req, grant))
      ensures log == AskLog(old(log), old(view), old(bestBet), req, grant)
      ensures bestBet == HintAfter(old(view), old(bestBet), req, grant)
      ensures Moved(p, had, r, old(mem[..]), mem[..]) && OthersKept(old(view), p, old(mem[..]), mem[..])
    {
      hide HeapOk, MajorsRep, MinorsRep, TagsOk, NoneEmpty, Locate, Placement, Shifted, Copied, HintAfter;
      ghost var v0, bet0, bytes := view, bestBet, mem[..];
      ghost var at := Placement(v0, bet0, req);
      RegionInMemory(v0, i, j, mem.Length);
      r := Kmalloc(req, grant);
      if r == 0 {
        RefusedKeeps(v0, bet0, req, grant, i, j);
        NothingCopied(mem[..], r, p);
        Memcpy(r, p, had);
      } else {
        assert view == Alloc(v0, bet0, req, grant).0;
        GrowApart(v0, bet0, req, grant, p, i, j, mem.Length);
        AllocKeepsContents(v0, bet0, req, grant, bytes, i, j);
        MovedBy(v0[i].blocks[j], p, had, r, bytes, mem[..]);
        CopyInto(r, p, had, at.0, at.1);
        AllocThenWrite(v0, bet0, req, grant, bytes, mem[..]);
      }
    }

    /** krealloc of a live block to a larger size, when the allocation succeeds or there is nothing to copy. */
    method Grow(p: nat, had: nat, req: nat, grant: nat, ghost i: nat, ghost j: nat) returns (r: nat)
      requires Valid() && At(view, p, i, j) && had == view[i].blocks[j].req && had < req
      requires CanAsk(view, req, grant) && (Alloc(view, bestBet, req, grant).1.Some? || had == 0)
      modifies this, mem
      ensures Valid() && r == AllocPtr(old(view), old(bestBet), req, grant)
      ensures Freed(Alloc(old(view), old(bestBet), req, grant).0, p, view,
                    AskLog(old(log), old(view), old(bestBet), req, grant), log)
      ensures HintMoved(Alloc(old(view), old(bestBet), req, grant).0, p,
                        HintAfter(old(view), old(bestBet), req, grant), bestBet)
      ensures Moved(p, had, r, old(mem[..]), mem[..]) && OthersKept(old(view), p, old(mem[..]), mem[..])
    {
      hide Represents, HeapOk, NoneEmpty, Alloc, AllocPtr, Locate, Placement, Shifted, Copied, TagOk, HintAfter,
           HintMoved;
      r := AllocCopy(p, had, req, grant, i, j);
      Kfree(p);
    }

    /** Record a smaller request. */
    method ShrinkBlock(min: nat, req: nat, ghost i: nat, ghost j: nat)
      requires Valid() && IsBlock(view, i, j) && min == view[i].blocks[j].addr && req <= view[i].blocks[j].req
      modifies `minors, `view
      ensures Valid() && view == Shrink(old(view), i, j, req)
    {
      hide HeapOk, MajorsRep, MinorsRep, TagsOk, InRange, NoneEmpty;
      FreeFacts(view, i, j, majors, minors);
      ghost var minors' := minors[min := minors[min].(reqSize := req)];
      ShrinkRep(view, i, j, req, majors, minors, mem[..], minors');
      ShrinkKeeps(view, i, j, req, bestBet);
      minors := minors[min := minors[min].(reqSize := req)];
      view := Shrink(view, i, j, req);
    }

    /** This call will have to allocate. */
    ghost predicate Allocates(p: nat, req: nat)
      reads this
    {
      req != 0 && (p == 0 || (Live(view, p) && LiveBlock(view, p).req < req))
    }

    /**
     krealloc. A live block is shrunk in place, or moved to a larger block with its bytes; either
     way no byte of any other client's region changes. Growing a block that holds bytes assumes that
     the allocation succeeds, because its result is used untested.
     */
    method Krealloc(p: nat, req: nat, grant: nat) returns (r: nat)
      requires Valid() && (p == 0 || Live(view, p) || Stale(p))
      requires Allocates(p, req) ==> CanAsk(view, req, grant)
      requires Allocates(p, req) && p != 0 ==> Alloc(view, bestBet, req, grant).1.Some? || LiveBlock(view, p).req == 0
      modifies this, mem
      ensures Valid()
      ensures req == 0 && Live(old(view), p) ==>
                Freed(old(view), p, view, old(log), log) && HintMoved(old(view), p, old(bestBet), bestBet)
      ensures req == 0 || (p != 0 && !Live(old(view), p)) ==> r == 0
      ensures p == 0 && req != 0 ==>
                Decided(old(view), old(bestBet), req, grant, old(mem[..]), r)
                && bestBet == HintAfter(old(view), old(bestBet), req, grant)
      ensures p != 0 && !Live(old(view), p) ==> errorCount == old(errorCount) + 1
      ensures !Live(old(view), p) && (p != 0 || req == 0) ==>
                view == old(view) && log == old(log) && bestBet == old(bestBet)
      ensures req != 0 && p != 0 && Live(old(view), p) && req <= LiveBlock(old(view), p).req ==>
                r == p && Shrunk(old(view), p, req, view) && log == old(log) && bestBet == old(bestBet)
      ensures req == 0 || (p != 0 && (Live(old(view), p) ==> req <= LiveBlock(old(view), p).req)) ==>
                mem[..] == old(mem[..])
      ensures p != 0 && Live(old(view), p) && req > LiveBlock(old(view), p).req ==>
                && r == AllocPtr(old(view), old(bestBet), req, grant)
                && Freed(Alloc(old(view), old(bestBet), req, grant).0, p, view,
                         AskLog(old(log), old(view), old(bestBet), req, grant), log)
                && HintMoved(Alloc(old(view), old(bestBet), req, grant).0, p,
                             HintAfter(old(view), old(bestBet), req, grant), bestBet)
                && Moved(p, LiveBlock(old(view), p).req, r, old(mem[..]), mem[..])
                && OthersKept(old(view), p, old(mem[..]), mem[..])
    {
      hide HeapOk, MajorsRep, MinorsRep, TagsOk, InRange, NoneEmpty, Alloc, Moved, OthersKept, Freed,
           LiveBlock, HintAfter, HintMoved;
      if req == 0 {
        Kfree(p);
        return 0;
      }
      if p == 0 {
        r := Kmalloc(req, grant);
        return;
      }
      if Live(view, p) {
        LiveHeader(view, p, minors, mem[..]);
      }
      var start := Unalign(p);
      var min := start - MINOR_HEADER;
      if minors[min].magic != MAGIC {
        CountError(minors[min].magic);
        return 0;
      }
      ghost var i: nat, j: nat :| At(view, p, i, j);
      LiveBlockAt(view, p, i, j);
      LiveSizes(view, p, minors, i, j);
      var had := minors[min].reqSize;
      if had >= req {
        ShrinkBlock(min, req, i, j);
        r := p;
        return;
      }
      r := Grow(p, had, req, grant, i, j);
    }
  }

  /** A 32-bit unsigned difference seen as a signed int. */
  function ToInt32(x: int): int {
    var w := x % LIMIT;
    if w < LIMIT / 2 then w else w - LIMIT
  }

  /** The free space of a major as kfree compares it: a 32-bit difference taken for a signed int. */
  function SignedRoom(majors: Majors, a: nat): int
    requires a in majors
  {
    ToInt32(majors[a].size - majors[a].usage)
  }

  function Start16(ptr: nat, tag: byte): int {
    if tag < 32 then ptr - tag else ptr
  }

  /** Block j of major i has been freed: the blocks and the events after that. */
  ghost predicate FreedAt(v: seq<Major>, i: nat, j: nat, v': seq<Major>, log: seq<PageEvent>, log': seq<PageEvent>)
    requires IsBlock(v, i, j)
  {
    v' == Release(v, i, j) && log' == FreeLog(log, v, i)
  }

  /** The block of a live pointer has been freed. */
  ghost predicate Freed(v: seq<Major>, ptr: nat, v': seq<Major>, log: seq<PageEvent>, log': seq<PageEvent>) {
    exists i: nat, j: nat {:trigger At(v, ptr, i, j)} :: At(v, ptr, i, j) && FreedAt(v, i, j, v', log, log')
  }

  /**
   The hint after block j of major i was freed: it leaves a major that is given back, and otherwise
   goes to the block's major if that now seems to have more room than the hinted one.
   */
  function HintFreed(v: seq<Major>, i: nat, j: nat, bet: nat): nat
    requires IsBlock(v, i, j)
  {
    var v' := Release(v, i, j);
    if |v[i].blocks| == 1 then (if bet == v[i].addr then 0 else bet)
    else if bet != 0 && ToInt32(HintRoom(v', v[i].addr)) > ToInt32(HintRoom(v', bet)) then v[i].addr
    else bet
  }

  ghost predicate HintMoved(v: seq<Major>, ptr: nat, bet: nat, bet': nat) {
    exists i: nat, j: nat {:trigger At(v, ptr, i, j)} :: At(v, ptr, i, j) && bet' == HintFreed(v, i, j, bet)
  }

  /** A major is given back, whole, when its last block goes. */
  function FreeLog(log: seq<PageEvent>, v: seq<Major>, i: nat): seq<PageEvent>
    requires i < |v|
  {
    if |v[i].blocks| == 1 then log + [GivenBack(v[i].addr, v[i].pages)] else log
  }

  /** The events after a request, by whether the page source had to be asked. */
  function AskLog(log: seq<PageEvent>, v: seq<Major>, bet: nat, req: nat, grant: nat): seq<PageEvent> {
    if Locate(v, bet, Need(req)).Some? then log else log + [Asked(PagesFor(req + SLACK), grant)]
  }

  /** The block of a live pointer has had a smaller request recorded. */
  ghost predicate Shrunk(v: seq<Major>, p: nat, req: nat, v': seq<Major>) {
    exists i: nat, j: nat {:trigger At(v, p, i, j)} ::
      At(v, p, i, j) && req <= v[i].blocks[j].req && v' == Shrink(v, i, j, req)
  }

  /** What krealloc does to a live block is a step of the runs the invariant is proved for. */
  lemma ReallocSteps(v: seq<Major>, bet: nat, p: nat, req: nat, grant: nat, v': seq<Major>,
                     log: seq<PageEvent>, log': seq<PageEvent>)
    requires HeapOk(v) && Live(v, p) && req != 0
    requires if req <= LiveBlock(v, p).req then Shrunk(v, p, req, v')
             else Asks(v, req, grant) && (Alloc(v, bet, req, grant).1.Some? || LiveBlock(v, p).req == 0)
                  && Freed(Alloc(v, bet, req, grant).0, p, v', log, log')
    ensures Step(v, Resize(p, req, bet, grant), v')
  {
    var i: nat, j: nat :| At(v, p, i, j);
    LiveBlockAt(v, p, i, j);
    if req <= LiveBlock(v, p).req {
      var k: nat, l: nat :| At(v, p, k, l) && v' == Shrink(v, k, l, req);
      PtrUnique(v, p, i, j, k, l);
      assert ResizedAt(v, p, req, bet, grant, v', i, j);
    } else {
      var w := Alloc(v, bet, req, grant).0;
      var k: nat, l: nat :| At(w, p, k, l) && v' == Release(w, k, l);
      assert At(Alloc(v, bet, req, grant).0, p, k, l);
      assert ResizedAt(v, p, req, bet, grant, v', i, j);
    }
  }

  lemma LiveSizes(v: seq<Major>, p: nat, minors: Minors, i: nat, j: nat)
    requires At(v, p, i, j) && MinorsRep(v, minors)
    ensures v[i].blocks[j].addr in minors && minors[v[i].blocks[j].addr].reqSize == v[i].blocks[j].req
  {
    assert ChainRep(v[i], minors) && MinorAt(v[i], minors, j);
  }

  /**
   The block kcalloc gets holds the whole array exactly when the true product fits an int; beyond
   that it is shorter than the array.
   */
  lemma {:induction false} CallocCovers(v: seq<Major>, bet: nat, nobj: nat, size: nat, grant: nat)
    requires ToInt32(nobj * size) >= 0 && Alloc(v, bet, ToInt32(nobj * size), grant).1.Some?
    ensures var b := Alloc(v, bet, ToInt32(nobj * size), grant).1.value;
            nobj * size <= b.req <==> nobj * size < LIMIT / 2
  {
    hide Locate, InsertBlock;
    var n := nobj * size;
    assert n % LIMIT <= n;
    assert Alloc(v, bet, ToInt32(n), grant).1.value.req == ToInt32(n);
  }

  /** It happens: in an empty heap, an array of 65536 objects of 65537 bytes gets a block of 65536 bytes. */
  lemma {:induction false} CallocFallsShort()
    ensures var n := 0x1_0000 * 0x1_0001;
            && ToInt32(n) >= 0 && Asks([], ToInt32(n), HEAP_PAGE)
            && Alloc([], 0, ToInt32(n), HEAP_PAGE).1.Some?
            && Alloc([], 0, ToInt32(n), HEAP_PAGE).1.value.req == 0x1_0000 < n
  {
    assert ToInt32(0x1_0000 * 0x1_0001) == 0x1_0000;
    assert Locate([], 0, Need(0x1_0000)).None?;
  }

  lemma ShrinkKeeps(v: seq<Major>, i: nat, j: nat, req: nat, bet: nat)
    requires HeapOk(v) && NoneEmpty(v) && IsBlock(v, i, j) && req <= v[i].blocks[j].req
    ensures var v' := Shrink(v, i, j, req);
            && NoneEmpty(v') && AddrOf(v', 0) == AddrOf(v, 0)
            && (KernelHeap.Hinted(v, bet) ==> KernelHeap.Hinted(v', bet))
            && InUse(v') == InUse(v) && Allocated(v') == Allocated(v)
  {
    var m := v[i].(blocks := v[i].blocks[j := v[i].blocks[j].(req := req)]);
    ShrinkOk(v, i, j, req);
    KeptHint(v, i, m, bet);
    ShrinkTotals(v[i], j, req);
    ReplaceTotals(v, i, m);
  }

  lemma FreedBy(v: seq<Major>, ptr: nat, i: nat, j: nat, v': seq<Major>, log: seq<PageEvent>, log': seq<PageEvent>,
                bet: nat, bet': nat)
    requires At(v, ptr, i, j) && FreedAt(v, i, j, v', log, log') && bet' == HintFreed(v, i, j, bet)
    ensures Freed(v, ptr, v', log, log') && HintMoved(v, ptr, bet, bet')
  {
  }

  /** The header of the major that lost a block shows its room. */
  lemma {:induction false} KeptRoom(v: seq<Major>, i: nat, j: nat, majors: Majors)
    requires HeapOk(v) && IsBlock(v, i, j) && |v[i].blocks| > 1
    requires HeapOk(Release(v, i, j)) && MajorsRep(Release(v, i, j), majors)
    requires IndexOf(Release(v, i, j), v[i].addr) < |Release(v, i, j)|
    ensures v[i].addr in majors && v[i].addr != 0
    ensures majors[v[i].addr].size - majors[v[i].addr].usage == HintRoom(Release(v, i, j), v[i].addr)
  {
    hide HeapOk, MajorsRep;
    PositiveAddr(v, i);
    HintedMajor(Release(v, i, j), majors, v[i].addr);
  }

  /** The minor headers after UnlinkMinor. */
  function WithoutMinor(minors: Minors, min: nat): Minors {
    if min !in minors then minors
    else
      var h := minors[min];
      var m1 := minors[min := h.(magic := DEAD)];
      var m2 := if h.next != 0 && h.next in m1 then m1[h.next := m1[h.next].(prev := h.prev)] else m1;
      if h.prev != 0 && h.prev in m2 then m2[h.prev := m2[h.prev].(next := h.next)] else m2
  }

  /** A major's neighbours have headers of their own. */
  ghost predicate Linked(majors: Majors, maj: nat) {
    && maj in majors
    && (majors[maj].prev != 0 ==> majors[maj].prev in majors && majors[maj].prev != maj)
    && (majors[maj].next != 0 ==> majors[maj].next in majors && majors[maj].next != maj)
  }

  /** The major headers after ReturnMajor. */
  function WithoutMajor(majors: Majors, maj: nat): Majors {
    if maj !in majors then majors
    else
      var h := majors[maj];
      var m1 := if h.prev != 0 && h.prev in majors then majors[h.prev := majors[h.prev].(next := h.next)] else majors;
      var m2 := if h.next != 0 && h.next in m1 then m1[h.next := m1[h.next].(prev := h.prev)] else m1;
      m2 - {maj}
  }

  /** The headers of majors once block j of major i is gone. */
  function WithoutBlock(v: seq<Major>, i: nat, j: nat, majors: Majors): Majors
    requires i < |v| && j < |v[i].blocks| && v[i].addr in majors
    requires majors[v[i].addr].usage >= v[i].blocks[j].size + MINOR_HEADER
  {
    var h := majors[v[i].addr];
    majors[v[i].addr := h.(usage := h.usage - (v[i].blocks[j].size + MINOR_HEADER),
                           first := if j == 0 then BlockAddr(v[i], 1) else h.first)]
  }

  /** What the header of a block says of its neighbours. */
  lemma {:induction false} MinorFacts(m: Major, j: nat, minors: Minors)
    requires MajorOk(m) && ChainRep(m, minors) && j < |m.blocks|
    ensures MinorAt(m, minors, j)
    ensures BlockAddr(m, j - 1) == 0 <==> j == 0
    ensures BlockAddr(m, j + 1) == 0 <==> j + 1 == |m.blocks|
    ensures j > 0 ==> BlockAddr(m, j - 1) in minors && BlockAddr(m, j - 1) != m.blocks[j].addr
    ensures j + 1 < |m.blocks| ==> BlockAddr(m, j + 1) in minors && BlockAddr(m, j + 1) != m.blocks[j].addr
    ensures 0 < j < |m.blocks| - 1 ==> BlockAddr(m, j - 1) != BlockAddr(m, j + 1)
  {
    hide MajorOk;
    assert MinorAt(m, minors, j);
    AddrIsNull(m, j + 1);
    if j > 0 {
      BlockAddrUnique(m, j - 1, j);
      AddrIsNull(m, j - 1);
      assert MinorAt(m, minors, j - 1);
    }
    if j + 1 < |m.blocks| {
      BlockAddrUnique(m, j + 1, j);
      assert MinorAt(m, minors, j + 1);
      if j > 0 { BlockAddrUnique(m, j - 1, j + 1); }
    }
  }

  lemma {:induction false} UnlinkedOut(m: Major, j: nat, minors: Minors)
    requires MajorOk(m) && ChainRep(m, minors) && j < |m.blocks|
    ensures LinkedOut(m, j, minors, WithoutMinor(minors, m.blocks[j].addr))
  {
    hide MajorOk, ChainRep;
    MinorFacts(m, j, minors);
  }

  lemma {:induction false} FreeKeeps(v: seq<Major>, i: nat, j: nat, majors: Majors, minors: Minors, bytes: seq<byte>,
                                     minors': Minors, bet: nat)
    requires Represents(v, majors, minors, bytes) && NoneEmpty(v) && IsBlock(v, i, j) && |v[i].blocks| > 1
    requires MajorAt(v, majors, i) && majors[v[i].addr].usage >= v[i].blocks[j].size + MINOR_HEADER
    requires LinkedOut(v[i], j, minors, minors')
    ensures var v' := Release(v, i, j);
            && Represents(v', WithoutBlock(v, i, j, majors), minors', bytes)
            && AddrOf(v', 0) == AddrOf(v, 0)
            && (KernelHeap.Hinted(v, bet) ==> KernelHeap.Hinted(v', bet))
            && IndexOf(v', v[i].addr) < |v'|
            && WithoutBlock(v, i, j, majors)[v[i].addr].first != 0
  {
    FreeFirst(v, i, j);
    KeptMajors(v, i, j, majors);
    RemoveRep(v, i, j, majors, minors, bytes, WithoutBlock(v, i, j, majors), minors');
    KeptHint(v, i, RemoveBlock(v[i], j), bet);
  }

  lemma {:induction false} KeptMajors(v: seq<Major>, i: nat, j: nat, majors: Majors)
    requires IsBlock(v, i, j) && |v[i].blocks| > 1 && HeapOk(v)
    requires MajorAt(v, majors, i) && majors[v[i].addr].usage >= v[i].blocks[j].size + MINOR_HEADER
    ensures WithoutBlock(v, i, j, majors) == majors[v[i].addr := MajorRec(Release(v, i, j), i)]
  {
    hide HeapOk;
    RemoveTotals(v[i], j);
    FreeFirst(v, i, j);
    ReplacedRec(v, i, RemoveBlock(v[i], j));
    assert |RemoveBlock(v[i], j).blocks| == |v[i].blocks| - 1;
  }

  lemma ReplacedRec(v: seq<Major>, i: nat, m: Major)
    requires i < |v| && m.addr == v[i].addr && m.pages == v[i].pages
    ensures MajorRec(v[i := m], i) == MajorRec(v, i).(usage := Usage(m), first := BlockAddr(m, 0))
  {
  }

  lemma KeptHint(v: seq<Major>, i: nat, m: Major, bet: nat)
    requires i < |v| && m.addr == v[i].addr
    ensures AddrOf(v[i := m], 0) == AddrOf(v, 0) && IndexOf(v[i := m], m.addr) < |v|
    ensures KernelHeap.Hinted(v, bet) ==> KernelHeap.Hinted(v[i := m], bet)
  {
    var v' := v[i := m];
    assert v'[i].addr == m.addr;
    if IndexOf(v, bet) < |v| {
      assert v'[IndexOf(v, bet)].addr == bet;
    }
  }

  /** The major is empty exactly when its header's first link became NULL. */
  lemma FirstLeft(v: seq<Major>, i: nat, j: nat, majors: Majors)
    requires HeapOk(v) && IsBlock(v, i, j) && MajorAt(v, majors, i)
    requires majors[v[i].addr].usage >= v[i].blocks[j].size + MINOR_HEADER
    ensures WithoutBlock(v, i, j, majors)[v[i].addr].first == 0 <==> |v[i].blocks| == 1
  {
    AddrIsNull(v[i], 0);
    AddrIsNull(v[i], 1);
  }

  lemma FreeFirst(v: seq<Major>, i: nat, j: nat)
    requires HeapOk(v) && IsBlock(v, i, j) && |v[i].blocks| > 1
    ensures BlockAddr(RemoveBlock(v[i], j), 0) == if j == 0 then BlockAddr(v[i], 1) else BlockAddr(v[i], 0)
    ensures BlockAddr(RemoveBlock(v[i], j), 0) != 0
  {
    AddrIsNull(v[i], 0);
    AddrIsNull(v[i], 1);
  }

  /** The links, sizes and pages of major i are those of the list; its minors may be gone. */
  ghost predicate Listed(v: seq<Major>, majors: Majors, i: nat)
    requires i < |v|
  {
    && v[i].addr in majors
    && majors[v[i].addr].prev == AddrOf(v, i - 1) && majors[v[i].addr].next == AddrOf(v, i + 1)
    && majors[v[i].addr].size == Size(v[i]) && majors[v[i].addr].pages == v[i].pages
    && (i > 0 ==> AddrOf(v, i - 1) in majors)
    && (i + 1 < |v| ==> AddrOf(v, i + 1) in majors)
  }

  lemma {:induction false} ListedLinks(v: seq<Major>, i: nat, majors: Majors)
    requires HeapOk(v) && i < |v| && Listed(v, majors, i)
    ensures Linked(majors, v[i].addr)
    ensures (AddrOf(v, i - 1) == 0 <==> i == 0) && (AddrOf(v, i + 1) == 0 <==> i + 1 == |v|)
    ensures 0 < i < |v| - 1 ==> AddrOf(v, i - 1) != AddrOf(v, i + 1)
  {
    hide MajorOk;
    if i > 0 {
      AddrUnique(v, i - 1, i);
      PositiveAddr(v, i - 1);
    }
    if i + 1 < |v| {
      AddrUnique(v, i + 1, i);
      PositiveAddr(v, i + 1);
      if i > 0 { AddrUnique(v, i - 1, i + 1); }
    }
  }

  lemma {:induction false} PositiveAddr(v: seq<Major>, i: nat)
    requires HeapOk(v) && i < |v|
    ensures v[i].addr > 0
  {
    assert MajorOk(v[i]);
  }

  lemma {:induction false} UnlinkedMajor(v: seq<Major>, i: nat, majors: Majors)
    requires HeapOk(v) && i < |v| && Listed(v, majors, i)
    ensures Dropped(v, i, majors, WithoutMajor(majors, v[i].addr))
  {
    hide HeapOk;
    ListedLinks(v, i, majors);
  }

  lemma {:induction false} StillListed(v: seq<Major>, i: nat, j: nat, majors: Majors)
    requires HeapOk(v) && MajorsRep(v, majors) && IsBlock(v, i, j)
    requires MajorAt(v, majors, i) && majors[v[i].addr].usage >= v[i].blocks[j].size + MINOR_HEADER
    ensures Listed(v, WithoutBlock(v, i, j, majors), i)
  {
    hide HeapOk;
    assert i > 0 ==> MajorAt(v, majors, i - 1);
    assert i + 1 < |v| ==> MajorAt(v, majors, i + 1);
  }

  /** Dropping an emptied major gives the heap without it. */
  lemma {:induction false} FreeDrops(v: seq<Major>, i: nat, j: nat, majors: Majors, minors: Minors, bytes: seq<byte>,
                                     majors1: Majors, minors1: Minors, majors2: Majors, minors2: Minors)
    requires Represents(v, majors, minors, bytes) && IsBlock(v, i, j) && |v[i].blocks| == 1
    requires MajorAt(v, majors, i) && majors[v[i].addr].usage >= v[i].blocks[j].size + MINOR_HEADER
    requires majors1 == WithoutBlock(v, i, j, majors) && LinkedOut(v[i], j, minors, minors1)
    requires Dropped(v, i, majors1, majors2) && minors2 == Forget(minors1, v[i].addr, v[i].addr + Size(v[i]))
    ensures Release(v, i, j) == v[..i] + v[i+1..]
    ensures Represents(Release(v, i, j), majors2, minors2, bytes)
  {
    hide HeapOk, MajorOk, LinkedOut, Dropped;
    HeapMajorOk(v, i);
    LinkedOutInside(v[i], j, minors, minors1);
    ForgottenInside(v[i], minors, minors1);
    DroppedBase(v, i, j, majors, majors2);
    assert RemoveBlock(v[i], j).blocks == [];
    DropRep(v, i, j, majors, minors, bytes, majors2, minors2);
  }

  lemma {:induction false} HeapMajorOk(v: seq<Major>, i: nat)
    requires HeapOk(v) && i < |v|
    ensures MajorOk(v[i])
  {
  }

  /** Forgetting the headers inside a major changes nothing outside. */
  lemma {:induction false} ForgottenInside(m: Major, minors: Minors, minors': Minors)
    requires SameOutside(m, minors, minors')
    ensures SameOutside(m, minors, Forget(minors', m.addr, m.addr + Size(m)))
  {
  }

  lemma {:induction false} DroppedBase(v: seq<Major>, i: nat, j: nat, majors: Majors, majors': Majors)
    requires HeapOk(v) && IsBlock(v, i, j)
    requires MajorAt(v, majors, i) && majors[v[i].addr].usage >= v[i].blocks[j].size + MINOR_HEADER
    requires Dropped(v, i, WithoutBlock(v, i, j, majors), majors')
    ensures Dropped(v, i, majors, majors')
  {
    if i > 0 { AddrUnique(v, i - 1, i); }
    if i + 1 < |v| { AddrUnique(v, i + 1, i); }
  }

  lemma DropHint(v: seq<Major>, i: nat, bet: nat)
    requires HeapOk(v) && i < |v|
    ensures var v' := v[..i] + v[i+1..];
            && AddrOf(v', 0) == (if AddrOf(v, 0) == v[i].addr then AddrOf(v, i + 1) else AddrOf(v, 0))
            && (KernelHeap.Hinted(v, bet) ==> KernelHeap.Hinted(v', if bet == v[i].addr then 0 else bet))
  {
    var v', k := v[..i] + v[i+1..], IndexOf(v, bet);
    AddrUnique(v, 0, i);
    if bet != v[i].addr && k < |v| {
      assert v'[if k < i then k else k - 1].addr == bet;
    }
  }

  /** The block a live pointer belongs to. */
  ghost function LiveBlock(v: seq<Major>, ptr: nat): Block
    requires Live(v, ptr)
  {
    var i: nat, j: nat :| At(v, ptr, i, j);
    v[i].blocks[j]
  }

  lemma LiveBlockAt(v: seq<Major>, ptr: nat, i: nat, j: nat)
    requires HeapOk(v) && At(v, ptr, i, j)
    ensures LiveBlock(v, ptr) == v[i].blocks[j]
  {
    var b := LiveBlock(v, ptr);
    var k: nat, l: nat :| At(v, ptr, k, l) && v[k].blocks[l] == b;
    PtrUnique(v, ptr, i, j, k, l);
  }

  /** From a live pointer, the tag leads back to the block's header, which is marked live. */
  lemma LiveHeader(v: seq<Major>, ptr: nat, minors: Minors, bytes: seq<byte>)
    requires HeapOk(v) && MinorsRep(v, minors) && TagsOk(v, bytes) && Live(v, ptr)
    ensures 16 <= ptr < |bytes| + 16 && Start16(ptr, bytes[ptr - 16]) - MINOR_HEADER == LiveBlock(v, ptr).addr
    ensures LiveBlock(v, ptr).addr in minors && minors[LiveBlock(v, ptr).addr].magic == 0xc001_c0de
  {
    var i: nat, j: nat :| At(v, ptr, i, j);
    LiveBlockAt(v, ptr, i, j);
    assert TagOk(v[i].blocks[j], bytes);
    assert ChainRep(v[i], minors) && MinorAt(v[i], minors, j);
  }

  /** What is taken for an overrun ends with the lowest byte of a live header; the mark of a dead one does not. */
  lemma {:induction false} OverrunExact(magic: nat)
    ensures KernelHeap.Overrun(magic) <==> magic % 256 == 0xde
    ensures !KernelHeap.Overrun(0xdead_dead)
  {
    LowByte(magic, 0x1_0000);
    LowByte(magic, 0x100);
  }

  lemma {:induction false} LowByte(w: nat, k: nat)
    requires k > 0
    ensures w % (k * 256) % 256 == w % 256
  {
    var q, r := w / (k * 256), w % (k * 256);
    assert w == q * (k * 256) + r;
    assert w == (q * k + r / 256) * 256 + r % 256;
  }

  /** What the headers of a block and of its major say. */
  lemma FreeFacts(v: seq<Major>, i: nat, j: nat, majors: Majors, minors: Minors)
    requires HeapOk(v) && NoneEmpty(v) && MajorsRep(v, majors) && MinorsRep(v, minors) && IsBlock(v, i, j)
    ensures MajorAt(v, majors, i) && MinorAt(v[i], minors, j)
    ensures Usage(v[i]) >= v[i].blocks[j].size + MINOR_HEADER
    ensures (BlockAddr(v[i], j - 1) == 0 <==> j == 0) && (BlockAddr(v[i], j + 1) == 0 <==> j + 1 == |v[i].blocks|)
    ensures j > 0 ==> BlockAddr(v[i], j - 1) in minors && BlockAddr(v[i], j - 1) != v[i].blocks[j].addr
    ensures j + 1 < |v[i].blocks| ==> BlockAddr(v[i], j + 1) in minors && BlockAddr(v[i], j + 1) != v[i].blocks[j].addr
    ensures (AddrOf(v, i - 1) == 0 <==> i == 0) && (AddrOf(v, i + 1) == 0 <==> i + 1 == |v|)
    ensures i > 0 ==> AddrOf(v, i - 1) in majors && AddrOf(v, i - 1) != v[i].addr
    ensures i + 1 < |v| ==> AddrOf(v, i + 1) in majors && AddrOf(v, i + 1) != v[i].addr
  {
    assert MajorAt(v, majors, i) && ChainRep(v[i], minors) && MinorAt(v[i], minors, j);
    RemoveTotals(v[i], j);
    if j > 0 {
      BlockAddrUnique(v[i], j - 1, j);
      AddrIsNull(v[i], j - 1);
      assert MinorAt(v[i], minors, j - 1);
    }
    AddrIsNull(v[i], j + 1);
    if j + 1 < |v[i].blocks| {
      BlockAddrUnique(v[i], j + 1, j);
      assert MinorAt(v[i], minors, j + 1);
    }
    if i > 0 {
      AddrUnique(v, i - 1, i);
      assert MajorAt(v, majors, i - 1) && MajorOk(v[i-1]);
    }
    if i + 1 < |v| {
      AddrUnique(v, i + 1, i);
      assert MajorAt(v, majors, i + 1) && MajorOk(v[i+1]);
    }
  }

  lemma RootIsNull(v: seq<Major>)
    requires HeapOk(v)
    ensures AddrOf(v, 0) == 0 <==> v == []
  {
    if v != [] { assert MajorOk(v[0]); }
  }

  /** What the header of a listed major says. */
  lemma {:induction false} HintedMajor(v: seq<Major>, majors: Majors, addr: nat)
    requires HeapOk(v) && MajorsRep(v, majors) && IndexOf(v, addr) < |v|
    ensures addr in majors && majors[addr] == MajorRec(v, IndexOf(v, addr))
    ensures var i := IndexOf(v, addr);
            && majors[addr].size - majors[addr].usage == Size(v[i]) - Usage(v[i])
            && (majors[addr].next == 0 <==> i == |v| - 1)
            && majors[addr].next == AddrOf(v, i + 1)
  {
    var i := IndexOf(v, addr);
    assert MajorAt(v, majors, i);
    if i + 1 < |v| { assert MajorOk(v[i+1]); }
  }

  // ---------- the state of the search ----------

  /**
   Where the outer loop of kmalloc stands: at major i of the heap it started from, having found
   nothing so far, first from the hinted major on and then from the root on; or, if nothing was
   found at all, at the new major.
   */
  ghost predicate Scan(v0: seq<Major>, bet: nat, req: nat, grant: nat, v: seq<Major>, i: nat, started: bool,
                       added: bool) {
    var need, s := Need(req), Start(v0, bet, Need(req));
    && HeapOk(v0) && NoneEmpty(v0) && Asks(v0, req, grant)
    && if added then
         && grant != 0 && v == v0 + [FreshMajor(grant, req + SLACK)] && i == |v0| && !started
         && FirstMajor(v0, need, s) == |v0| && FirstMajor(v0, need, 0) == |v0|
       else
         && v == v0 && i < |v0|
         && if started then FirstMajor(v0, need, s) == FirstMajor(v0, need, i)
            else
              && (Eager(v0, bet, need) ==> FirstMajor(v0, need, s) == |v0|)
              && FirstMajor(v0, need, 0) == FirstMajor(v0, need, i)
  }

  /** How many majors the search can still visit: those to the end, and all once more if it began at the hint. */
  ghost function TurnsLeft(v0: seq<Major>, v: seq<Major>, maj: nat, started: bool, added: bool): nat {
    var n := if IndexOf(v, maj) <= |v0| then |v0| - IndexOf(v, maj) else 0;
    if maj == 0 then 0
    else if added then 1
    else if started then |v0| + 3 + n
    else 2 + n
  }

  lemma {:induction false} TurnsNext(v: seq<Major>, i: nat, started: bool)
    requires HeapOk(v) && i < |v|
    ensures IndexOf(v, v[i].addr) == i && IndexOf(v, v[0].addr) == 0
    ensures i + 1 < |v| ==>
              && IndexOf(v, v[i+1].addr) == i + 1
              && TurnsLeft(v, v, v[i+1].addr, started, false) < TurnsLeft(v, v, v[i].addr, started, false)
    ensures TurnsLeft(v, v, v[0].addr, false, false) < TurnsLeft(v, v, v[i].addr, true, false)
    ensures forall w, n :: TurnsLeft(v, w, n, false, true) < TurnsLeft(v, v, v[i].addr, started, false)
    ensures TurnsLeft(v, v, 0, false, false) < TurnsLeft(v, v, v[i].addr, started, false)
  {
    IndexOfAddr(v, i);
    IndexOfAddr(v, 0);
    assert MajorOk(v[i]) && MajorOk(v[0]);
    if i + 1 < |v| { IndexOfAddr(v, i + 1); }
  }

  /** Where the search goes after major i turned out to have no room. */
  ghost predicate ScanMissed(v0: seq<Major>, bet: nat, req: nat, grant: nat, v: seq<Major>, i: nat, started: bool,
                             added: bool) {
    && !added
    && (i + 1 < |v| ==> Scan(v0, bet, req, grant, v, i + 1, started, false))
    && (i + 1 == |v| && started ==> Scan(v0, bet, req, grant, v, 0, false, false))
    && (i + 1 == |v| && !started ==>
          && Locate(v0, bet, Need(req)).None?
          && (grant != 0 ==> Scan(v0, bet, req, grant, v0 + [FreshMajor(grant, req + SLACK)], i + 1, false, true)))
  }

  lemma ScanMiss(v0: seq<Major>, bet: nat, req: nat, grant: nat, v: seq<Major>, i: nat, started: bool, added: bool)
    requires Scan(v0, bet, req, grant, v, i, started, added)
    requires FirstGap(v[i], Need(req), 0) > |v[i].blocks|
    ensures ScanMissed(v0, bet, req, grant, v, i, started, added)
  {
    if added {
      FreshMajorServes(grant, req);
    }
  }

  /** CASE 1 never skips a major that could serve the request. */
  lemma ScanSkip(v0: seq<Major>, bet: nat, req: nat, grant: nat, v: seq<Major>, i: nat, started: bool, added: bool)
    requires Scan(v0, bet, req, grant, v, i, started, added) && HeapOk(v)
    requires Size(v[i]) - Usage(v[i]) < Need(req)
    ensures ScanMissed(v0, bet, req, grant, v, i, started, added)
  {
    SkipIsSound(v[i], Need(req));
    FitsFirst(v[i], Need(req));
    ScanMiss(v0, bet, req, grant, v, i, started, added);
  }

  /** What trying major i leads to: the placement of the specification, or the next state of the search. */
  lemma ScanTry(v0: seq<Major>, bet: nat, req: nat, grant: nat, v: seq<Major>, i: nat, started: bool, added: bool)
    requires Scan(v0, bet, req, grant, v, i, started, added)
    ensures v[i].blocks == [] ==> Gap(v[i], 0) >= Need(req)
    ensures var j := FirstGap(v[i], Need(req), 0);
            if j <= |v[i].blocks| then
              var b := NewBlock(GapLow(v[i], j), req);
              && Alloc(v0, bet, req, grant) == (v[i := InsertBlock(v[i], j, b)], Some(b))
              && NoneEmpty(v[i := InsertBlock(v[i], j, b)])
              && (added <==> Locate(v0, bet, Need(req)).None?)
            else ScanMissed(v0, bet, req, grant, v, i, started, added)
  {
    hide HeapOk, FirstMajor, Start, Eager;
    LazyStart(v0, bet, Need(req));
    var j := FirstGap(v[i], Need(req), 0);
    if added {
      FreshMajorServes(grant, req);
      var b := NewBlock(GapLow(v[i], 0), req);
      assert InsertBlock(v[i], 0, b).blocks == [b];
      assert v[i := InsertBlock(v[i], 0, b)] == v0 + [Major(grant, PagesFor(req + SLACK), [b])];
    } else if j > |v[i].blocks| {
      ScanMiss(v0, bet, req, grant, v, i, started, added);
    }
  }

  /** A search that found nothing up to major i has the hint ready for wherever it goes next. */
  lemma {:induction false} NotedOn(v: seq<Major>, bet: nat, req: nat, grant: nat, i: nat, started: bool, bet1: nat,
                                   best1: int)
    requires i < |v| && Noted(v, bet, Need(req), i + 1, started, false, bet1, best1)
    ensures i + 1 == |v| && started ==> Noted(v, bet, Need(req), 0, false, false, bet1, best1)
    ensures i + 1 == |v| && !started && Locate(v, bet, Need(req)).None? && grant == 0 ==>
              bet1 == HintAfter(v, bet, req, grant)
  {
    hide Noted, HintAfter, Locate;
    if i + 1 == |v| && started {
      NotedAgain(v, bet, Need(req), bet1, best1);
    } else if i + 1 == |v| && Locate(v, bet, Need(req)).None? {
      NotedRefused(v, bet, req, bet1, best1);
    }
  }

  /** Major i has been noted and was not left for want of free space. */
  ghost predicate Passed(v: seq<Major>, bet: nat, req: nat, i: nat, started: bool, bet1: nat, best1: int) {
    i < |v| && Room(v[i]) >= Need(req) && Noted(v, bet, Need(req), i + 1, started, false, bet1, best1)
  }

  /** Noting major i. */
  lemma {:induction false} NotedHere(v0: seq<Major>, bet: nat, req: nat, grant: nat, v: seq<Major>, i: nat,
                                     started: bool, added: bool, bet1: nat, best1: int, h: Hint)
    requires Scan(v0, bet, req, grant, v, i, started, added)
             && Noted(v0, bet, Need(req), i, started, added, bet1, best1)
    requires h == Note(Hint(bet1, best1), v[i])
    ensures if added then h.bet == HintAfter(v0, bet, req, grant) && Room(v[i]) >= Need(req)
            else Noted(v0, bet, Need(req), i + 1, started, false, h.bet, h.best)
  {
    hide HeapOk, Noted, HintAfter, FirstMajor, FirstGap;
    if added {
      NotedAdded(v0, bet, req, grant, bet1, best1, h);
      FreshMajorServes(grant, req);
    } else {
      NotedNext(v0, bet, Need(req), i, started, bet1, best1, h);
    }
  }

  /** Major i serves the request, or the search goes on from it with the hint ready. */
  lemma {:induction false} PassedOn(v0: seq<Major>, bet: nat, req: nat, grant: nat, v: seq<Major>, i: nat,
                                    started: bool, added: bool, bet1: nat, best1: int)
    requires Scan(v0, bet, req, grant, v, i, started, added)
    requires if added then bet1 == HintAfter(v0, bet, req, grant) else Passed(v0, bet, req, i, started, bet1, best1)
    ensures FirstGap(v[i], Need(req), 0) <= |v[i].blocks| ==> bet1 == HintAfter(v0, bet, req, grant)
    ensures FirstGap(v[i], Need(req), 0) > |v[i].blocks| ==>
              !added && Noted(v0, bet, Need(req), i + 1, started, false, bet1, best1)
    ensures !added ==> i < |v0| && Room(v0[i]) >= Need(req)
  {
    hide HeapOk, Noted, HintAfter, FirstMajor, FirstGap;
    if added {
      FreshMajorServes(grant, req);
    } else if FirstGap(v[i], Need(req), 0) <= |v[i].blocks| {
      NotedFound(v0, bet, req, grant, i, FirstGap(v[i], Need(req), 0), started, bet1, best1);
    }
  }

  /** The major allocate_new_page makes of a range it was granted. */
  function FreshMajor(grant: nat, size: nat): Major {
    Major(grant, PagesFor(size), [])
  }

  lemma FreshApart(v: seq<Major>, i: nat, grant: nat, req: nat)
    requires HeapOk(v) && i < |v| && Asks(v, req, grant) && grant != 0
    ensures v[i].addr != grant
  {
    assert Apart(v[i], FreshMajor(grant, req + SLACK)) && MajorOk(v[i]);
  }

  lemma ExtendOk(v: seq<Major>, m: Major, req: nat, majors0: Majors, minors0: Minors, bytes: seq<byte>,
                 majors: Majors, bet: nat)
    requires Represents(v, majors0, minors0, bytes) && m == FreshMajor(m.addr, req + SLACK) && m.addr != 0
    requires Asks(v, req, m.addr) && m.addr + Size(m) <= |bytes|
    requires Appended(v, m, majors0, majors)
    ensures Represents(v + [m], majors, Forget(minors0, m.addr, m.addr + Size(m)), bytes)
    ensures InUse(v + [m]) == InUse(v) && Allocated(v + [m]) == Allocated(v) + Size(m)
    ensures AddrOf(v + [m], 0) == if v == [] then m.addr else AddrOf(v, 0)
    ensures KernelHeap.Hinted(v, bet) ==> KernelHeap.Hinted(v + [m], bet)
  {
    FreshMajorServes(m.addr, req);
    AppendRep(v, m, majors0, minors0, bytes, majors);
    InUseConcat(v, [m]);
    InUseOne(m);
    if IndexOf(v, bet) < |v| {
      assert (v + [m])[IndexOf(v, bet)].addr == bet;
    }
  }

  /** The header allocate_new_page writes. */
  function FreshHeader(size: nat): MajorHeader {
    MajorHeader(0, 0, PagesFor(size), PagesFor(size) * HEAP_PAGE, MAJOR_HEADER, 0)
  }

  lemma FirstOk(v: seq<Major>, grant: nat, req: nat, majors0: Majors, minors0: Minors, bytes: seq<byte>, bet: nat)
    requires v == [] && Represents(v, majors0, minors0, bytes) && Asks(v, req, grant) && grant != 0
    requires grant + Size(FreshMajor(grant, req + SLACK)) <= |bytes|
    ensures ExtendedRep(v, grant, req, majors0[grant := FreshHeader(req + SLACK)],
                        Forget(minors0, grant, grant + Size(FreshMajor(grant, req + SLACK))), bytes, bet)
  {
    ExtendOk(v, FreshMajor(grant, req + SLACK), req, majors0, minors0, bytes,
             majors0[grant := FreshHeader(req + SLACK)], bet);
  }

  /** The headers after a fresh major has been linked in behind the major at last. */
  function LinkedMajors(majors: Majors, last: nat, grant: nat, req: nat): Majors
    requires last in majors
  {
    majors[grant := FreshHeader(req + SLACK)][last := majors[last].(next := grant)]
          [grant := FreshHeader(req + SLACK).(prev := last)]
  }

  lemma LastMajor(v: seq<Major>, majors: Majors)
    requires v != [] && MajorsRep(v, majors)
    ensures v[|v|-1].addr in majors && majors[v[|v|-1].addr].next == 0
  {
    assert MajorAt(v, majors, |v| - 1);
  }

  lemma NextOk(v: seq<Major>, grant: nat, req: nat, majors: Majors, minors: Minors, bytes: seq<byte>, bet: nat)
    requires v != [] && Represents(v, majors, minors, bytes) && Asks(v, req, grant) && grant != 0
    requires grant + Size(FreshMajor(grant, req + SLACK)) <= |bytes| && v[|v|-1].addr in majors
    ensures v[|v|-1].addr != grant
    ensures ExtendedRep(v, grant, req, LinkedMajors(majors, v[|v|-1].addr, grant, req),
                        Forget(minors, grant, grant + Size(FreshMajor(grant, req + SLACK))), bytes, bet)
  {
    FreshApart(v, |v| - 1, grant, req);
    ExtendOk(v, FreshMajor(grant, req + SLACK), req, majors, minors, bytes,
             LinkedMajors(majors, v[|v|-1].addr, grant, req), bet);
  }

  /** The representation with a fresh major behind v, and what stays the same. */
  ghost predicate ExtendedRep(v: seq<Major>, grant: nat, req: nat, majors: Majors, minors: Minors, bytes: seq<byte>,
                              bet: nat) {
    var m := FreshMajor(grant, req + SLACK);
    && Represents(v + [m], majors, minors, bytes)
    && InUse(v + [m]) == InUse(v) && Allocated(v + [m]) == Allocated(v) + Size(m)
    && AddrOf(v + [m], 0) == (if v == [] then m.addr else AddrOf(v, 0))
    && (KernelHeap.Hinted(v, bet) ==> KernelHeap.Hinted(v + [m], bet))
  }

  lemma DeliverOk(v: seq<Major>, i: nat, j: nat, b: Block, majors0: Majors, minors0: Minors, bytes: seq<byte>,
                  majors: Majors, minors: Minors, bet: nat)
    requires Represents(v, majors0, minors0, bytes) && i < |v| && FillsGap(v[i], j, b)
    requires v[i].addr in majors0
    requires var h := majors0[v[i].addr];
             majors == majors0[v[i].addr :=
               h.(first := BlockAddr(InsertBlock(v[i], j, b), 0), usage := h.usage + (b.size + MINOR_HEADER))]
    requires LinkedIn(v[i], j, b, minors0, minors)
    ensures TagAddr(b) < |bytes|
    ensures var v' := v[i := InsertBlock(v[i], j, b)];
            && Represents(v', majors, minors, bytes[TagAddr(b) := Tag(b)])
            && AddrOf(v', 0) == AddrOf(v, 0)
            && (KernelHeap.Hinted(v, bet) ==> KernelHeap.Hinted(v', bet))
            && InUse(v') == InUse(v) + b.size && Allocated(v') == Allocated(v)
  {
    PlaceTotals(v, i, j, b);
    PlaceHint(v, i, j, b, bet);
    assert MajorAt(v, majors0, i);
    PlaceRep(v, i, j, b, majors0, minors0, bytes, majors, minors);
  }

  lemma AddrIsNull(m: Major, j: nat)
    requires MajorOk(m) && j <= |m.blocks|
    ensures BlockAddr(m, j) == 0 <==> j == |m.blocks|
  {
    if j < |m.blocks| { assert BlockOk(m, m.blocks[j]); }
  }

  lemma PlaceTotals(v: seq<Major>, i: nat, j: nat, b: Block)
    requires i < |v| && j <= |v[i].blocks|
    ensures var v' := v[i := InsertBlock(v[i], j, b)];
            && InUse(v') == InUse(v) + b.size && Allocated(v') == Allocated(v)
            && Usage(v'[i]) == Usage(v[i]) + b.size + MINOR_HEADER
  {
    InsertTotals(v[i], j, b);
    ReplaceTotals(v, i, InsertBlock(v[i], j, b));
  }

  lemma PlaceHint(v: seq<Major>, i: nat, j: nat, b: Block, bet: nat)
    requires i < |v| && j <= |v[i].blocks|
    ensures var v' := v[i := InsertBlock(v[i], j, b)];
            AddrOf(v', 0) == AddrOf(v, 0) && (KernelHeap.Hinted(v, bet) ==> KernelHeap.Hinted(v', bet))
  {
    var v' := v[i := InsertBlock(v[i], j, b)];
    if IndexOf(v, bet) < |v| {
      assert v'[IndexOf(v, bet)].addr == bet;
    }
  }
}
