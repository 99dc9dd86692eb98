/**
 What clients can rely on: blocks of their own, true totals, and a heap that undoes itself.
 */
module HeapRuns {
  import opened Wrappers
  import opened HeapView
  import opened Sequences

  // ---------- blocks of one's own ----------

  /** Block j of major i. */
  ghost predicate IsBlock(v: seq<Major>, i: nat, j: nat) {
    i < |v| && j < |v[i].blocks|
  }

  /** p is the pointer to block j of major i. */
  ghost predicate At(v: seq<Major>, p: nat, i: nat, j: nat) {
    IsBlock(v, i, j) && Ptr(v[i].blocks[j]) == p
  }

  lemma MajorsApart(v: seq<Major>, i: nat, k: nat)
    requires HeapOk(v) && i < |v| && k < |v| && i != k
    ensures v[i].addr + Size(v[i]) <= v[k].addr || v[k].addr + Size(v[k]) <= v[i].addr
  {
    if i < k { assert Apart(v[i], v[k]); } else { assert Apart(v[k], v[i]); }
  }

  /** Different blocks, headers included, never overlap. */
  lemma BlocksApart(v: seq<Major>, i: nat, j: nat, k: nat, l: nat)
    requires HeapOk(v) && IsBlock(v, i, j) && IsBlock(v, k, l) && (i, j) != (k, l)
    ensures End(v[i].blocks[j]) <= v[k].blocks[l].addr || End(v[k].blocks[l]) <= v[i].blocks[j].addr
  {
    assert BlockOk(v[i], v[i].blocks[j]) && BlockOk(v[k], v[k].blocks[l]);
    if i != k {
      MajorsApart(v, i, k);
    } else if j < l {
      assert Before(v[i].blocks[j], v[i].blocks[l]);
    } else {
      assert Before(v[i].blocks[l], v[i].blocks[j]);
    }
  }

  /**
   The region a client asked for is 16-byte aligned, lies after the block's header and tag and
   inside the block, and is disjoint from every other block's region, tag and header and from
   every major's header.
   */
  lemma RegionIsPrivate(v: seq<Major>, i: nat, j: nat, a: nat)
    requires HeapOk(v) && IsBlock(v, i, j)
    requires Ptr(v[i].blocks[j]) <= a < Ptr(v[i].blocks[j]) + v[i].blocks[j].req
    ensures Ptr(v[i].blocks[j]) % 16 == 0
    ensures TagAddr(v[i].blocks[j]) < a < End(v[i].blocks[j])
    ensures forall k: nat, l: nat :: IsBlock(v, k, l) && (k, l) != (i, j) ==>
              !(v[k].blocks[l].addr <= a < End(v[k].blocks[l]))
    ensures forall k :: 0 <= k < |v| ==> !(v[k].addr <= a < v[k].addr + MAJOR_HEADER)
  {
    assert BlockOk(v[i], v[i].blocks[j]);
    forall k: nat, l: nat | IsBlock(v, k, l) && (k, l) != (i, j)
      ensures !(v[k].blocks[l].addr <= a < End(v[k].blocks[l]))
    {
      BlocksApart(v, i, j, k, l);
    }
    forall k | 0 <= k < |v| ensures !(v[k].addr <= a < v[k].addr + MAJOR_HEADER) {
      if k != i {
        MajorsApart(v, i, k);
        assert MajorOk(v[k]);
      }
    }
  }

  /** A pointer names one block. */
  lemma PtrUnique(v: seq<Major>, p: nat, i: nat, j: nat, k: nat, l: nat)
    requires HeapOk(v) && At(v, p, i, j) && At(v, p, k, l)
    ensures i == k && j == l
  {
    assert BlockOk(v[i], v[i].blocks[j]) && BlockOk(v[k], v[k].blocks[l]);
    if (i, j) != (k, l) {
      BlocksApart(v, i, j, k, l);
    }
  }

  // ---------- totals ----------

  function BlockBytes(bs: seq<Block>): nat {
    if bs == [] then 0 else BlockBytes(bs[..|bs|-1]) + bs[|bs|-1].size
  }

  /** l_inuse: the sizes of all blocks. */
  function InUse(v: seq<Major>): nat {
    if v == [] then 0 else InUse(v[..|v|-1]) + BlockBytes(v[|v|-1].blocks)
  }

  /** l_allocated: the sizes of all majors. */
  function Allocated(v: seq<Major>): nat {
    if v == [] then 0 else Allocated(v[..|v|-1]) + Size(v[|v|-1])
  }

  lemma {:induction false} TakenConcat(a: seq<Block>, b: seq<Block>)
    ensures Taken(a + b) == Taken(a) + Taken(b)
    ensures BlockBytes(a + b) == BlockBytes(a) + BlockBytes(b)
    decreases |b|
  {
    if b == [] {
      assert a + b == a;
    } else {
      TakenConcat(a, b[..|b|-1]);
      assert (a + b)[..|a + b|-1] == a + b[..|b|-1];
    }
  }

  lemma TakenOne(b: Block)
    ensures Taken([b]) == b.size + MINOR_HEADER && BlockBytes([b]) == b.size
  {
    assert [b][..0] == [];
  }

  lemma InsertTotals(m: Major, j: nat, b: Block)
    requires j <= |m.blocks|
    ensures Usage(InsertBlock(m, j, b)) == Usage(m) + b.size + MINOR_HEADER
    ensures BlockBytes(InsertBlock(m, j, b).blocks) == BlockBytes(m.blocks) + b.size
  {
    assert m.blocks == m.blocks[..j] + m.blocks[j..];
    TakenConcat(m.blocks[..j], m.blocks[j..]);
    TakenConcat(m.blocks[..j] + [b], m.blocks[j..]);
    TakenConcat(m.blocks[..j], [b]);
    TakenOne(b);
  }

  lemma RemoveInsert(m: Major, j: nat)
    requires j < |m.blocks|
    ensures InsertBlock(RemoveBlock(m, j), j, m.blocks[j]) == m
  {
    assert InsertBlock(RemoveBlock(m, j), j, m.blocks[j]).blocks == m.blocks;
  }

  lemma RemoveTotals(m: Major, j: nat)
    requires j < |m.blocks|
    ensures Usage(RemoveBlock(m, j)) + m.blocks[j].size + MINOR_HEADER == Usage(m)
    ensures BlockBytes(RemoveBlock(m, j).blocks) + m.blocks[j].size == BlockBytes(m.blocks)
  {
    RemoveInsert(m, j);
    InsertTotals(RemoveBlock(m, j), j, m.blocks[j]);
  }

  lemma {:induction false} InUseConcat(a: seq<Major>, b: seq<Major>)
    ensures InUse(a + b) == InUse(a) + InUse(b)
    ensures Allocated(a + b) == Allocated(a) + Allocated(b)
    decreases |b|
  {
    if b == [] {
      assert a + b == a;
    } else {
      InUseConcat(a, b[..|b|-1]);
      assert (a + b)[..|a + b|-1] == a + b[..|b|-1];
    }
  }

  lemma InUseOne(m: Major)
    ensures InUse([m]) == BlockBytes(m.blocks) && Allocated([m]) == Size(m)
  {
    assert [m][..0] == [];
  }

  /** Totals with major i singled out. */
  lemma {:induction false} TotalsSplit(v: seq<Major>, i: nat)
    requires i < |v|
    ensures InUse(v) == InUse(v[..i]) + BlockBytes(v[i].blocks) + InUse(v[i+1..])
    ensures Allocated(v) == Allocated(v[..i]) + Size(v[i]) + Allocated(v[i+1..])
  {
    Singled(v, i);
    InUseConcat(v[..i] + [v[i]], v[i+1..]);
    InUseConcat(v[..i], [v[i]]);
    InUseOne(v[i]);
  }

  lemma Singled(v: seq<Major>, i: nat)
    requires i < |v|
    ensures (v[..i] + [v[i]]) + v[i+1..] == v
  {
  }

  lemma SingledOut(v: seq<Major>, i: nat, m: Major)
    requires i < |v|
    ensures (v[..i] + [m]) + v[i+1..] == v[i := m]
  {
  }

  lemma ReplaceTotals(v: seq<Major>, i: nat, m: Major)
    requires i < |v| && m.pages == v[i].pages
    ensures InUse(v[i := m]) == InUse(v) - BlockBytes(v[i].blocks) + BlockBytes(m.blocks)
    ensures Allocated(v[i := m]) == Allocated(v)
  {
    var v' := v[i := m];
    TotalsSplit(v, i);
    TotalsSplit(v', i);
    assert v'[..i] == v[..i] && v'[i+1..] == v[i+1..];
  }

  /** An allocation adds the block's size to l_inuse, and a new major's size to l_allocated. */
  lemma {:induction false} AllocTotals(v: seq<Major>, bet: nat, req: nat, grant: nat)
    ensures var (v', b) := Alloc(v, bet, req, grant);
            && InUse(v') == InUse(v) + (if b.Some? then req + SLACK else 0)
            && Allocated(v') == Allocated(v) + (if |v'| > |v| then PagesFor(req + SLACK) * HEAP_PAGE else 0)
  {
    match Locate(v, bet, Need(req))
    case Some((i, j)) =>
      var b := NewBlock(GapLow(v[i], j), req);
      InsertTotals(v[i], j, b);
      ReplaceTotals(v, i, InsertBlock(v[i], j, b));
    case None =>
      if grant != 0 {
        var m := Major(grant, PagesFor(req + SLACK), [NewBlock(grant + MAJOR_HEADER, req)]);
        InUseConcat(v, [m]);
        InUseOne(m);
        TakenOne(m.blocks[0]);
      }
  }

  /** A release takes the block's size off l_inuse, and an emptied major's size off l_allocated. */
  lemma ReleaseTotals(v: seq<Major>, i: nat, j: nat)
    requires IsBlock(v, i, j)
    ensures var v' := Release(v, i, j);
            && InUse(v') == InUse(v) - v[i].blocks[j].size
            && Allocated(v') == Allocated(v) - (if |v'| < |v| then Size(v[i]) else 0)
            && (|v'| < |v| <==> |v[i].blocks| == 1)
  {
    RemoveTotals(v[i], j);
    if RemoveBlock(v[i], j).blocks == [] {
      TotalsSplit(v, i);
      InUseConcat(v[..i], v[i+1..]);
    } else {
      ReplaceTotals(v, i, RemoveBlock(v[i], j));
    }
  }

  // ---------- undo ----------

  /**
   Freeing what was just allocated restores the heap exactly: every block, every gap and every
   major, also when the allocation had to add a major.
   */
  lemma {:induction false} AllocRelease(v: seq<Major>, bet: nat, req: nat, grant: nat, i: nat, j: nat)
    requires HeapOk(v) && NoneEmpty(v) && Representable(req)
    requires Grantable(v, grant, PagesFor(req + SLACK))
    requires At(Alloc(v, bet, req, grant).0, AllocPtr(v, bet, req, grant), i, j)
    requires AllocPtr(v, bet, req, grant) != 0
    ensures Release(Alloc(v, bet, req, grant).0, i, j) == v
  {
    AllocOk(v, bet, req, grant);
    match Locate(v, bet, Need(req))
    case Some((k, l)) => InsertRelease(v, k, l, NewBlock(GapLow(v[k], l), req), i, j);
    case None => AppendRelease(v, Major(grant, PagesFor(req + SLACK), [NewBlock(grant + MAJOR_HEADER, req)]), i, j);
  }

  lemma InsertRelease(v: seq<Major>, k: nat, l: nat, b: Block, i: nat, j: nat)
    requires NoneEmpty(v) && k < |v| && l <= |v[k].blocks|
    requires HeapOk(v[k := InsertBlock(v[k], l, b)]) && At(v[k := InsertBlock(v[k], l, b)], Ptr(b), i, j)
    ensures Release(v[k := InsertBlock(v[k], l, b)], i, j) == v
  {
    var v' := v[k := InsertBlock(v[k], l, b)];
    assert At(v', Ptr(b), k, l);
    PtrUnique(v', Ptr(b), i, j, k, l);
    InsertRemove(v[k], l, b);
    assert v'[k := v[k]] == v;
  }

  lemma AppendRelease(v: seq<Major>, m: Major, i: nat, j: nat)
    requires |m.blocks| == 1 && HeapOk(v + [m]) && At(v + [m], Ptr(m.blocks[0]), i, j)
    ensures Release(v + [m], i, j) == v
  {
    var v' := v + [m];
    assert At(v', Ptr(m.blocks[0]), |v|, 0);
    PtrUnique(v', Ptr(m.blocks[0]), i, j, |v|, 0);
    assert RemoveBlock(v'[i], 0).blocks == [];
    assert v'[..i] + v'[i+1..] == v;
  }

  lemma InsertRemove(m: Major, j: nat, b: Block)
    requires j <= |m.blocks|
    ensures RemoveBlock(InsertBlock(m, j, b), j) == m
  {
    assert RemoveBlock(InsertBlock(m, j, b), j).blocks == m.blocks;
  }

  // ---------- runs ----------

  /**
   One call. The hint is whatever address the previous calls left in it, and grant is what the
   page source would answer.
   */
  datatype Call =
    | Malloc(req: nat, hint: nat, grant: nat)
    | Free(p: nat)
    | Resize(p: nat, req: nat, hint: nat, grant: nat)

  ghost predicate Asks(v: seq<Major>, req: nat, grant: nat) {
    Representable(req) && Grantable(v, grant, PagesFor(req + SLACK))
  }

  /** v' is a heap the call may leave behind. */
  ghost predicate Step(v: seq<Major>, call: Call, v': seq<Major>) {
    match call
    case Malloc(req, hint, grant) => Asks(v, req, grant) && v' == Alloc(v, hint, req, grant).0
    case Free(p) => exists i: nat, j: nat :: At(v, p, i, j) && v' == Release(v, i, j)
    case Resize(p, req, hint, grant) =>
      req != 0 && exists i: nat, j: nat :: At(v, p, i, j) && ResizedAt(v, p, req, hint, grant, v', i, j)
  }

  /** A smaller request is recorded in place; a larger one gets a new block before the old one goes. */
  ghost predicate ResizedAt(v: seq<Major>, p: nat, req: nat, hint: nat, grant: nat, v': seq<Major>, i: nat, j: nat)
    requires IsBlock(v, i, j)
  {
    if req <= v[i].blocks[j].req then v' == Shrink(v, i, j, req)
    else
      && Asks(v, req, grant) && (Alloc(v, hint, req, grant).1.Some? || v[i].blocks[j].req == 0)
      && exists k: nat, l: nat ::
           At(Alloc(v, hint, req, grant).0, p, k, l) && v' == Release(Alloc(v, hint, req, grant).0, k, l)
  }

  ghost predicate Runs(v: seq<Major>, calls: seq<Call>, v': seq<Major>)
    decreases |calls|
  {
    if calls == [] then v' == v
    else exists w :: Step(v, calls[0], w) && Runs(w, calls[1..], v')
  }

  lemma StepOk(v: seq<Major>, call: Call, v': seq<Major>)
    requires HeapOk(v) && NoneEmpty(v) && Step(v, call, v')
    ensures HeapOk(v') && NoneEmpty(v')
  {
    match call {
      case Malloc(req, hint, grant) => AllocOk(v, hint, req, grant);
      case Free(p) =>
        var i: nat, j: nat :| At(v, p, i, j) && v' == Release(v, i, j);
        ReleaseOk(v, i, j);
      case Resize(p, req, hint, grant) =>
        ResizeOk(v, p, req, hint, grant, v');
    }
  }

  lemma {:induction false} ResizeOk(v: seq<Major>, p: nat, req: nat, hint: nat, grant: nat, v': seq<Major>)
    requires HeapOk(v) && NoneEmpty(v) && Step(v, Resize(p, req, hint, grant), v')
    ensures HeapOk(v') && NoneEmpty(v')
  {
    var i: nat, j: nat :| At(v, p, i, j) && ResizedAt(v, p, req, hint, grant, v', i, j);
    if req <= v[i].blocks[j].req {
      ShrinkOk(v, i, j, req);
    } else {
      var w := Alloc(v, hint, req, grant).0;
      AllocOk(v, hint, req, grant);
      var k: nat, l: nat :| At(w, p, k, l) && v' == Release(w, k, l);
      ReleaseOk(w, k, l);
    }
  }

  /** Every heap any run of calls reaches from the empty one is well formed, without empty majors. */
  lemma {:induction false} RunsOk(v: seq<Major>, calls: seq<Call>, v': seq<Major>)
    requires HeapOk(v) && NoneEmpty(v) && Runs(v, calls, v')
    ensures HeapOk(v') && NoneEmpty(v')
    decreases |calls|
  {
    if calls != [] {
      var w :| Step(v, calls[0], w) && Runs(w, calls[1..], v');
      StepOk(v, calls[0], w);
      RunsOk(w, calls[1..], v');
    }
  }

  // ---------- freeing everything ----------

  /** What the page source has lent: a major's address and page count. */
  datatype Loan = Loan(addr: nat, pages: nat)

  function Lent(v: seq<Major>): multiset<Loan> {
    if v == [] then multiset{} else Lent(v[..|v|-1]) + multiset{Loan(v[|v|-1].addr, v[|v|-1].pages)}
  }

  /** Releasing, in order, the blocks some pointers name; returned lists what goes back to the page source. */
  ghost predicate Frees(v: seq<Major>, ps: seq<nat>, v': seq<Major>, returned: seq<Loan>)
    decreases |ps|
  {
    if ps == [] then v' == v && returned == []
    else exists i: nat, j: nat :: FreesFirst(v, ps, v', returned, i, j)
  }

  ghost predicate FreesFirst(v: seq<Major>, ps: seq<nat>, v': seq<Major>, returned: seq<Loan>, i: nat, j: nat)
    requires ps != []
    decreases |ps|, 0
  {
    && At(v, ps[0], i, j)
    && Returned(v, i) <= returned
    && Frees(Release(v, i, j), ps[1..], v', returned[|Returned(v, i)|..])
  }

  /** A release returns a major to the page source exactly when it takes its last block. */
  function Returned(v: seq<Major>, i: nat): seq<Loan>
    requires i < |v|
  {
    if |v[i].blocks| == 1 then [Loan(v[i].addr, v[i].pages)] else []
  }

  function Blocks(v: seq<Major>): nat {
    if v == [] then 0 else Blocks(v[..|v|-1]) + |v[|v|-1].blocks|
  }

  lemma {:induction false} BlocksConcat(a: seq<Major>, b: seq<Major>)
    ensures Blocks(a + b) == Blocks(a) + Blocks(b)
    decreases |b|
  {
    if b == [] {
      assert a + b == a;
    } else {
      BlocksConcat(a, b[..|b|-1]);
      assert (a + b)[..|a + b|-1] == a + b[..|b|-1];
    }
  }

  lemma BlocksAround(v: seq<Major>, i: nat, m: Major)
    requires i < |v|
    ensures Blocks(v[i := m]) == Blocks(v[..i]) + |m.blocks| + Blocks(v[i+1..])
  {
    SingledOut(v, i, m);
    BlocksConcat(v[..i] + [m], v[i+1..]);
    BlocksConcat(v[..i], [m]);
    assert [m][..0] == [] && Blocks([m]) == |m.blocks|;
  }

  lemma ReleaseBlocks(v: seq<Major>, i: nat, j: nat)
    requires IsBlock(v, i, j)
    ensures Blocks(Release(v, i, j)) == Blocks(v) - 1
  {
    var m := RemoveBlock(v[i], j);
    assert v[i := v[i]] == v;
    BlocksAround(v, i, v[i]);
    BlocksAround(v, i, m);
    BlocksConcat(v[..i], v[i+1..]);
  }

  lemma {:induction false} BlocksCoverMajors(v: seq<Major>)
    requires NoneEmpty(v)
    ensures Blocks(v) >= |v|
  {
    if v != [] {
      BlocksCoverMajors(v[..|v|-1]);
    }
  }

  lemma MultisetAssoc(a: multiset<Loan>, b: multiset<Loan>, c: multiset<Loan>)
    ensures (a + b) + c == a + (b + c) && a + b == b + a && a + multiset{} == a
  {
  }

  lemma {:induction false} LentNext(v: seq<Major>, m: Major)
    ensures Lent([]) == multiset{} && Lent(v + [m]) == Lent(v) + multiset{Loan(m.addr, m.pages)}
  {
    assert (v + [m])[..|v|] == v;
  }

  lemma {:induction false} LentConcat(a: seq<Major>, b: seq<Major>)
    ensures Lent(a + b) == Lent(a) + Lent(b)
    decreases |b|
  {
    hide Lent;
    if b == [] {
      LentNext([], Major(0, 0, []));
      assert a + b == a;
    } else {
      var front, last := b[..|b|-1], b[|b|-1];
      assert b == front + [last] && a + b == (a + front) + [last];
      LentConcat(a, front);
      LentNext(a + front, last);
      LentNext(front, last);
      MultisetAssoc(Lent(a), Lent(front), multiset{Loan(last.addr, last.pages)});
    }
  }

  lemma LentAround(v: seq<Major>, i: nat, m: Major)
    requires i < |v|
    ensures Lent(v[i := m]) == Lent(v[..i] + v[i+1..]) + multiset{Loan(m.addr, m.pages)}
  {
    var loan := multiset{Loan(m.addr, m.pages)};
    SingledOut(v, i, m);
    LentConcat(v[..i] + [m], v[i+1..]);
    LentConcat(v[..i], [m]);
    LentConcat(v[..i], v[i+1..]);
    assert [m][..0] == [] && Lent([m]) == loan by { MultisetAssoc(multiset{}, loan, loan); }
    MultisetAssoc(Lent(v[..i]), loan, Lent(v[i+1..]));
    MultisetAssoc(loan, Lent(v[i+1..]), loan);
    MultisetAssoc(Lent(v[..i]), Lent(v[i+1..]), loan);
  }

  /** A release returns a loan exactly when it empties a major, whole and with its page count. */
  lemma {:induction false} ReleaseLent(v: seq<Major>, i: nat, j: nat)
    requires IsBlock(v, i, j)
    ensures Lent(v) == Lent(Release(v, i, j)) + multiset(Returned(v, i))
  {
    var m := RemoveBlock(v[i], j);
    assert v[i := v[i]] == v;
    LentAround(v, i, v[i]);
    LentAround(v, i, m);
    MultisetAssoc(Lent(Release(v, i, j)), multiset{}, multiset{});
    assert |m.blocks| == |v[i].blocks| - 1;
  }

  lemma {:induction false} FreesCount(v: seq<Major>, ps: seq<nat>, v': seq<Major>, returned: seq<Loan>)
    requires HeapOk(v) && NoneEmpty(v) && Frees(v, ps, v', returned)
    ensures NoneEmpty(v') && Blocks(v') + |ps| == Blocks(v)
    decreases |ps|
  {
    if ps != [] {
      var i: nat, j: nat :| FreesFirst(v, ps, v', returned, i, j);
      ReleaseOk(v, i, j);
      ReleaseBlocks(v, i, j);
      FreesCount(Release(v, i, j), ps[1..], v', returned[|Returned(v, i)|..]);
    }
  }

  lemma {:induction false} FreesLent(v: seq<Major>, ps: seq<nat>, v': seq<Major>, returned: seq<Loan>)
    requires Frees(v, ps, v', returned)
    ensures Lent(v') + multiset(returned) == Lent(v)
    decreases |ps|
  {
    if ps == [] {
      MultisetAssoc(Lent(v), multiset{}, multiset{});
    } else {
      var i: nat, j: nat :| FreesFirst(v, ps, v', returned, i, j);
      FreesLent(Release(v, i, j), ps[1..], v', returned[|Returned(v, i)|..]);
      ReleaseLent(v, i, j);
      LentStep(Lent(v'), Lent(Release(v, i, j)), Returned(v, i), returned);
    }
  }

  lemma LentStep(final: multiset<Loan>, between: multiset<Loan>, first: seq<Loan>, returned: seq<Loan>)
    requires first <= returned && final + multiset(returned[|first|..]) == between
    ensures final + multiset(returned) == between + multiset(first)
  {
    var rest := returned[|first|..];
    assert returned == first + rest;
    MultisetAssoc(final, multiset(rest), multiset(first));
    MultisetAssoc(multiset(rest), multiset(first), multiset{});
  }

  /**
   Freeing as many pointers as there are blocks, in any order in which each is live when freed,
   leaves no major and both totals 0, and has returned every loan with its original page count.
   */
  lemma {:induction false} FreeEverything(v: seq<Major>, ps: seq<nat>, v': seq<Major>, returned: seq<Loan>)
    requires HeapOk(v) && NoneEmpty(v) && Frees(v, ps, v', returned) && |ps| == Blocks(v)
    ensures v' == [] && InUse(v') == 0 && Allocated(v') == 0
    ensures multiset(returned) == Lent(v)
  {
    FreesCount(v, ps, v', returned);
    BlocksCoverMajors(v');
    FreesLent(v, ps, v', returned);
    MultisetAssoc(multiset(returned), multiset{}, multiset{});
  }

  // ---------- in any order ----------

  /** p is the pointer of some block. */
  ghost predicate Live(v: seq<Major>, p: nat) {
    exists i: nat, j: nat {:trigger At(v, p, i, j)} :: At(v, p, i, j)
  }

  /** Releasing a block leaves every other pointer live. */
  lemma {:induction false} OthersLive(v: seq<Major>, i: nat, j: nat, q: nat)
    requires HeapOk(v) && IsBlock(v, i, j) && Live(v, q) && q != Ptr(v[i].blocks[j])
    ensures Live(Release(v, i, j), q)
  {
    var k: nat, l: nat :| At(v, q, k, l);
    var v', b := Release(v, i, j), v[k].blocks[l];
    if RemoveBlock(v[i], j).blocks == [] {
      assert |v[i].blocks| == 1 && k != i;
      var k' := if k < i then k else k - 1;
      assert v'[k'] == v[k] && At(v', q, k', l);
    } else {
      var l' := if k == i && l > j then l - 1 else l;
      assert v'[k].blocks[l'] == b && At(v', q, k, l');
    }
  }

  /** The pointer of a released block is not live any more. */
  lemma {:induction false} ReleasedDead(v: seq<Major>, p: nat, i: nat, j: nat)
    requires HeapOk(v) && At(v, p, i, j)
    ensures !Live(Release(v, i, j), p)
  {
    hide HeapOk;
    var v' := Release(v, i, j);
    if k: nat, l: nat :| At(v', p, k, l) {
      if RemoveBlock(v[i], j).blocks == [] {
        PtrUnique(v, p, i, j, if k < i then k else k + 1, l);
      } else {
        PtrUnique(v, p, i, j, k, if k == i && l >= j then l + 1 else l);
      }
    }
  }

  /** Any live pointers, each once, can be freed in the order they are listed. */
  lemma {:induction false} FreesAnyOrder(v: seq<Major>, ps: seq<nat>) returns (v': seq<Major>, returned: seq<Loan>)
    requires HeapOk(v) && NoneEmpty(v) && NoDup(ps) && forall p :: p in ps ==> Live(v, p)
    ensures Frees(v, ps, v', returned)
    decreases |ps|
  {
    if ps == [] {
      v', returned := v, [];
    } else {
      assert Live(v, ps[0]);
      var i: nat, j: nat :| At(v, ps[0], i, j);
      ReleaseOk(v, i, j);
      forall q | q in ps[1..] ensures Live(Release(v, i, j), q) {
        var k :| 1 <= k < |ps| && ps[k] == q;
        assert ps[0] != ps[k];
        OthersLive(v, i, j, q);
      }
      var rest;
      v', rest := FreesAnyOrder(Release(v, i, j), ps[1..]);
      returned := Returned(v, i) + rest;
      assert returned[|Returned(v, i)|..] == rest;
      assert FreesFirst(v, ps, v', returned, i, j);
    }
  }

  /** The pointers of a major's blocks, in address order. */
  function MajorPointers(m: Major): (ps: seq<nat>)
    ensures |ps| == |m.blocks| && forall l :: 0 <= l < |ps| ==> ps[l] == Ptr(m.blocks[l])
  {
    seq(|m.blocks|, i requires 0 <= i < |m.blocks| => Ptr(m.blocks[i]))
  }

  /** The pointers of all blocks, major by major. */
  function Pointers(v: seq<Major>): seq<nat> {
    if v == [] then [] else Pointers(v[..|v|-1]) + MajorPointers(v[|v|-1])
  }

  lemma {:induction false} HeapPrefix(v: seq<Major>)
    requires HeapOk(v) && v != []
    ensures HeapOk(v[..|v|-1])
  {
    var w := v[..|v|-1];
    forall i, j | 0 <= i < j < |w| ensures Apart(w[i], w[j]) {
      assert Apart(v[i], v[j]);
    }
  }

  /** They are as many as there are blocks, and each is live. */
  lemma {:induction false} PointersLive(v: seq<Major>)
    ensures |Pointers(v)| == Blocks(v)
    ensures forall p :: p in Pointers(v) ==> Live(v, p)
    decreases |v|
  {
    if v != [] {
      var n := |v| - 1;
      PointersLive(v[..n]);
      forall p | p in Pointers(v) ensures Live(v, p) {
        if p in Pointers(v[..n]) {
          var i: nat, j: nat :| At(v[..n], p, i, j);
          assert At(v, p, i, j);
        } else {
          var l :| 0 <= l < |MajorPointers(v[n])| && MajorPointers(v[n])[l] == p;
          assert At(v, p, n, l);
        }
      }
    }
  }

  /** No two are the same. */
  lemma {:induction false} PointersDistinct(v: seq<Major>)
    requires HeapOk(v)
    ensures NoDup(Pointers(v))
    decreases |v|
  {
    if v != [] {
      var n := |v| - 1;
      var front, last := Pointers(v[..n]), MajorPointers(v[n]);
      HeapPrefix(v);
      PointersDistinct(v[..n]);
      PointersLive(v[..n]);
      forall a, b | 0 <= a < b < |last| ensures last[a] != last[b] {
        assert At(v, last[a], n, a) && At(v, last[b], n, b);
        if last[a] == last[b] { PtrUnique(v, last[a], n, a, n, b); }
      }
      forall p | p in front ensures p !in last {
        var i: nat, j: nat :| At(v[..n], p, i, j);
        if p in last {
          var b :| 0 <= b < |last| && last[b] == p;
          assert At(v, p, i, j) && At(v, p, n, b);
          PtrUnique(v, p, i, j, n, b);
        }
      }
      NoDupConcat(front, last);
    }
  }

  /**
   All blocks can be freed in every order of their pointers, and whichever order it is, no major is
   left, both totals are 0, and every loan has been returned with its original page count.
   */
  lemma {:induction false} FreeAllInAnyOrder(v: seq<Major>, ps: seq<nat>)
    requires HeapOk(v) && NoneEmpty(v) && multiset(ps) == multiset(Pointers(v))
    ensures exists v', returned :: Frees(v, ps, v', returned)
    ensures forall v', returned :: Frees(v, ps, v', returned) ==>
              v' == [] && InUse(v') == 0 && Allocated(v') == 0 && multiset(returned) == Lent(v)
  {
    PointersLive(v);
    PointersDistinct(v);
    NoDupCount(Pointers(v));
    NoDupCount(ps);
    SameCount(ps, Pointers(v));
    var w, r := FreesAnyOrder(v, ps);
    assert Frees(v, ps, w, r);
    forall v', returned | Frees(v, ps, v', returned)
      ensures v' == [] && InUse(v') == 0 && Allocated(v') == 0 && multiset(returned) == Lent(v)
    {
      FreeEverything(v, ps, v', returned);
    }
  }

  lemma {:induction false} SameCount(a: seq<nat>, b: seq<nat>)
    requires multiset(a) == multiset(b)
    ensures |a| == |b| && forall x :: x in a <==> x in b
  {
    assert |multiset(a)| == |a| && |multiset(b)| == |b|;
    forall x ensures x in a <==> x in b {
      assert x in a <==> x in multiset(a);
      assert x in b <==> x in multiset(b);
    }
  }
}
