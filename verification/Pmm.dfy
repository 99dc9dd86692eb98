/**
 The physical page allocator: a stack of free frame addresses, kept in memory that the
 allocator cuts off one of the regions it manages.
 */
module Pmm {
  import opened Arithmetic
  import opened MemoryMap
  import opened Sequences

  // ---------- what the operations do to the allocator's state ----------

  /** free and used are the two counters the code keeps beside the stack. */
  datatype State = State(stack: seq<nat>, total: nat, free: int, used: int)

  /** pmm_request_pages: pop n slots, hand out the address in the lowest; 0 stands for NULL. */
  function Request(s: State, n: nat): (State, nat) {
    if n == 0 || |s.stack| < n then (s, 0)
    else
      var left := |s.stack| - n;
      (s.(stack := s.stack[..left], free := s.free - n, used := s.used + n), s.stack[left])
  }

  /** The slots a request takes off the stack. */
  function Popped(s: State, n: nat): seq<nat> {
    if n == 0 || |s.stack| < n then [] else s.stack[|s.stack| - n..]
  }

  /** pmm_free_pages: push n consecutive addresses; when the stack fills up, stop and leave the counters. */
  function Free(s: State, p: nat, n: nat): State {
    if |s.stack| + n <= s.total then
      s.(stack := s.stack + FramesFrom(p, n), free := s.free + n, used := s.used - n)
    else
      s.(stack := s.stack + FramesFrom(p, if |s.stack| <= s.total then s.total - |s.stack| else 0))
  }

  /** What pmm_free_pages asserts does not hold: the machine stops before anything has changed. */
  predicate Halts(p: nat, n: nat) {
    p == 0 || p % PAGE_SIZE != 0 || n == 0
  }

  // ---------- ownership over any run ----------

  /** owned are the frames that have been popped and not given back. */
  datatype World = World(pm: State, owned: set<nat>)

  datatype Op = Take(n: nat) | Give(p: nat, n: nat)

  function Step(w: World, op: Op): World {
    match op
    case Take(n) => World(Request(w.pm, n).0, w.owned + ToSet(Popped(w.pm, n)))
    case Give(p, n) => if Halts(p, n) then w else World(Free(w.pm, p, n), w.owned - ToSet(FramesFrom(p, n)))
  }

  /** Clients give back only what they own. */
  ghost predicate Allowed(w: World, op: Op) {
    op.Give? ==> ToSet(FramesFrom(op.p, op.n)) <= w.owned
  }

  function Run(w: World, ops: seq<Op>): World
    decreases |ops|
  {
    if ops == [] then w else Run(Step(w, ops[0]), ops[1..])
  }

  ghost predicate AllowedRun(w: World, ops: seq<Op>)
    decreases |ops|
  {
    ops == [] || (Allowed(w, ops[0]) && AllowedRun(Step(w, ops[0]), ops[1..]))
  }

  /** The stack and the owned frames split `all`, and both counters tell the truth. */
  ghost predicate Inv(w: World, all: set<nat>) {
    && NoDup(w.pm.stack)
    && ToSet(w.pm.stack) !! w.owned
    && ToSet(w.pm.stack) + w.owned == all
    && w.pm.free == |w.pm.stack|
    && w.pm.used == |w.owned|
    && |all| <= w.pm.total
  }

  lemma InvCounts(w: World, all: set<nat>)
    requires Inv(w, all)
    ensures |w.pm.stack| + |w.owned| == |all|
  {
    NoDupCard(w.pm.stack);
    assert |ToSet(w.pm.stack) + w.owned| == |ToSet(w.pm.stack)| + |w.owned|;
  }

  lemma {:induction false} TakeInv(w: World, n: nat, all: set<nat>)
    requires Inv(w, all) && 0 < n <= |w.pm.stack|
    ensures Inv(Step(w, Take(n)), all)
  {
    hide NoDup;
    var s, left := w.pm.stack, |w.pm.stack| - n;
    SplitStack(s, left);
    MoveFrames(ToSet(s), ToSet(s[..left]), ToSet(s[left..]), w.owned, all);
  }

  lemma {:induction false} MoveFrames(free: set<nat>, low: set<nat>, high: set<nat>, owned: set<nat>, all: set<nat>)
    requires free !! owned && free + owned == all && low !! high && low + high == free
    ensures low !! (owned + high) && low + (owned + high) == all
    ensures |owned + high| == |owned| + |high|
  {
    assert low + (owned + high) == free + owned;
  }

  lemma {:induction false} SplitStack(s: seq<nat>, left: nat)
    requires NoDup(s) && left <= |s|
    ensures NoDup(s[..left]) && |ToSet(s[left..])| == |s| - left
    ensures ToSet(s[..left]) !! ToSet(s[left..]) && ToSet(s[..left]) + ToSet(s[left..]) == ToSet(s)
  {
    assert s == s[..left] + s[left..];
    NoDupCard(s[left..]);
  }

  lemma GiveInv(w: World, p: nat, n: nat, all: set<nat>)
    requires Inv(w, all) && Allowed(w, Give(p, n))
    ensures Inv(Step(w, Give(p, n)), all)
    ensures |w.pm.stack| + n <= w.pm.total
  {
    hide NoDup, FramesFrom, Halts;
    var fs := FramesFrom(p, n);
    DistinctFrames(p, n);
    NoDupCard(fs);
    InvCounts(w, all);
    GiveSets(w.owned, ToSet(fs), ToSet(w.pm.stack), all);
    AppendedSet(w.pm.stack, fs);
    NoDupConcat(w.pm.stack, fs);
  }

  lemma {:induction false} DistinctFrames(p: nat, n: nat)
    ensures NoDup(FramesFrom(p, n)) && |FramesFrom(p, n)| == n
  {
  }

  lemma {:induction false} GiveSets(owned: set<nat>, given: set<nat>, free: set<nat>, all: set<nat>)
    requires given <= owned && free !! owned && free + owned == all
    ensures |owned| == |owned - given| + |given|
    ensures (free + given) !! (owned - given) && (free + given) + (owned - given) == all
  {
    assert owned == (owned - given) + given;
  }

  lemma StepInv(w: World, op: Op, all: set<nat>)
    requires Inv(w, all) && Allowed(w, op)
    ensures Inv(Step(w, op), all)
  {
    match op {
      case Take(n) =>
        if 0 < n <= |w.pm.stack| {
          TakeInv(w, n, all);
        } else {
          assert w.owned + ToSet(Popped(w.pm, n)) == w.owned;
        }
      case Give(p, n) => GiveInv(w, p, n, all);
    }
  }

  /**
   Over any run in which clients give back only what they own: no frame is lost, duplicated or
   owned while free, no free ever overflows the stack, and free + used stays constant.
   */
  lemma {:induction false} RunInv(w: World, ops: seq<Op>, all: set<nat>)
    requires Inv(w, all) && AllowedRun(w, ops)
    ensures Inv(Run(w, ops), all)
    ensures Run(w, ops).pm.free + Run(w, ops).pm.used == |all|
    decreases |ops|
  {
    if ops == [] {
      InvCounts(w, all);
    } else {
      StepInv(w, ops[0], all);
      RunInv(Step(w, ops[0]), ops[1..], all);
    }
  }

  /** A well-formed memory map starts such a run, with every frame free and none owned. */
  lemma {:induction false} InitInv(m: seq<Entry>)
    requires WellFormed(m) && CarveIndex(m, StackSize(m)) >= 0
    ensures var fs := UsableFrames(Carved(m));
            Inv(World(State(fs, TotalPages(m), |fs|, 0), {}), ToSet(fs)) && Addresses(ToSet(fs))
  {
    CarveSplits(m);
    NoDupCard(UsableFrames(Carved(m)));
    CarvedAddresses(m);
  }

  /** Frames the code takes for frames: no NULL among them, and all page aligned. */
  ghost predicate Addresses(all: set<nat>) {
    forall f :: f in all ==> f != 0 && f % PAGE_SIZE == 0
  }

  lemma {:induction false} CarvedAddresses(m: seq<Entry>)
    requires WellFormed(m) && CarveIndex(m, StackSize(m)) >= 0
    ensures Addresses(ToSet(UsableFrames(Carved(m))))
  {
    CarveSplits(m);
    UsableFramesExact(m);
  }

  /** In every state of a run a request is answered NULL exactly if it is refused. */
  lemma {:induction false} NullIsRefusal(w: World, n: nat, all: set<nat>)
    requires Inv(w, all) && Addresses(all)
    ensures Request(w.pm, n).1 == 0 <==> n == 0 || |w.pm.stack| < n
  {
    if 0 < n <= |w.pm.stack| {
      assert w.pm.stack[|w.pm.stack| - n] in ToSet(w.pm.stack);
    }
  }

  /** Giving back owned frames never stops the machine. */
  lemma {:induction false} OwnedNeverHalts(w: World, p: nat, n: nat, all: set<nat>)
    requires Inv(w, all) && Addresses(all) && Allowed(w, Give(p, n)) && n > 0
    ensures !Halts(p, n)
  {
    assert FramesFrom(p, n)[0] == p && p in ToSet(FramesFrom(p, n));
  }

  /**
   Giving frames back keeps the partition exactly if they are owned, or an assertion stops the
   machine, or the stack is full, so that nothing is owned and nothing is pushed.
   */
  lemma {:induction false} GiveExact(w: World, p: nat, n: nat, all: set<nat>)
    requires Inv(w, all)
    ensures Inv(Step(w, Give(p, n)), all) <==> Allowed(w, Give(p, n)) || Halts(p, n) || |w.pm.stack| == w.pm.total
  {
    InvCounts(w, all);
    if !Halts(p, n) {
      if Allowed(w, Give(p, n)) {
        GiveInv(w, p, n, all);
      } else if |w.pm.stack| == w.pm.total {
        PushNothing(w, p, n);
      } else if |w.pm.stack| + n <= w.pm.total {
        PushForeign(w, p, n, all);
      }
    }
  }

  lemma {:induction false} PushNothing(w: World, p: nat, n: nat)
    requires |w.pm.stack| == w.pm.total && w.owned == {} && n > 0
    ensures Free(w.pm, p, n) == w.pm && w.owned - ToSet(FramesFrom(p, n)) == w.owned
  {
    assert w.pm.stack + FramesFrom(p, 0) == w.pm.stack;
  }

  lemma {:induction false} PushForeign(w: World, p: nat, n: nat, all: set<nat>)
    requires Inv(w, all) && !Allowed(w, Give(p, n)) && |w.pm.stack| + n <= w.pm.total
    ensures !Inv(World(Free(w.pm, p, n), w.owned - ToSet(FramesFrom(p, n))), all)
  {
    var fs, s := FramesFrom(p, n), w.pm.stack;
    var f :| f in ToSet(fs) && f !in w.owned;
    var j :| 0 <= j < n && fs[j] == f;
    assert (s + fs)[|s| + j] == f && f in ToSet(s + fs);
    if f in s {
      var i :| 0 <= i < |s| && s[i] == f;
      assert (s + fs)[i] == (s + fs)[|s| + j];
    }
  }

  // ---------- contiguity of multi-page blocks ----------

  /** The stack is a sequence of ascending runs of k consecutive frames. */
  ghost predicate Chunked(s: seq<nat>, k: nat)
    decreases |s|
  {
    s == [] || (0 < k <= |s| && s[|s|-k..] == FramesFrom(s[|s|-k], k) && Chunked(s[..|s|-k], k))
  }

  lemma {:induction false} CutSum(a: seq<nat>, b: seq<nat>, n: nat)
    requires n <= |b|
    ensures (a + b)[..|a| + n] == a + b[..n] && (a + b)[|a| + n..] == b[n..]
  {
  }

  lemma {:induction false} ChunkedConcat(a: seq<nat>, b: seq<nat>, k: nat)
    requires Chunked(a, k) && Chunked(b, k)
    ensures Chunked(a + b, k)
    decreases |b|
  {
    if b == [] {
      assert a + b == a;
    } else {
      var n := |b| - k;
      ChunkedConcat(a, b[..n], k);
      CutSum(a, b, n);
    }
  }

  lemma {:induction false} ChunkedRegion(base: nat, q: nat, k: nat)
    requires k > 0
    ensures Chunked(FramesFrom(base, q * k), k)
  {
    if q > 0 {
      var n := q * k;
      assert n - k == (q - 1) * k;
      var s := FramesFrom(base, n);
      ChunkedRegion(base, q - 1, k);
      assert s[..n-k] == FramesFrom(base, n - k);
      assert s[n-k..] == FramesFrom(s[n-k], k);
    }
  }

  lemma ChunkedEntry(base: nat, n: nat, k: nat)
    requires k > 0 && n % k == 0
    ensures Chunked(FramesFrom(base, n), k)
  {
    assert n == n / k * k;
    ChunkedRegion(base, n / k, k);
  }

  /** If every usable region is a multiple of k pages, initialisation leaves a chunked stack. */
  lemma {:induction false} InitChunked(m: seq<Entry>, k: nat)
    requires k > 0
    requires forall i :: 0 <= i < |m| && m[i].kind == Usable ==> AlignUp(m[i].length) / PAGE_SIZE % k == 0
    ensures Chunked(UsableFrames(m), k)
  {
    if m != [] {
      var front, e := m[..|m|-1], m[|m|-1];
      InitChunked(front, k);
      if e.kind == Usable {
        ChunkedEntry(e.base, AlignUp(e.length) / PAGE_SIZE, k);
      }
      ChunkedConcat(UsableFrames(front), FramesOf(e), k);
    }
  }

  /**
   As far as requests of k can reach, the stack is a sequence of ascending runs of k consecutive
   frames; fewer than k slots may be left below.
   */
  ghost predicate TopChunked(s: seq<nat>, k: nat)
    requires k > 0
    decreases |s|
  {
    |s| < k || (s[|s|-k..] == FramesFrom(s[|s|-k], k) && TopChunked(s[..|s|-k], k))
  }

  /** Chunks from top to bottom are the case without a rest. */
  lemma {:induction false} ChunkedIsTop(s: seq<nat>, k: nat)
    requires k > 0
    ensures Chunked(s, k) <==> TopChunked(s, k) && |s| % k == 0
    decreases |s|
  {
    if |s| < k {
      SmallMultiple(|s|, k);
    } else {
      ChunkedIsTop(s[..|s|-k], k);
      OneChunkLess(|s|, k);
    }
  }

  lemma SmallMultiple(n: nat, k: nat)
    requires n < k
    ensures n % k == 0 <==> n == 0
  {
  }

  lemma {:induction false} OneChunkLess(n: nat, k: nat)
    requires 0 < k <= n
    ensures (n - k) % k == n % k
  {
    Remainder(n, k, (n - k) / k + 1, (n - k) % k);
  }

  /** A run in which every request and every free has size k; blocks are the addresses in use. */
  datatype BlockWorld = BlockWorld(pm: State, blocks: set<nat>)

  datatype BlockOp = TakeBlock | GiveBlock(p: nat)

  function BlockStep(w: BlockWorld, op: BlockOp, k: nat): BlockWorld {
    match op
    case TakeBlock =>
      var (pm, p) := Request(w.pm, k);
      BlockWorld(pm, if |w.pm.stack| < k then w.blocks else w.blocks + {p})
    case GiveBlock(p) => if Halts(p, k) then w else BlockWorld(Free(w.pm, p, k), w.blocks - {p})
  }

  function BlockRun(w: BlockWorld, ops: seq<BlockOp>, k: nat): BlockWorld
    decreases |ops|
  {
    if ops == [] then w else BlockRun(BlockStep(w, ops[0], k), ops[1..], k)
  }

  /** Only blocks in use are given back. */
  ghost predicate BlockAllowed(w: BlockWorld, ops: seq<BlockOp>, k: nat)
    decreases |ops|
  {
    ops == [] || (
      && (ops[0].GiveBlock? ==> ops[0].p in w.blocks)
      && BlockAllowed(BlockStep(w, ops[0], k), ops[1..], k))
  }

  /** The stack has room for its frames and for all blocks in use. */
  ghost predicate Room(w: BlockWorld, k: nat) {
    |w.pm.stack| + |w.blocks| * k <= w.pm.total
  }

  lemma OneBlockMore(n: nat, k: nat)
    ensures (n + 1) * k == n * k + k
  {
  }

  lemma {:induction false} TakeRoom(w: BlockWorld, k: nat)
    requires Room(w, k) && 0 < k <= |w.pm.stack|
    ensures Room(BlockStep(w, TakeBlock, k), k)
  {
    var p := Request(w.pm, k).1;
    OneBlockMore(|w.blocks|, k);
    if p in w.blocks {
      assert w.blocks + {p} == w.blocks;
    }
  }

  lemma {:induction false} GiveRoom(w: BlockWorld, p: nat, k: nat)
    requires Room(w, k) && p in w.blocks
    ensures |w.pm.stack| + k <= w.pm.total && Room(BlockStep(w, GiveBlock(p), k), k)
    ensures !Halts(p, k) ==> BlockStep(w, GiveBlock(p), k).pm.stack == w.pm.stack + FramesFrom(p, k)
  {
    OneBlockMore(|w.blocks - {p}|, k);
    assert |w.blocks| == |w.blocks - {p}| + 1;
  }

  lemma {:induction false} TopChunkedGive(s: seq<nat>, p: nat, k: nat)
    requires k > 0 && TopChunked(s, k)
    ensures TopChunked(s + FramesFrom(p, k), k)
  {
    var t := s + FramesFrom(p, k);
    assert t[|t|-k..] == FramesFrom(p, k) && t[..|t|-k] == s;
    assert t[|t|-k] == FramesFrom(p, k)[0] == p;
  }

  // ---------- exactly when blocks of one size are contiguous ----------

  /** The next request of k, if it succeeds, is handed the k consecutive frames it is charged for. */
  ghost predicate NextContiguous(w: BlockWorld, k: nat) {
    k <= |w.pm.stack| ==> Popped(w.pm, k) == FramesFrom(Request(w.pm, k).1, k)
  }

  /** Whatever is allowed to happen, the next request is handed consecutive frames. */
  ghost predicate AlwaysContiguous(w: BlockWorld, k: nat) {
    forall ops :: BlockAllowed(w, ops, k) ==> NextContiguous(BlockRun(w, ops, k), k)
  }

  lemma {:induction false} RunsContiguous(w: BlockWorld, ops: seq<BlockOp>, k: nat)
    requires k > 0 && TopChunked(w.pm.stack, k) && Room(w, k) && BlockAllowed(w, ops, k)
    ensures NextContiguous(BlockRun(w, ops, k), k)
    decreases |ops|
  {
    hide FramesFrom, Free, Room, Halts;
    if ops != [] {
      match ops[0] {
        case TakeBlock =>
          if k <= |w.pm.stack| { TakeRoom(w, k); } else { assert BlockStep(w, ops[0], k) == w; }
        case GiveBlock(p) =>
          GiveRoom(w, p, k);
          TopChunkedGive(w.pm.stack, p, k);
      }
      RunsContiguous(BlockStep(w, ops[0], k), ops[1..], k);
    }
  }

  /** If some chunk within reach is not consecutive, requesting down to it shows it. */
  lemma {:induction false} ReachGap(w: BlockWorld, k: nat) returns (ops: seq<BlockOp>)
    requires k > 0 && !TopChunked(w.pm.stack, k)
    ensures BlockAllowed(w, ops, k) && !NextContiguous(BlockRun(w, ops, k), k)
    decreases |w.pm.stack|
  {
    if !NextContiguous(w, k) {
      ops := [];
    } else {
      var rest := ReachGap(BlockStep(w, TakeBlock, k), k);
      ops := [TakeBlock] + rest;
      assert ops[1..] == rest;
    }
  }

  /**
   With no blocks in use and room for the stack, requests and frees of one size k are handed
   consecutive frames in every run exactly if the stack is chunked as far as they can reach.
   */
  lemma {:induction false} ContiguityExact(pm: State, k: nat)
    requires k > 0 && |pm.stack| <= pm.total
    ensures AlwaysContiguous(BlockWorld(pm, {}), k) <==> TopChunked(pm.stack, k)
  {
    var w := BlockWorld(pm, {});
    assert |w.blocks| * k == 0;
    if TopChunked(pm.stack, k) {
      forall ops | BlockAllowed(w, ops, k) ensures NextContiguous(BlockRun(w, ops, k), k) {
        RunsContiguous(w, ops, k);
      }
    } else {
      var ops := ReachGap(w, k);
      assert BlockAllowed(w, ops, k);
    }
  }

  // ---------- blocks of one's own ----------

  ghost predicate BlocksApart(p: nat, q: nat, k: nat) {
    ToSet(FramesFrom(p, k)) !! ToSet(FramesFrom(q, k))
  }

  /** Every block in use is k frames of its own: none free, none shared with another block. */
  ghost predicate BlockInv(w: BlockWorld, k: nat) {
    && k > 0 && Room(w, k)
    && NoDup(w.pm.stack)
    && TopChunked(w.pm.stack, k)
    && (forall p :: p in w.blocks ==> ToSet(FramesFrom(p, k)) !! ToSet(w.pm.stack))
    && (forall p, q :: p in w.blocks && q in w.blocks && p != q ==> BlocksApart(p, q, k))
  }

  /** The top chunk is a block of its own, and what is left is chunked again. */
  lemma {:induction false} TopChunk(s: seq<nat>, k: nat)
    requires 0 < k <= |s| && NoDup(s) && TopChunked(s, k)
    ensures var p, rest := s[|s|-k], s[..|s|-k];
            && s[|s|-k..] == FramesFrom(p, k) && NoDup(rest) && TopChunked(rest, k)
            && ToSet(FramesFrom(p, k)) <= ToSet(s) && ToSet(rest) <= ToSet(s)
            && ToSet(FramesFrom(p, k)) !! ToSet(rest)
  {
    assert s == s[..|s|-k] + s[|s|-k..];
  }

  lemma {:induction false} TakeBlockInv(w: BlockWorld, k: nat)
    requires BlockInv(w, k) && k <= |w.pm.stack|
    ensures Popped(w.pm, k) == FramesFrom(Request(w.pm, k).1, k)
    ensures BlockInv(BlockStep(w, TakeBlock, k), k)
  {
    hide TopChunked, FramesFrom, Room, NoDup;
    var s, p, w' := w.pm.stack, Request(w.pm, k).1, BlockStep(w, TakeBlock, k);
    TopChunk(s, k);
    TakeRoom(w, k);
    forall q | q in w.blocks ensures BlocksApart(p, q, k) && BlocksApart(q, p, k) {
    }
    forall q, r | q in w'.blocks && r in w'.blocks && q != r ensures BlocksApart(q, r, k) {
      if q in w.blocks && r in w.blocks { assert BlocksApart(q, r, k); }
    }
  }

  lemma {:induction false} GiveBlockInv(w: BlockWorld, p: nat, k: nat)
    requires BlockInv(w, k) && p in w.blocks
    ensures BlockInv(BlockStep(w, GiveBlock(p), k), k)
    ensures |w.pm.stack| + k <= w.pm.total
  {
    GiveRoom(w, p, k);
    if Halts(p, k) {
      return;
    }
    TopChunkedGive(w.pm.stack, p, k);
    var fs, w' := FramesFrom(p, k), BlockStep(w, GiveBlock(p), k);
    assert forall x :: x in ToSet(w.pm.stack) ==> x !in ToSet(fs);
    NoDupConcat(w.pm.stack, fs);
    forall q | q in w'.blocks ensures ToSet(FramesFrom(q, k)) !! ToSet(w'.pm.stack) {
      assert BlocksApart(q, p, k);
      assert ToSet(w'.pm.stack) == ToSet(w.pm.stack) + ToSet(fs);
    }
  }

  /**
   Under a uniform block size, in any order of requests and frees, every block handed out is
   exactly the k frames that were popped for it and overlaps no other block and no free frame.
   */
  lemma {:induction false} BlockRunInv(w: BlockWorld, ops: seq<BlockOp>, k: nat)
    requires BlockInv(w, k) && BlockAllowed(w, ops, k)
    ensures BlockInv(BlockRun(w, ops, k), k)
    decreases |ops|
  {
    if ops != [] {
      match ops[0] {
        case TakeBlock =>
          if k <= |w.pm.stack| { TakeBlockInv(w, k); } else { assert BlockStep(w, ops[0], k) == w; }
        case GiveBlock(p) => GiveBlockInv(w, p, k);
      }
      BlockRunInv(BlockStep(w, ops[0], k), ops[1..], k);
    }
  }

  /** pmm_init starts such a run when every usable region it pushes is a multiple of k pages. */
  lemma {:induction false} InitBlocks(m: seq<Entry>, k: nat)
    requires WellFormed(m) && CarveIndex(m, StackSize(m)) >= 0 && k > 0
    requires forall i :: 0 <= i < |m| && Carved(m)[i].kind == Usable ==>
               AlignUp(Carved(m)[i].length) / PAGE_SIZE % k == 0
    ensures var fs := UsableFrames(Carved(m));
            BlockInv(BlockWorld(State(fs, TotalPages(m), |fs|, 0), {}), k)
  {
    var fs := UsableFrames(Carved(m));
    InitFrames(m);
    InitChunked(Carved(m), k);
    ChunkedIsTop(fs, k);
    StartBlocks(State(fs, TotalPages(m), |fs|, 0), k);
  }

  lemma {:induction false} StartBlocks(pm: State, k: nat)
    requires k > 0 && NoDup(pm.stack) && |pm.stack| <= pm.total && TopChunked(pm.stack, k)
    ensures BlockInv(BlockWorld(pm, {}), k)
  {
    assert |BlockWorld(pm, {}).blocks| * k == 0;
  }

  lemma {:induction false} InitFrames(m: seq<Entry>)
    requires WellFormed(m) && CarveIndex(m, StackSize(m)) >= 0
    ensures NoDup(UsableFrames(Carved(m))) && |UsableFrames(Carved(m))| <= TotalPages(m)
  {
    CarveSplits(m);
  }

  // ---------- mixed sizes ----------

  /** A memory map of one region of three pages. */
  const THREE_PAGES := [Entry(0x10_0000, 3 * PAGE_SIZE, Usable)]

  /** What pmm_init leaves of it: one page holds the stack, two are free. */
  lemma {:induction false} ThreePages()
    ensures WellFormed(THREE_PAGES) && TotalPages(THREE_PAGES) == 3
            && CarveIndex(THREE_PAGES, StackSize(THREE_PAGES)) == 0
    ensures UsableFrames(Carved(THREE_PAGES)) == [0x10_0000, 0x10_0000 + PAGE_SIZE]
  {
    var m := THREE_PAGES;
    assert m[..0] == [] && TotalPages([]) == 0;
    assert Carved(m) == [Entry(0x10_0000, 2 * PAGE_SIZE, Usable)];
    var c := Carved(m);
    assert c[..0] == [] && UsableFrames([]) == [];
    assert FramesOf(c[0]) == [0x10_0000, 0x10_0000 + PAGE_SIZE];
  }

  /** The state pmm_init leaves for a map. */
  function Booted(m: seq<Entry>): State {
    var fs := UsableFrames(Carved(m));
    State(fs, TotalPages(m), |fs|, 0)
  }

  /**
   Without a uniform size contiguity is lost, also from a chunked stack that pmm_init leaves: give
   back two single frames in descending order, and a request for two pages returns an address whose
   successor frame was not popped for it.
   */
  lemma {:induction false} MixedSizesBreakContiguity()
    ensures WellFormed(THREE_PAGES) && CarveIndex(THREE_PAGES, StackSize(THREE_PAGES)) >= 0
    ensures var w0, a := World(Booted(THREE_PAGES), {}), 0x10_0000;
            var ops := [Take(1)] + ([Take(1)] + ([Give(a + PAGE_SIZE, 1)] + ([Give(a, 1)] + [])));
            var w := Run(w0, ops);
            && TopChunked(w0.pm.stack, 2) && AllowedRun(w0, ops)
            && Popped(w.pm, 2) != FramesFrom(Request(w.pm, 2).1, 2)
  {
    var a := 0x10_0000;
    ThreePages();
    assert FramesFrom(a, 2) == [a, a + PAGE_SIZE];
    SwapTwo(a, 3);
  }

  lemma {:induction false} GiveOne(w: World, p: nat)
    requires p > 0 && p % PAGE_SIZE == 0 && |w.pm.stack| < w.pm.total
    ensures FramesFrom(p, 1) == [p]
    ensures Step(w, Give(p, 1)) ==
            World(State(w.pm.stack + [p], w.pm.total, w.pm.free + 1, w.pm.used - 1), w.owned - {p})
  {
    assert FramesFrom(p, 1) == [p] && ToSet([p]) == {p};
  }

  lemma {:induction false} SwapTwo(a: nat, total: nat)
    requires total >= 2 && a > 0 && a % PAGE_SIZE == 0
    ensures var w0 := World(State([a, a + PAGE_SIZE], total, 2, 0), {});
            var ops := [Take(1)] + ([Take(1)] + ([Give(a + PAGE_SIZE, 1)] + ([Give(a, 1)] + [])));
            var w := Run(w0, ops);
            && AllowedRun(w0, ops)
            && Popped(w.pm, 2) != FramesFrom(Request(w.pm, 2).1, 2)
  {
    var w1 := World(State([a], total, 1, 1), {a + PAGE_SIZE});
    var w2 := World(State([], total, 0, 2), {a + PAGE_SIZE, a});
    var w3 := World(State([a + PAGE_SIZE], total, 1, 1), {a});
    var w4 := World(State([a + PAGE_SIZE, a], total, 2, 0), {});
    var w0 := World(State([a, a + PAGE_SIZE], total, 2, 0), {});
    assert Step(w0, Take(1)) == w1;
    assert Step(w1, Take(1)) == w2;
    GiveOne(w2, a + PAGE_SIZE);
    GiveOne(w3, a);
    assert Step(w2, Give(a + PAGE_SIZE, 1)) == w3;
    assert Step(w3, Give(a, 1)) == w4;
    RunCons(w3, Give(a, 1), []);
    RunCons(w2, Give(a + PAGE_SIZE, 1), [Give(a, 1)] + []);
    RunCons(w1, Take(1), [Give(a + PAGE_SIZE, 1)] + ([Give(a, 1)] + []));
    RunCons(w0, Take(1), [Take(1)] + ([Give(a + PAGE_SIZE, 1)] + ([Give(a, 1)] + [])));
    assert FramesFrom(a + PAGE_SIZE, 2)[1] == a + 2 * PAGE_SIZE;
  }

  lemma RunCons(w: World, op: Op, ops: seq<Op>)
    ensures Run(w, [op] + ops) == Run(Step(w, op), ops)
    ensures AllowedRun(w, [op] + ops) <==> Allowed(w, op) && AllowedRun(Step(w, op), ops)
  {
    assert ([op] + ops)[1..] == ops;
  }

  // ---------- the allocator ----------

  class PageAllocator {
    var stack: array<nat>
    var stackIdx: nat
    var freePages: int
    var usedPages: int
    var totalPages: nat
    var hhdmOffset: nat
    var halted: bool  // an ASSERT failed and the machine stopped

    ghost predicate Valid()
      reads this
    {
      stackIdx <= totalPages <= stack.Length
    }

    ghost function Abs(): State
      reads this, stack
      requires Valid()
    {
      State(stack[..stackIdx], totalPages, freePages, usedPages)
    }

    /** The globals as the loader leaves them: zero, with no stack. */
    constructor ()
      ensures Valid() && Abs() == State([], 0, 0, 0) && fresh(stack) && !halted && hhdmOffset == 0
    {
      stack := new nat[0];
      stackIdx, freePages, usedPages, totalPages, hhdmOffset := 0, 0, 0, 0, 0;
      halted := false;
    }

    /**
     pmm_init. Returns 1 without a map or an offset, and 1 when more frames turn up than were
     counted; otherwise every usable frame outside the stack's own storage has been pushed in order.
     */
    method Init(memmap: array?<Entry>, hhdm: nat) returns (rc: int)
      requires Valid() && Abs() == State([], 0, 0, 0)
      requires memmap != null ==>
                 CarveIndex(memmap[..], StackSize(memmap[..])) >= 0 || TotalPages(memmap[..]) == 0
      modifies this, stack, memmap
      ensures Valid()
      ensures memmap == null || hhdm == 0 ==>
                rc == 1 && Abs() == old(Abs()) && (memmap != null ==> memmap[..] == old(memmap[..]))
      ensures memmap != null && hhdm != 0 ==>
                var fs, total := UsableFrames(Carved(old(memmap[..]))), TotalPages(old(memmap[..]));
                && memmap[..] == Carved(old(memmap[..]))
                && hhdmOffset == hhdm
                && rc == (if |fs| <= total then 0 else 1)
                && Abs() == (if |fs| <= total then State(fs, total, |fs|, 0) else State(fs[..total], total, 0, 0))
      ensures halted == old(halted)
    {
      hide UsableFrames, TotalPages, Carved, CarveIndex, AlignUp;
      if memmap == null {
        return 1;
      }
      if hhdm == 0 {
        return 1;
      }
      assert |Abs().stack| == stackIdx == totalPages == 0 && usedPages == freePages == 0;
      hhdmOffset := hhdm;
      var counted := CountPages(memmap);
      var stackSize := AlignUp(counted * 8);
      CarveStack(memmap, stackSize);
      totalPages := counted;
      rc := Fill(memmap);
    }

    /** The end of pmm_init: push all usable pages and count them. */
    method Fill(memmap: array<Entry>) returns (rc: int)
      requires stackIdx == 0 && freePages == usedPages == 0 && totalPages <= stack.Length
      modifies this`stackIdx, this`freePages, stack
      ensures Valid()
      ensures var fs := UsableFrames(memmap[..]);
              && rc == (if |fs| <= totalPages then 0 else 1)
              && Abs() == (if rc == 0 then State(fs, totalPages, |fs|, 0)
                           else State(fs[..totalPages], totalPages, 0, 0))
    {
      hide UsableFrames;
      rc := PushAll(memmap);
      if rc == 0 {
        freePages := stackIdx;
      }
    }

    /** The first loop of pmm_init. */
    static method CountPages(memmap: array<Entry>) returns (counted: nat)
      ensures counted == TotalPages(memmap[..])
    {
      ghost var m := memmap[..];
      counted := 0;
      for i := 0 to memmap.Length
        invariant counted == TotalPages(m[..i])
      {
        PrefixPages(m, i);
        if memmap[i].kind == Usable {
          counted := counted + memmap[i].length / PAGE_SIZE;
        }
      }
      assert m[..memmap.Length] == m;
    }

    /** The second loop of pmm_init: find room for the stack, from the last entry down. */
    method CarveStack(memmap: array<Entry>, size: nat)
      requires Valid() && stackIdx == totalPages == 0 && size == StackSize(memmap[..])
      modifies this`stack, memmap
      ensures memmap[..] == Carved(old(memmap[..]))
      ensures CarveIndex(old(memmap[..]), size) >= 0 ==> fresh(stack) && stack.Length == size / 8
      ensures CarveIndex(old(memmap[..]), size) < 0 ==> stack == old(stack)
    {
      ghost var m := memmap[..];
      var i := memmap.Length - 1;
      while i >= 0
        invariant -1 <= i < memmap.Length
        invariant memmap[..] == m && stack == old(stack)
        invariant forall k :: i < k < |m| ==> !Holds(m[k], size)
      {
        if memmap[i].kind == Usable && memmap[i].length >= size {
          CarveIndexPrefix(m, i, size);
          stack := new nat[size / 8](_ => 0);
          memmap[i] := memmap[i].(length := memmap[i].length - size);
          return;
        }
        i := i - 1;
      }
      if memmap.Length > 0 {
        CarveIndexPrefix(m, 0, size);
      }
    }

    /** The third loop of pmm_init: push the frames of every usable entry. */
    method PushAll(memmap: array<Entry>) returns (rc: int)
      requires stackIdx == 0 && totalPages <= stack.Length
      modifies this`stackIdx, stack
      ensures rc == if |UsableFrames(memmap[..])| <= totalPages then 0 else 1
      ensures stackIdx <= totalPages
      ensures rc == 0 ==> stackIdx <= stack.Length && stack[..stackIdx] == UsableFrames(memmap[..])
      ensures rc == 1 ==>
                stackIdx == totalPages <= stack.Length && stack[..stackIdx] == UsableFrames(memmap[..])[..totalPages]
    {
      ghost var m := memmap[..];
      rc := 0;
      for i := 0 to memmap.Length
        invariant stackIdx <= totalPages && stackIdx <= stack.Length
        invariant stack[..stackIdx] == UsableFrames(m[..i])
      {
        PrefixFrames(m, i);
        if memmap[i].kind == Usable {
          rc := PushEntry(memmap[i]);
          if rc != 0 {
            return;
          }
        }
      }
      assert m[..memmap.Length] == m;
    }

    /** The inner loop of the third loop of pmm_init. */
    method PushEntry(entry: Entry) returns (rc: int)
      requires entry.kind == Usable
      requires stackIdx <= totalPages <= stack.Length
      modifies this`stackIdx, stack
      ensures stackIdx <= totalPages
      ensures rc == if old(stackIdx) + |FramesOf(entry)| <= totalPages then 0 else 1
      ensures stack[..stackIdx] == if rc == 0 then old(stack[..stackIdx]) + FramesOf(entry)
                                              else (old(stack[..stackIdx]) + FramesOf(entry))[..totalPages]
    {
      ghost var before := stack[..stackIdx];
      var j := 0;
      while j < entry.length
        invariant j % PAGE_SIZE == 0 && 0 <= j <= AlignUp(entry.length)
        invariant stackIdx == old(stackIdx) + j / PAGE_SIZE <= totalPages
        invariant stack[..stackIdx] == before + FramesFrom(entry.base, j / PAGE_SIZE)
      {
        NextFrame(entry, j);
        if stackIdx >= totalPages {
          assert FramesFrom(entry.base, j / PAGE_SIZE) <= FramesOf(entry);
          return 1;
        }
        stack[stackIdx] := entry.base + j;
        stackIdx := stackIdx + 1;
        j := j + PAGE_SIZE;
      }
      return 0;
    }

    /** pmm_request_pages. */
    method RequestPages(pages: nat) returns (ptr: nat)
      requires Valid()
      modifies this`stackIdx, this`freePages, this`usedPages
      ensures Valid()
      ensures (Abs(), ptr) == Request(old(Abs()), pages)
    {
      if pages == 0 || stackIdx < pages {
        return 0;
      }
      stackIdx := stackIdx - pages;
      ptr := stack[stackIdx];
      assert stack[..stackIdx] == old(stack[..stackIdx])[..stackIdx];
      usedPages := usedPages + pages;
      freePages := freePages - pages;
    }

    /** pmm_free_pages. A NULL or unaligned pointer or a zero count stops the machine. */
    method FreePages(ptr: nat, pages: nat)
      requires Valid() && !halted
      modifies this, stack
      ensures Valid() && stack == old(stack) && hhdmOffset == old(hhdmOffset)
      ensures halted <==> ptr == 0 || ptr % 4096 != 0 || pages == 0
      ensures Abs() == if halted then old(Abs()) else Free(old(Abs()), ptr, pages)
      ensures !halted && old(stackIdx) + pages <= totalPages ==>
                && stackIdx == old(stackIdx) + pages
                && freePages == old(freePages) + pages && usedPages == old(usedPages) - pages
      ensures !halted && old(stackIdx) + pages > totalPages ==>
                stackIdx == totalPages && freePages == old(freePages) && usedPages == old(usedPages)
      ensures !halted ==>
                && stack[..old(stackIdx)] == old(stack[..stackIdx])
                && forall k :: old(stackIdx) <= k < stackIdx ==> stack[k] == ptr + (k - old(stackIdx)) * 4096
    {
      if ptr == 0 || ptr % PAGE_SIZE != 0 || pages == 0 {
        halted := true;
        return;
      }
      for i := 0 to pages
        invariant Valid() && unchanged(`stack, `totalPages, `freePages, `usedPages, `hhdmOffset, `halted)
        invariant old(stackIdx) + i == stackIdx
        invariant stack[..stackIdx] == old(stack[..stackIdx]) + FramesFrom(ptr, i)
      {
        if stackIdx >= totalPages {
          return;
        }
        stack[stackIdx] := ptr + i * PAGE_SIZE;
        stackIdx := stackIdx + 1;
      }
      freePages := freePages + pages;
      usedPages := usedPages - pages;
    }
  }

  lemma NextFrame(e: Entry, j: nat)
    requires e.kind == Usable && j % PAGE_SIZE == 0 && j < e.length
    ensures j + PAGE_SIZE <= AlignUp(e.length)
    ensures FramesFrom(e.base, (j + PAGE_SIZE) / PAGE_SIZE) == FramesFrom(e.base, j / PAGE_SIZE) + [e.base + j]
    ensures FramesFrom(e.base, (j + PAGE_SIZE) / PAGE_SIZE) <= FramesOf(e)
  {
  }
}
