/**
 The heap as its clients may think of it: a list of page-aligned majors, each with its blocks in
 address order. All addresses are byte addresses; headers take 40 bytes each.
 */
module HeapView {
  import opened Wrappers

  const MAJOR_HEADER := 40
  const MINOR_HEADER := 40
  const HEAP_PAGE := 4096
  const MIN_PAGES := 16
  const SLACK := 32 // ALIGNMENT + ALIGN_INFO
  type byte = b: nat | b < 256

  const LIMIT := 0x1_0000_0000

  /** A block: header at addr, then size bytes, of which the client asked for req. */
  datatype Block = Block(addr: nat, size: nat, req: nat)

  datatype Major = Major(addr: nat, pages: nat, blocks: seq<Block>)

  function Size(m: Major): nat {
    m.pages * HEAP_PAGE
  }

  function End(b: Block): nat {
    b.addr + MINOR_HEADER + b.size
  }

  // ---------- pointers ----------

  /** ALIGN: the first multiple of 16 at least 16 bytes into the block. */
  function Aligned(start: nat): (p: nat)
    ensures p % 16 == 0 && start + 16 <= p < start + SLACK
  {
    var p := start + 16;
    var diff := p % 16;
    if diff != 0 then p + (16 - diff) else p
  }

  /** The pointer the client of a block holds. */
  function Ptr(b: Block): nat {
    Aligned(b.addr + MINOR_HEADER)
  }

  /** The byte before the pointer where ALIGN keeps the distance back to the block, and that distance. */
  function TagAddr(b: Block): (a: nat)
    ensures b.addr + MINOR_HEADER <= a < b.addr + MINOR_HEADER + 16 && a + 16 == Ptr(b)
  {
    Ptr(b) - 16
  }

  function Tag(b: Block): (t: byte)
    ensures 16 <= t < SLACK
  {
    Ptr(b) - (b.addr + MINOR_HEADER)
  }

  // ---------- the invariant ----------

  ghost predicate BlockOk(m: Major, b: Block) {
    && m.addr + MAJOR_HEADER <= b.addr && End(b) <= m.addr + Size(m)
    && b.req + SLACK <= b.size
  }

  ghost predicate Before(a: Block, b: Block) {
    End(a) <= b.addr
  }

  /** Blocks lie inside the major, in address order, without overlap. */
  ghost predicate MajorOk(m: Major) {
    && m.addr > 0 && m.addr % HEAP_PAGE == 0 && m.pages > 0 && Size(m) < LIMIT
    && (forall j {:trigger BlockOk(m, m.blocks[j])} :: 0 <= j < |m.blocks| ==> BlockOk(m, m.blocks[j]))
    && (forall i, j {:trigger Before(m.blocks[i], m.blocks[j])} ::
          0 <= i < j < |m.blocks| ==> Before(m.blocks[i], m.blocks[j]))
  }

  ghost predicate Apart(a: Major, b: Major) {
    a.addr + Size(a) <= b.addr || b.addr + Size(b) <= a.addr
  }

  ghost predicate HeapOk(v: seq<Major>) {
    && (forall i :: 0 <= i < |v| ==> MajorOk(v[i]))
    && (forall i, j {:trigger Apart(v[i], v[j])} :: 0 <= i < j < |v| ==> Apart(v[i], v[j]))
  }

  /** Between calls every major holds a block. */
  ghost predicate NoneEmpty(v: seq<Major>) {
    forall i :: 0 <= i < |v| ==> v[i].blocks != []
  }

  // ---------- gaps ----------

  /** The j-th gap of a major lies before block j, or after the last block if j == |blocks|. */
  function GapLow(m: Major, j: nat): nat
    requires j <= |m.blocks|
  {
    if j == 0 then m.addr + MAJOR_HEADER else End(m.blocks[j-1])
  }

  function GapHigh(m: Major, j: nat): nat
    requires j <= |m.blocks|
  {
    if j == |m.blocks| then m.addr + Size(m) else m.blocks[j].addr
  }

  function Gap(m: Major, j: nat): int
    requires j <= |m.blocks|
  {
    GapHigh(m, j) - GapLow(m, j)
  }

  /** Bytes of headers and payload of a list of blocks. */
  function Taken(bs: seq<Block>): nat {
    if bs == [] then 0 else Taken(bs[..|bs|-1]) + (bs[|bs|-1].size + MINOR_HEADER)
  }

  /** The usage field of a major. */
  function Usage(m: Major): nat {
    MAJOR_HEADER + Taken(m.blocks)
  }

  function GapSum(m: Major, n: nat): int
    requires n <= |m.blocks| + 1
  {
    if n == 0 then 0 else GapSum(m, n - 1) + Gap(m, n - 1)
  }

  lemma {:induction false} GapSumPrefix(m: Major, n: nat)
    requires n <= |m.blocks|
    ensures GapSum(m, n) + Taken(m.blocks[..n]) == GapLow(m, n) - (m.addr + MAJOR_HEADER)
  {
    if n > 0 {
      GapSumPrefix(m, n - 1);
      assert m.blocks[..n][..n-1] == m.blocks[..n-1];
    }
  }

  /** A major's gaps add up to size - usage. */
  lemma GapsAreFree(m: Major)
    ensures GapSum(m, |m.blocks| + 1) == Size(m) - Usage(m)
  {
    GapSumPrefix(m, |m.blocks|);
    assert m.blocks[..|m.blocks|] == m.blocks;
  }

  lemma GapNonNegative(m: Major, j: nat)
    requires MajorOk(m) && j <= |m.blocks|
    ensures Gap(m, j) >= 0
  {
    if 0 < j < |m.blocks| {
      assert Before(m.blocks[j-1], m.blocks[j]);
    } else if 0 < j {
      assert BlockOk(m, m.blocks[j-1]);
    } else if j < |m.blocks| {
      assert BlockOk(m, m.blocks[j]);
    }
  }

  lemma {:induction false} GapWithinSum(m: Major, j: nat, n: nat)
    requires MajorOk(m) && j < n <= |m.blocks| + 1
    ensures 0 <= Gap(m, j) <= GapSum(m, n)
  {
    GapSumNonNegative(m, n - 1);
    GapNonNegative(m, n - 1);
    if j < n - 1 {
      GapWithinSum(m, j, n - 1);
    }
  }

  lemma {:induction false} GapSumNonNegative(m: Major, n: nat)
    requires MajorOk(m) && n <= |m.blocks| + 1
    ensures GapSum(m, n) >= 0
  {
    if n > 0 {
      GapSumNonNegative(m, n - 1);
      GapNonNegative(m, n - 1);
    }
  }

  /** Some gap of the major can take need bytes. */
  ghost predicate Fits(m: Major, need: nat) {
    exists j :: 0 <= j <= |m.blocks| && Gap(m, j) >= need
  }

  /** Skipping a major whose free space is too small never skips a gap that would do. */
  lemma SkipIsSound(m: Major, need: nat)
    requires MajorOk(m) && Size(m) - Usage(m) < need
    ensures !Fits(m, need)
  {
    GapsAreFree(m);
    forall j | 0 <= j <= |m.blocks| ensures Gap(m, j) < need {
      GapWithinSum(m, j, |m.blocks| + 1);
    }
  }

  // ---------- where a request goes ----------

  /** The first gap from the j-th on that can take need bytes; |blocks| + 1 if none. */
  function FirstGap(m: Major, need: nat, j: nat): (r: nat)
    requires j <= |m.blocks| + 1
    ensures j <= r <= |m.blocks| + 1
    ensures r <= |m.blocks| ==> Gap(m, r) >= need
    ensures forall k :: j <= k < r ==> Gap(m, k) < need
    decreases |m.blocks| + 1 - j
  {
    if j == |m.blocks| + 1 || Gap(m, j) >= need then j else FirstGap(m, need, j + 1)
  }

  /** The first major from the i-th on with such a gap; |v| if none. */
  function FirstMajor(v: seq<Major>, need: nat, i: nat): (r: nat)
    requires i <= |v|
    ensures i <= r <= |v|
    ensures r < |v| ==> FirstGap(v[r], need, 0) <= |v[r].blocks|
    ensures forall k :: i <= k < r ==> FirstGap(v[k], need, 0) == |v[k].blocks| + 1
    decreases |v| - i
  {
    if i == |v| || FirstGap(v[i], need, 0) <= |v[i].blocks| then i else FirstMajor(v, need, i + 1)
  }

  lemma FitsFirst(m: Major, need: nat)
    ensures Fits(m, need) <==> FirstGap(m, need, 0) <= |m.blocks|
  {
    var r := FirstGap(m, need, 0);
    if j :| 0 <= j <= |m.blocks| && Gap(m, j) >= need {
      assert r <= j;
    }
  }

  /** The index of the major at an address; |v| if none. */
  function IndexOf(v: seq<Major>, addr: nat): (i: nat)
    ensures i <= |v|
    ensures i < |v| ==> v[i].addr == addr
    ensures i == |v| ==> forall k :: 0 <= k < |v| ==> v[k].addr != addr
  {
    if v == [] then 0
    else if v[0].addr == addr then 0
    else
      var k := IndexOf(v[1..], addr);
      assert forall i :: 0 < i < |v| ==> v[i] == v[1..][i-1];
      k + 1
  }

  /** Where the search starts: at the hinted major if it has more than enough room, else at the root. */
  function Start(v: seq<Major>, bet: nat, need: nat): (s: nat)
    ensures s <= |v|
  {
    var i := IndexOf(v, bet);
    if bet != 0 && i < |v| && Size(v[i]) - Usage(v[i]) > need then i else 0
  }

  /**
   The placement of a request: the first gap, in list and address order, from the start on, or
   else from the root on.
   */
  function Locate(v: seq<Major>, bet: nat, need: nat): (r: Option<(nat, nat)>)
    ensures r.Some? ==> r.value.0 < |v| && r.value.1 <= |v[r.value.0].blocks|
                        && Gap(v[r.value.0], r.value.1) >= need
  {
    var i := FirstMajor(v, need, Start(v, bet, need));
    if i < |v| then Some((i, FirstGap(v[i], need, 0)))
    else
      var k := FirstMajor(v, need, 0);
      if k < |v| then Some((k, FirstGap(v[k], need, 0))) else None
  }

  /**
   The search is complete: wherever the hint makes it start, it comes back empty-handed only when
   no major holds a gap (before its first block, between two, or after the last) that would do.
   */
  lemma SearchComplete(v: seq<Major>, bet: nat, need: nat)
    ensures Locate(v, bet, need).None? <==> forall i :: 0 <= i < |v| ==> !Fits(v[i], need)
  {
    forall i | 0 <= i < |v| ensures Fits(v[i], need) <==> FirstGap(v[i], need, 0) <= |v[i].blocks| {
      FitsFirst(v[i], need);
    }
  }

  // ---------- the operations ----------

  /** The bytes a request needs, its header included. */
  function Need(req: nat): nat {
    req + SLACK + MINOR_HEADER
  }

  /** The pages allocate_new_page asks for. */
  function PagesFor(size: nat): (n: nat)
    ensures n >= MIN_PAGES && n * HEAP_PAGE >= size + MAJOR_HEADER + MINOR_HEADER
  {
    var st := size + MAJOR_HEADER + MINOR_HEADER;
    var n := if st % HEAP_PAGE == 0 then st / HEAP_PAGE else st / HEAP_PAGE + 1;
    if n < MIN_PAGES then MIN_PAGES else n
  }

  /** The rounded-up request fits the 32-bit fields. */
  predicate Representable(req: nat) {
    PagesFor(req + SLACK) * HEAP_PAGE < LIMIT
  }

  function InsertBlock(m: Major, j: nat, b: Block): Major
    requires j <= |m.blocks|
  {
    m.(blocks := m.blocks[..j] + [b] + m.blocks[j..])
  }

  function RemoveBlock(m: Major, j: nat): Major
    requires j < |m.blocks|
  {
    m.(blocks := m.blocks[..j] + m.blocks[j+1..])
  }

  function NewBlock(addr: nat, req: nat): Block {
    Block(addr, req + SLACK, req)
  }

  /** The page source may answer a request with this address: NULL, or a fresh page-aligned range. */
  ghost predicate Grantable(v: seq<Major>, grant: nat, pages: nat) {
    grant != 0 ==>
      && grant % HEAP_PAGE == 0
      && forall i :: 0 <= i < |v| ==> Apart(v[i], Major(grant, pages, []))
  }

  /** The major and block index a request is given: an old gap, or the start of a new major. */
  function Alloc(v: seq<Major>, bet: nat, req: nat, grant: nat): (r: (seq<Major>, Option<Block>)) {
    match Locate(v, bet, Need(req))
    case Some((i, j)) =>
      var b := NewBlock(GapLow(v[i], j), req);
      (v[i := InsertBlock(v[i], j, b)], Some(b))
    case None =>
      if grant == 0 then (v, None)
      else
        var b := NewBlock(grant + MAJOR_HEADER, req);
        (v + [Major(grant, PagesFor(req + SLACK), [b])], Some(b))
  }

  /** What kmalloc returns. */
  function AllocPtr(v: seq<Major>, bet: nat, req: nat, grant: nat): nat {
    match Alloc(v, bet, req, grant).1
    case Some(b) => Ptr(b)
    case None => 0
  }

  function Release(v: seq<Major>, i: nat, j: nat): seq<Major>
    requires i < |v| && j < |v[i].blocks|
  {
    var m := RemoveBlock(v[i], j);
    if m.blocks == [] then v[..i] + v[i+1..] else v[i := m]
  }

  /** Shrinking in place only changes the recorded request. */
  function Shrink(v: seq<Major>, i: nat, j: nat, req: nat): seq<Major>
    requires i < |v| && j < |v[i].blocks|
  {
    v[i := v[i].(blocks := v[i].blocks[j := v[i].blocks[j].(req := req)])]
  }

  // ---------- the operations keep the invariant ----------

  lemma InsertOk(m: Major, j: nat, b: Block)
    requires MajorOk(m) && j <= |m.blocks|
    requires b.addr == GapLow(m, j) && End(b) <= GapHigh(m, j) && b.req + SLACK <= b.size
    ensures MajorOk(InsertBlock(m, j, b))
  {
    var m' := InsertBlock(m, j, b);
    GapNonNegative(m, j);
    assert BlockOk(m, b) by {
      if j > 0 { assert BlockOk(m, m.blocks[j-1]); }
      if j < |m.blocks| { assert BlockOk(m, m.blocks[j]); }
    }
    forall k | 0 <= k < |m'.blocks| ensures BlockOk(m', m'.blocks[k]) {
      assert m'.blocks[k] == if k < j then m.blocks[k] else if k == j then b else m.blocks[k-1];
      assert k < j ==> BlockOk(m, m.blocks[k]);
      assert k > j ==> BlockOk(m, m.blocks[k-1]);
    }
    forall i, k | 0 <= i < k < |m'.blocks| ensures Before(m'.blocks[i], m'.blocks[k]) {
      InsertOrder(m, j, b, i, k);
    }
  }

  lemma InsertOrder(m: Major, j: nat, b: Block, i: nat, k: nat)
    requires MajorOk(m) && j <= |m.blocks|
    requires b.addr == GapLow(m, j) && End(b) <= GapHigh(m, j)
    requires i < k < |m.blocks| + 1
    ensures Before(InsertBlock(m, j, b).blocks[i], InsertBlock(m, j, b).blocks[k])
  {
    if k < j {
      assert Before(m.blocks[i], m.blocks[k]);
    } else if k == j {
      assert i < j - 1 ==> Before(m.blocks[i], m.blocks[j-1]);
    } else if i == j {
      assert k - 1 > j ==> Before(m.blocks[j], m.blocks[k-1]);
    } else {
      assert Before(m.blocks[if i < j then i else i - 1], m.blocks[k-1]);
    }
  }

  lemma RemoveOk(m: Major, j: nat)
    requires MajorOk(m) && j < |m.blocks|
    ensures MajorOk(RemoveBlock(m, j))
  {
    var m' := RemoveBlock(m, j);
    assert forall k :: 0 <= k < |m'.blocks| ==> m'.blocks[k] == m.blocks[if k < j then k else k + 1];
    forall k | 0 <= k < |m'.blocks| ensures BlockOk(m', m'.blocks[k]) {
      assert BlockOk(m, m.blocks[if k < j then k else k + 1]);
    }
    forall i, k | 0 <= i < k < |m'.blocks| ensures Before(m'.blocks[i], m'.blocks[k]) {
      assert Before(m.blocks[if i < j then i else i + 1], m.blocks[if k < j then k else k + 1]);
    }
  }

  /** Replacing a major by one with the same range keeps the heap well formed. */
  lemma ReplaceOk(v: seq<Major>, i: nat, m: Major)
    requires HeapOk(v) && i < |v| && MajorOk(m) && m.addr == v[i].addr && m.pages == v[i].pages
    ensures HeapOk(v[i := m])
  {
    var v' := v[i := m];
    forall k, l | 0 <= k < l < |v'| ensures Apart(v'[k], v'[l]) {
      assert Apart(v[k], v[l]);
    }
  }

  lemma AppendOk(v: seq<Major>, m: Major)
    requires HeapOk(v) && MajorOk(m) && forall i :: 0 <= i < |v| ==> Apart(v[i], m)
    ensures HeapOk(v + [m])
  {
  }

  lemma DropOk(v: seq<Major>, i: nat)
    requires HeapOk(v) && i < |v|
    ensures HeapOk(v[..i] + v[i+1..])
  {
    var v' := v[..i] + v[i+1..];
    assert forall k :: 0 <= k < |v'| ==> v'[k] == v[if k < i then k else k + 1];
    forall k, l | 0 <= k < l < |v'| ensures Apart(v'[k], v'[l]) {
      assert Apart(v[if k < i then k else k + 1], v[if l < i then l else l + 1]);
    }
  }

  /** A fresh major always has room for the request it was made for. */
  lemma FreshMajorServes(grant: nat, req: nat)
    requires grant > 0 && grant % HEAP_PAGE == 0 && Representable(req)
    ensures MajorOk(Major(grant, PagesFor(req + SLACK), []))
    ensures Gap(Major(grant, PagesFor(req + SLACK), []), 0) >= Need(req)
    ensures MajorOk(Major(grant, PagesFor(req + SLACK), [NewBlock(grant + MAJOR_HEADER, req)]))
  {
  }

  lemma AllocOk(v: seq<Major>, bet: nat, req: nat, grant: nat)
    requires HeapOk(v) && NoneEmpty(v) && Representable(req)
    requires Grantable(v, grant, PagesFor(req + SLACK))
    ensures HeapOk(Alloc(v, bet, req, grant).0) && NoneEmpty(Alloc(v, bet, req, grant).0)
  {
    match Locate(v, bet, Need(req))
    case Some((i, j)) =>
      var b := NewBlock(GapLow(v[i], j), req);
      InsertOk(v[i], j, b);
      ReplaceOk(v, i, InsertBlock(v[i], j, b));
    case None =>
      if grant != 0 {
        FreshMajorServes(grant, req);
        AppendOk(v, Major(grant, PagesFor(req + SLACK), [NewBlock(grant + MAJOR_HEADER, req)]));
      }
  }

  lemma ReleaseOk(v: seq<Major>, i: nat, j: nat)
    requires HeapOk(v) && NoneEmpty(v) && i < |v| && j < |v[i].blocks|
    ensures HeapOk(Release(v, i, j)) && NoneEmpty(Release(v, i, j))
  {
    RemoveOk(v[i], j);
    if RemoveBlock(v[i], j).blocks == [] {
      DropOk(v, i);
    } else {
      ReplaceOk(v, i, RemoveBlock(v[i], j));
    }
  }

  lemma ShrinkOk(v: seq<Major>, i: nat, j: nat, req: nat)
    requires HeapOk(v) && NoneEmpty(v) && i < |v| && j < |v[i].blocks| && req <= v[i].blocks[j].req
    ensures HeapOk(Shrink(v, i, j, req)) && NoneEmpty(Shrink(v, i, j, req))
  {
    var m := v[i].(blocks := v[i].blocks[j := v[i].blocks[j].(req := req)]);
    forall k, l | 0 <= k < l < |m.blocks| ensures Before(m.blocks[k], m.blocks[l]) {
      assert Before(v[i].blocks[k], v[i].blocks[l]);
    }
    forall k | 0 <= k < |m.blocks| ensures BlockOk(m, m.blocks[k]) {
      assert BlockOk(v[i], v[i].blocks[k]);
    }
    ReplaceOk(v, i, m);
  }
}
