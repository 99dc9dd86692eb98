/**
 What happens to the bytes clients keep in their blocks.
 */
module HeapContents {
  import opened Wrappers
  import opened HeapView
  import opened HeapRuns
  import opened HeapRep

  /** bytes' agrees with bytes outside [low, high). */
  ghost predicate SameBut(bytes: seq<byte>, bytes': seq<byte>, low: int, high: int) {
    && |bytes'| == |bytes|
    && forall a :: 0 <= a < |bytes| && !(low <= a < high) ==> bytes'[a] == bytes[a]
  }

  /** No byte of the region the client of b asked for has changed. */
  ghost predicate RegionKept(b: Block, bytes: seq<byte>, bytes': seq<byte>) {
    && |bytes'| == |bytes|
    && forall a :: Ptr(b) <= a < Ptr(b) + b.req && a < |bytes| ==> bytes'[a] == bytes[a]
  }

  /** bytes after n of them were copied, one by one, from src to dst. */
  function Copied(bytes: seq<byte>, dst: nat, src: nat, n: nat): (r: seq<byte>)
    requires dst + n <= |bytes| && src + n <= |bytes|
  {
    bytes[..dst] + bytes[src..src + n] + bytes[dst + n..]
  }

  lemma CopiedFrom(bytes: seq<byte>, dst: nat, src: nat, n: nat, bytes': seq<byte>)
    requires dst + n <= |bytes| && src + n <= |bytes|
    requires SameBut(bytes, bytes', dst, dst + n)
    requires forall a :: dst <= a < dst + n ==> bytes'[a] == bytes[src + (a - dst)]
    ensures bytes' == Copied(bytes, dst, src, n)
  {
  }

  lemma CopiedAt(bytes: seq<byte>, dst: nat, src: nat, n: nat)
    requires dst + n <= |bytes| && src + n <= |bytes|
    ensures SameBut(bytes, Copied(bytes, dst, src, n), dst, dst + n)
    ensures Copied(bytes, dst, src, n)[dst..dst + n] == bytes[src..src + n]
  {
  }

  /** Byte by byte, from the lowest address up. */
  function CopyBytes(bytes: seq<byte>, dst: nat, src: nat, n: nat): (r: seq<byte>)
    requires dst + n <= |bytes| && src + n <= |bytes|
    ensures |r| == |bytes|
  {
    if n == 0 then bytes
    else
      var done := CopyBytes(bytes, dst, src, n - 1);
      done[dst + n - 1 := done[src + n - 1]]
  }

  lemma {:induction false} CopiedNext(bytes: seq<byte>, dst: nat, src: nat, n: nat)
    requires dst + n + 1 <= |bytes| && src + n + 1 <= |bytes|
    ensures Copied(bytes, dst, src, n + 1) == Copied(bytes, dst, src, n)[dst + n := bytes[src + n]]
  {
    assert bytes[src..src + n + 1] == bytes[src..src + n] + [bytes[src + n]];
  }

  /**
   A copy to a lower address, or between ranges that do not overlap, keeps the source bytes until
   they have been read.
   */
  lemma {:induction false} CopyBytesAt(bytes: seq<byte>, dst: nat, src: nat, n: nat)
    requires dst + n <= |bytes| && src + n <= |bytes|
    requires dst <= src || src + n <= dst
    ensures CopyBytes(bytes, dst, src, n) == Copied(bytes, dst, src, n)
  {
    if n > 0 {
      CopyBytesAt(bytes, dst, src, n - 1);
      CopiedNext(bytes, dst, src, n - 1);
      assert CopyBytes(bytes, dst, src, n - 1)[src + n - 1] == bytes[src + n - 1];
    }
  }

  /** A client writing inside its region leaves every tag and every other region alone. */
  lemma ClientWrites(v: seq<Major>, bytes: seq<byte>, bytes': seq<byte>, i: nat, j: nat)
    requires HeapOk(v) && TagsOk(v, bytes) && IsBlock(v, i, j)
    requires SameBut(bytes, bytes', Ptr(v[i].blocks[j]), Ptr(v[i].blocks[j]) + v[i].blocks[j].req)
    ensures TagsOk(v, bytes')
    ensures forall k: nat, l: nat {:trigger IsBlock(v, k, l)} ::
              IsBlock(v, k, l) && (k, l) != (i, j) ==> RegionKept(v[k].blocks[l], bytes, bytes')
  {
    TagInside(v, i, j);
    assert BlockOk(v[i], v[i].blocks[j]);
    forall k: nat, l: nat | IsBlock(v, k, l)
      ensures TagOk(v[k].blocks[l], bytes')
      ensures (k, l) != (i, j) ==> RegionKept(v[k].blocks[l], bytes, bytes')
    {
      TagInside(v, k, l);
      assert TagOk(v[k].blocks[l], bytes) && BlockOk(v[k], v[k].blocks[l]);
      if (k, l) != (i, j) {
        BlocksApart(v, i, j, k, l);
      }
    }
  }

  /** Where block j of major i is after an allocation: one further if the new block went before it. */
  function Shifted(v: seq<Major>, bet: nat, req: nat, i: nat, j: nat): nat {
    match Locate(v, bet, Need(req))
    case Some((k, l)) => if i == k && j >= l then j + 1 else j
    case None => j
  }

  /** Where the new block is. */
  function Placement(v: seq<Major>, bet: nat, req: nat): (nat, nat) {
    match Locate(v, bet, Need(req))
    case Some(at) => at
    case None => (|v|, 0)
  }

  lemma {:induction false} InsertedBlocks(m: Major, l: nat, b: Block, j: nat)
    requires l <= |m.blocks| && j < |m.blocks|
    ensures var m', j' := InsertBlock(m, l, b), if j >= l then j + 1 else j;
            j' < |m'.blocks| && m'.blocks[j'] == m.blocks[j] && j' != l && m'.blocks[l] == b
  {
  }

  /** An allocation keeps every block, and the new one is none of them. */
  lemma {:induction false} AllocBlocks(v: seq<Major>, bet: nat, req: nat, grant: nat, i: nat, j: nat)
    requires IsBlock(v, i, j) && Alloc(v, bet, req, grant).1.Some?
    ensures var v', at, j' := Alloc(v, bet, req, grant).0, Placement(v, bet, req), Shifted(v, bet, req, i, j);
            && IsBlock(v', i, j') && v'[i].blocks[j'] == v[i].blocks[j] && (i, j') != at
            && IsBlock(v', at.0, at.1) && v'[at.0].blocks[at.1] == Alloc(v, bet, req, grant).1.value
  {
    hide Locate, InsertBlock, GapLow;
    match Locate(v, bet, Need(req))
    case Some((k, l)) =>
      var b := NewBlock(GapLow(v[k], l), req);
      if k == i { InsertedBlocks(v[i], l, b, j); }
      PlacedBlock(v[k], l, b);
    case None =>
  }

  lemma {:induction false} PlacedBlock(m: Major, l: nat, b: Block)
    requires l <= |m.blocks|
    ensures l < |InsertBlock(m, l, b).blocks| && InsertBlock(m, l, b).blocks[l] == b
  {
  }

  /** Writing the tag of a new block changes no byte of any client's region. */
  lemma {:induction false} AllocKeepsContents(v: seq<Major>, bet: nat, req: nat, grant: nat, bytes: seq<byte>, i: nat,
                                              j: nat)
    requires HeapOk(v) && NoneEmpty(v) && Asks(v, req, grant) && IsBlock(v, i, j)
    requires Alloc(v, bet, req, grant).1.Some? && TagAddr(Alloc(v, bet, req, grant).1.value) < |bytes|
    ensures var b := Alloc(v, bet, req, grant).1.value;
            RegionKept(v[i].blocks[j], bytes, bytes[TagAddr(b) := Tag(b)])
  {
    var v', at, j' := Alloc(v, bet, req, grant).0, Placement(v, bet, req), Shifted(v, bet, req, i, j);
    AllocOk(v, bet, req, grant);
    AllocBlocks(v, bet, req, grant, i, j);
    BlocksApart(v', at.0, at.1, i, j');
    TagInside(v', at.0, at.1);
    assert BlockOk(v'[i], v'[i].blocks[j']);
  }

  /** The new block's region and the old one's do not overlap, and both lie in memory. */
  lemma GrowApart(v: seq<Major>, bet: nat, req: nat, grant: nat, p: nat, i: nat, j: nat, limit: nat)
    requires HeapOk(v) && NoneEmpty(v) && Asks(v, req, grant) && At(v, p, i, j)
    requires Alloc(v, bet, req, grant).1.Some? && InRange(Alloc(v, bet, req, grant).0, limit)
    ensures var (v', o), at, n := Alloc(v, bet, req, grant), Placement(v, bet, req), v[i].blocks[j].req;
            && At(v', p, i, Shifted(v, bet, req, i, j)) && At(v', Ptr(o.value), at.0, at.1)
            && v'[at.0].blocks[at.1].req == req
            && p + n <= limit && Ptr(o.value) + req <= limit
            && (Ptr(o.value) + req <= p || p + n <= Ptr(o.value))
  {
    var v', at, j' := Alloc(v, bet, req, grant).0, Placement(v, bet, req), Shifted(v, bet, req, i, j);
    AllocOk(v, bet, req, grant);
    AllocBlocks(v, bet, req, grant, i, j);
    BlocksApart(v', at.0, at.1, i, j');
    assert BlockOk(v'[i], v'[i].blocks[j']) && BlockOk(v'[at.0], v'[at.0].blocks[at.1]);
  }

  /** The first n bytes at r are those that were at p. */
  ghost predicate Moved(p: nat, n: nat, r: nat, bytes: seq<byte>, bytes': seq<byte>) {
    p + n <= |bytes| && r + n <= |bytes'| && bytes'[r..r + n] == bytes[p..p + n]
  }

  lemma MovedBy(b: Block, p: nat, n: nat, r: nat, bytes: seq<byte>, between: seq<byte>)
    requires RegionKept(b, bytes, between) && p == Ptr(b) && n == b.req
    requires p + n <= |bytes| && r + n <= |bytes|
    ensures Moved(p, n, r, bytes, Copied(between, r, p, n)) && SameBut(between, Copied(between, r, p, n), r, r + n)
  {
    CopiedAt(between, r, p, n);
    assert between[p..p + n] == bytes[p..p + n];
  }

  /** A refused request changes nothing. */
  lemma {:induction false} RefusedKeeps(v: seq<Major>, bet: nat, req: nat, grant: nat, i: nat, j: nat)
    requires Alloc(v, bet, req, grant).1.None?
    ensures Alloc(v, bet, req, grant).0 == v && AllocPtr(v, bet, req, grant) == 0 && Shifted(v, bet, req, i, j) == j
  {
  }

  lemma {:induction false} NothingCopied(bytes: seq<byte>, dst: nat, src: nat)
    requires dst <= |bytes| && src <= |bytes|
    ensures Copied(bytes, dst, src, 0) == bytes
  {
  }

  lemma {:induction false} RegionInMemory(v: seq<Major>, i: nat, j: nat, limit: nat)
    requires HeapOk(v) && InRange(v, limit) && IsBlock(v, i, j)
    ensures Ptr(v[i].blocks[j]) + v[i].blocks[j].req <= limit
  {
    assert BlockOk(v[i], v[i].blocks[j]);
  }

  lemma NewRegion(v: seq<Major>, bet: nat, req: nat, grant: nat, limit: nat)
    requires HeapOk(v) && NoneEmpty(v) && Asks(v, req, grant)
    requires Alloc(v, bet, req, grant).1.Some? && InRange(Alloc(v, bet, req, grant).0, limit)
    ensures var (v', o), at := Alloc(v, bet, req, grant), Placement(v, bet, req);
            && At(v', Ptr(o.value), at.0, at.1) && v'[at.0].blocks[at.1] == o.value && o.value.req == req
            && Ptr(o.value) + req <= limit
  {
    var v', at := Alloc(v, bet, req, grant).0, Placement(v, bet, req);
    AllocOk(v, bet, req, grant);
    assert BlockOk(v'[at.0], v'[at.0].blocks[at.1]);
  }

  /** Every region but the one at p has kept its bytes. */
  ghost predicate OthersKept(v: seq<Major>, p: nat, bytes: seq<byte>, bytes': seq<byte>) {
    forall i: nat, j: nat {:trigger IsBlock(v, i, j)} ::
      IsBlock(v, i, j) && Ptr(v[i].blocks[j]) != p ==> RegionKept(v[i].blocks[j], bytes, bytes')
  }

  /**
   Whatever is written to the region of the new block, no region a client had before the
   allocation changes.
   */
  lemma AllocThenWrite(v: seq<Major>, bet: nat, req: nat, grant: nat, bytes: seq<byte>, bytes': seq<byte>)
    requires HeapOk(v) && NoneEmpty(v) && Asks(v, req, grant) && Alloc(v, bet, req, grant).1.Some?
    requires var b := Alloc(v, bet, req, grant).1.value;
             TagAddr(b) < |bytes| && SameBut(bytes[TagAddr(b) := Tag(b)], bytes', Ptr(b), Ptr(b) + req)
    ensures forall i: nat, j: nat {:trigger IsBlock(v, i, j)} :: IsBlock(v, i, j) ==>
              RegionKept(v[i].blocks[j], bytes, bytes')
  {
    var v', b, at := Alloc(v, bet, req, grant).0, Alloc(v, bet, req, grant).1.value, Placement(v, bet, req);
    AllocOk(v, bet, req, grant);
    forall i: nat, j: nat | IsBlock(v, i, j) ensures RegionKept(v[i].blocks[j], bytes, bytes') {
      var j' := Shifted(v, bet, req, i, j);
      AllocKeepsContents(v, bet, req, grant, bytes, i, j);
      AllocBlocks(v, bet, req, grant, i, j);
      BlocksApart(v', at.0, at.1, i, j');
      assert BlockOk(v'[i], v'[i].blocks[j']) && BlockOk(v'[at.0], b);
    }
  }
}
