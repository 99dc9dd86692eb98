/**
 How the heap is kept in memory: headers with links, and alignment tags among the payload bytes;
 and why rewiring links by hand keeps them in step with the list of blocks they stand for.
 */
module HeapRep {
  import opened HeapView
  import opened HeapRuns

  const MAGIC := 0xc001c0de
  const DEAD := 0xdeaddead

  /** struct liballoc_major; 0 is NULL. */
  datatype MajorHeader = MajorHeader(prev: nat, next: nat, pages: nat, size: nat, usage: nat, first: nat)

  /** struct liballoc_minor. */
  datatype MinorHeader = MinorHeader(prev: nat, next: nat, block: nat, magic: nat, size: nat, reqSize: nat)

  type Majors = map<nat, MajorHeader>
  type Minors = map<nat, MinorHeader>

  // ---------- what the headers must hold ----------

  function AddrOf(v: seq<Major>, i: int): nat {
    if 0 <= i < |v| then v[i].addr else 0
  }

  function BlockAddr(m: Major, j: int): nat {
    if 0 <= j < |m.blocks| then m.blocks[j].addr else 0
  }

  function MajorRec(v: seq<Major>, i: nat): MajorHeader
    requires i < |v|
  {
    MajorHeader(AddrOf(v, i - 1), AddrOf(v, i + 1), v[i].pages, Size(v[i]), Usage(v[i]), BlockAddr(v[i], 0))
  }

  function MinorRec(m: Major, j: nat): MinorHeader
    requires j < |m.blocks|
  {
    MinorHeader(BlockAddr(m, j - 1), BlockAddr(m, j + 1), m.addr, MAGIC, m.blocks[j].size, m.blocks[j].req)
  }

  ghost predicate MajorAt(v: seq<Major>, majors: Majors, i: nat)
    requires i < |v|
  {
    v[i].addr in majors && majors[v[i].addr] == MajorRec(v, i)
  }

  ghost predicate MinorAt(m: Major, minors: Minors, j: nat)
    requires j < |m.blocks|
  {
    m.blocks[j].addr in minors && minors[m.blocks[j].addr] == MinorRec(m, j)
  }

  ghost predicate MajorsRep(v: seq<Major>, majors: Majors) {
    forall i {:trigger MajorAt(v, majors, i)} :: 0 <= i < |v| ==> MajorAt(v, majors, i)
  }

  ghost predicate ChainRep(m: Major, minors: Minors) {
    forall j {:trigger MinorAt(m, minors, j)} :: 0 <= j < |m.blocks| ==> MinorAt(m, minors, j)
  }

  ghost predicate MinorsRep(v: seq<Major>, minors: Minors) {
    forall i {:trigger ChainRep(v[i], minors)} :: 0 <= i < |v| ==> ChainRep(v[i], minors)
  }

  ghost predicate TagOk(b: Block, bytes: seq<byte>) {
    TagAddr(b) < |bytes| && bytes[TagAddr(b)] == Tag(b)
  }

  ghost predicate TagsOk(v: seq<Major>, bytes: seq<byte>) {
    forall i: nat, j: nat {:trigger TagOk(v[i].blocks[j], bytes)} :: IsBlock(v, i, j) ==> TagOk(v[i].blocks[j], bytes)
  }

  ghost predicate InRange(v: seq<Major>, limit: nat) {
    forall i :: 0 <= i < |v| ==> v[i].addr + Size(v[i]) <= limit
  }

  /** The links, sizes, totals and tags in memory are those of v. */
  ghost predicate Represents(v: seq<Major>, majors: Majors, minors: Minors, bytes: seq<byte>) {
    && HeapOk(v)
    && MajorsRep(v, majors)
    && MinorsRep(v, minors)
    && TagsOk(v, bytes)
    && InRange(v, |bytes|)
  }

  // ---------- stale headers ----------

  /** A 40-byte header at a shares bytes with [low, high). */
  predicate Overlaps(a: nat, low: nat, high: nat) {
    a < high && low < a + MINOR_HEADER
  }

  /** Handing [low, high) out as a block overwrites whatever dead headers were left there. */
  function Forget(minors: Minors, low: nat, high: nat): Minors {
    map a | a in minors && !Overlaps(a, low, high) :: minors[a]
  }

  // ---------- minors ----------

  /** minors' is minors with block b linked in as block j of m. */
  ghost predicate LinkedIn(m: Major, j: nat, b: Block, minors: Minors, minors': Minors)
    requires j <= |m.blocks|
  {
    var p, n := BlockAddr(m, j - 1), BlockAddr(m, j);
    && b.addr in minors' && minors'[b.addr] == MinorHeader(p, n, m.addr, MAGIC, b.size, b.req)
    && (j > 0 ==> p in minors && p in minors' && minors'[p] == minors[p].(next := b.addr))
    && (j < |m.blocks| ==> n in minors && n in minors' && minors'[n] == minors[n].(prev := b.addr))
    && (forall a :: a in minors && !(j > 0 && a == p) && !(j < |m.blocks| && a == n) && !Overlaps(a, b.addr, End(b)) ==>
          a in minors' && minors'[a] == minors[a])
  }

  /** b fills part of gap j of m, from its start. */
  ghost predicate FillsGap(m: Major, j: nat, b: Block) {
    && j <= |m.blocks| && b.addr == GapLow(m, j) && End(b) <= GapHigh(m, j) && b.req + SLACK <= b.size
  }

  lemma LinkInBlock(m: Major, j: nat, b: Block, minors: Minors, minors': Minors, k: nat)
    requires MajorOk(m) && FillsGap(m, j, b) && ChainRep(m, minors) && LinkedIn(m, j, b, minors, minors')
    requires k <= |m.blocks|
    ensures MinorAt(InsertBlock(m, j, b), minors', k)
  {
    var m' := InsertBlock(m, j, b);
    if k < j {
      assert m'.blocks[k] == m.blocks[k] && MinorAt(m, minors, k);
      if k < j - 1 {
        assert Before(m.blocks[k], m.blocks[j-1]) && BlockOk(m, m.blocks[k]);
        assert j < |m.blocks| ==> Before(m.blocks[k], m.blocks[j]);
      } else {
        assert j < |m.blocks| ==> Before(m.blocks[k], m.blocks[j]);
      }
    } else if k == j {
      assert m'.blocks[k] == b;
    } else {
      assert m'.blocks[k] == m.blocks[k-1] && MinorAt(m, minors, k - 1);
      if k - 1 > j {
        assert Before(m.blocks[j], m.blocks[k-1]) && BlockOk(m, m.blocks[k-1]);
      }
      assert j > 0 ==> Before(m.blocks[j-1], m.blocks[k-1]);
    }
  }

  lemma LinkInChain(m: Major, j: nat, b: Block, minors: Minors, minors': Minors)
    requires MajorOk(m) && FillsGap(m, j, b) && ChainRep(m, minors) && LinkedIn(m, j, b, minors, minors')
    ensures ChainRep(InsertBlock(m, j, b), minors')
  {
    forall k | 0 <= k < |m.blocks| + 1 ensures MinorAt(InsertBlock(m, j, b), minors', k) {
      LinkInBlock(m, j, b, minors, minors', k);
    }
  }

  /** Headers outside a major's range are untouched. */
  ghost predicate SameOutside(m: Major, minors: Minors, minors': Minors) {
    forall a :: a in minors && (a + MINOR_HEADER <= m.addr || m.addr + Size(m) <= a) ==>
      a in minors' && minors'[a] == minors[a]
  }

  lemma OtherChain(m: Major, o: Major, minors: Minors, minors': Minors)
    requires MajorOk(o) && ChainRep(o, minors) && SameOutside(m, minors, minors')
    requires Apart(m, o) || Apart(o, m)
    ensures ChainRep(o, minors')
  {
    forall j | 0 <= j < |o.blocks| ensures MinorAt(o, minors', j) {
      assert MinorAt(o, minors, j) && BlockOk(o, o.blocks[j]);
    }
  }

  lemma ReplaceChain(v: seq<Major>, i: nat, m: Major, minors: Minors, minors': Minors)
    requires HeapOk(v) && MinorsRep(v, minors) && i < |v|
    requires SameOutside(v[i], minors, minors') && ChainRep(m, minors')
    ensures MinorsRep(v[i := m], minors')
  {
    var v' := v[i := m];
    forall k | 0 <= k < |v'| ensures ChainRep(v'[k], minors') {
      if k != i {
        MajorsApart(v, i, k);
        OtherChain(v[i], v[k], minors, minors');
      }
    }
  }

  lemma LinkedInInside(m: Major, j: nat, b: Block, minors: Minors, minors': Minors)
    requires MajorOk(m) && FillsGap(m, j, b) && LinkedIn(m, j, b, minors, minors')
    ensures SameOutside(m, minors, minors')
  {
    assert j > 0 ==> BlockOk(m, m.blocks[j-1]);
    assert j < |m.blocks| ==> BlockOk(m, m.blocks[j]);
  }

  /** minors' is minors with block j of m marked dead and linked out. */
  ghost predicate LinkedOut(m: Major, j: nat, minors: Minors, minors': Minors)
    requires j < |m.blocks|
  {
    var p, n, d := BlockAddr(m, j - 1), BlockAddr(m, j + 1), m.blocks[j].addr;
    && (j > 0 ==> p in minors && p in minors' && minors'[p] == minors[p].(next := n))
    && (j + 1 < |m.blocks| ==> n in minors && n in minors' && minors'[n] == minors[n].(prev := p))
    && (forall a :: a in minors && a != d && !(j > 0 && a == p) && !(j + 1 < |m.blocks| && a == n) ==>
          a in minors' && minors'[a] == minors[a])
  }

  lemma LinkOutChain(m: Major, j: nat, minors: Minors, minors': Minors)
    requires MajorOk(m) && j < |m.blocks| && ChainRep(m, minors) && LinkedOut(m, j, minors, minors')
    ensures ChainRep(RemoveBlock(m, j), minors')
  {
    var m' := RemoveBlock(m, j);
    forall k | 0 <= k < |m'.blocks| ensures MinorAt(m', minors', k) {
      LinkOutBlock(m, j, minors, minors', k);
    }
  }

  lemma LinkOutBlock(m: Major, j: nat, minors: Minors, minors': Minors, k: nat)
    requires MajorOk(m) && j < |m.blocks| && ChainRep(m, minors) && LinkedOut(m, j, minors, minors')
    requires k < |m.blocks| - 1
    ensures MinorAt(RemoveBlock(m, j), minors', k)
  {
    var o := if k < j then k else k + 1;
    assert MinorAt(m, minors, o) && MinorAt(m, minors, j);
    BlockAddrUnique(m, o, j);
    if j > 0 { BlockAddrUnique(m, o, j - 1); }
    if j + 1 < |m.blocks| { BlockAddrUnique(m, o, j + 1); }
    RemoveAddr(m, j, k);
  }

  lemma BlockAddrUnique(m: Major, i: nat, k: nat)
    requires MajorOk(m) && i < |m.blocks| && k < |m.blocks|
    ensures m.blocks[i].addr == m.blocks[k].addr <==> i == k
  {
    if i < k {
      assert Before(m.blocks[i], m.blocks[k]);
    } else if k < i {
      assert Before(m.blocks[k], m.blocks[i]);
    }
  }

  lemma RemoveAddr(m: Major, j: nat, k: nat)
    requires j < |m.blocks| && k < |m.blocks| - 1
    ensures RemoveBlock(m, j).blocks[k] == m.blocks[if k < j then k else k + 1]
    ensures BlockAddr(RemoveBlock(m, j), k - 1) == BlockAddr(m, if k - 1 < j then k - 1 else k)
    ensures BlockAddr(RemoveBlock(m, j), k + 1) == BlockAddr(m, if k + 1 < j then k + 1 else k + 2)
  {
  }

  lemma LinkedOutInside(m: Major, j: nat, minors: Minors, minors': Minors)
    requires MajorOk(m) && j < |m.blocks| && LinkedOut(m, j, minors, minors')
    ensures SameOutside(m, minors, minors')
  {
    assert BlockOk(m, m.blocks[j]);
    assert j > 0 ==> BlockOk(m, m.blocks[j-1]);
    assert j + 1 < |m.blocks| ==> BlockOk(m, m.blocks[j+1]);
  }

  // ---------- majors ----------

  lemma AddrUnique(v: seq<Major>, i: nat, k: nat)
    requires HeapOk(v) && i < |v| && k < |v|
    ensures v[i].addr == v[k].addr <==> i == k
  {
    if i != k {
      MajorsApart(v, i, k);
      assert MajorOk(v[i]) && MajorOk(v[k]);
    }
  }

  lemma IndexOfAddr(v: seq<Major>, i: nat)
    requires HeapOk(v) && i < |v|
    ensures IndexOf(v, v[i].addr) == i
  {
    AddrUnique(v, i, IndexOf(v, v[i].addr));
  }

  lemma ReplaceMajors(v: seq<Major>, i: nat, m: Major, majors: Majors, majors': Majors)
    requires HeapOk(v) && MajorsRep(v, majors) && i < |v| && m.addr == v[i].addr
    requires majors' == majors[m.addr := MajorRec(v[i := m], i)]
    ensures MajorsRep(v[i := m], majors')
  {
    var v' := v[i := m];
    forall k | 0 <= k < |v'| ensures MajorAt(v', majors', k) {
      assert MajorAt(v, majors, k);
      AddrUnique(v, i, k);
    }
  }

  /** majors' is majors with m put behind the last major of v. */
  ghost predicate Appended(v: seq<Major>, m: Major, majors: Majors, majors': Majors) {
    && m.addr in majors' && majors'[m.addr] == MajorHeader(AddrOf(v, |v| - 1), 0, m.pages, Size(m), Usage(m),
                                                           BlockAddr(m, 0))
    && (v != [] ==>
          var p := v[|v|-1].addr;
          p in majors && p in majors' && majors'[p] == majors[p].(next := m.addr))
    && (forall a :: a in majors && a != m.addr && !(v != [] && a == v[|v|-1].addr) ==>
        a in majors' && majors'[a] == majors[a])
  }

  lemma AppendMajors(v: seq<Major>, m: Major, majors: Majors, majors': Majors)
    requires HeapOk(v + [m]) && MajorsRep(v, majors) && Appended(v, m, majors, majors')
    ensures MajorsRep(v + [m], majors')
  {
    var v' := v + [m];
    forall k | 0 <= k < |v'| ensures MajorAt(v', majors', k) {
      AddrUnique(v', k, |v|);
      if k < |v| {
        assert MajorAt(v, majors, k);
        AddrUnique(v', k, |v| - 1);
      }
    }
  }

  /** majors' is majors with major i linked out. */
  ghost predicate Dropped(v: seq<Major>, i: nat, majors: Majors, majors': Majors)
    requires i < |v|
  {
    var p, n := AddrOf(v, i - 1), AddrOf(v, i + 1);
    && (i > 0 ==> p in majors && p in majors' && majors'[p] == majors[p].(next := n))
    && (i + 1 < |v| ==> n in majors && n in majors' && majors'[n] == majors[n].(prev := p))
    && (forall a :: a in majors && a != v[i].addr && !(i > 0 && a == p) && !(i + 1 < |v| && a == n) ==>
          a in majors' && majors'[a] == majors[a])
  }

  lemma DropMajors(v: seq<Major>, i: nat, majors: Majors, majors': Majors)
    requires HeapOk(v) && MajorsRep(v, majors) && i < |v| && Dropped(v, i, majors, majors')
    ensures MajorsRep(v[..i] + v[i+1..], majors')
  {
    var v' := v[..i] + v[i+1..];
    forall k | 0 <= k < |v'| ensures MajorAt(v', majors', k) {
      DropMajor(v, i, majors, majors', k);
    }
  }

  lemma DropMajor(v: seq<Major>, i: nat, majors: Majors, majors': Majors, k: nat)
    requires HeapOk(v) && MajorsRep(v, majors) && i < |v| && Dropped(v, i, majors, majors') && k < |v| - 1
    ensures MajorAt(v[..i] + v[i+1..], majors', k)
  {
    var o := if k < i then k else k + 1;
    assert MajorAt(v, majors, o);
    AddrUnique(v, o, i);
    if i > 0 { AddrUnique(v, o, i - 1); }
    if i + 1 < |v| { AddrUnique(v, o, i + 1); }
    DropAddr(v, i, k);
  }

  lemma DropAddr(v: seq<Major>, i: nat, k: nat)
    requires i < |v| && k < |v| - 1
    ensures (v[..i] + v[i+1..])[k] == v[if k < i then k else k + 1]
    ensures AddrOf(v[..i] + v[i+1..], k - 1) == AddrOf(v, if k - 1 < i then k - 1 else k)
    ensures AddrOf(v[..i] + v[i+1..], k + 1) == AddrOf(v, if k + 1 < i then k + 1 else k + 2)
  {
  }

  // ---------- tags ----------

  lemma TagInside(v: seq<Major>, i: nat, j: nat)
    requires HeapOk(v) && IsBlock(v, i, j)
    ensures v[i].blocks[j].addr <= TagAddr(v[i].blocks[j]) < End(v[i].blocks[j])
  {
    assert BlockOk(v[i], v[i].blocks[j]);
  }

  /** Writing the new block's tag disturbs no other tag. */
  lemma PlaceTags(v: seq<Major>, i: nat, j: nat, b: Block, bytes: seq<byte>)
    requires i < |v| && j <= |v[i].blocks| && HeapOk(v[i := InsertBlock(v[i], j, b)])
    requires TagsOk(v, bytes) && TagAddr(b) < |bytes|
    ensures TagsOk(v[i := InsertBlock(v[i], j, b)], bytes[TagAddr(b) := Tag(b)])
  {
    var v', bytes' := v[i := InsertBlock(v[i], j, b)], bytes[TagAddr(b) := Tag(b)];
    assert v'[i].blocks[j] == b && IsBlock(v', i, j);
    TagInside(v', i, j);
    forall k: nat, l: nat | IsBlock(v', k, l) ensures TagOk(v'[k].blocks[l], bytes') {
      if (k, l) != (i, j) {
        BlocksApart(v', i, j, k, l);
        TagInside(v', k, l);
        var l' := if k == i && l > j then l - 1 else l;
        assert IsBlock(v, k, l') && TagOk(v[k].blocks[l'], bytes) && v[k].blocks[l'] == v'[k].blocks[l];
      }
    }
  }

  lemma RemoveTags(v: seq<Major>, i: nat, j: nat, bytes: seq<byte>)
    requires IsBlock(v, i, j) && TagsOk(v, bytes)
    ensures TagsOk(Release(v, i, j), bytes)
  {
    var v' := Release(v, i, j);
    forall k: nat, l: nat | IsBlock(v', k, l) ensures TagOk(v'[k].blocks[l], bytes) {
      if RemoveBlock(v[i], j).blocks == [] {
        var k' := if k < i then k else k + 1;
        assert IsBlock(v, k', l) && v[k'].blocks[l] == v'[k].blocks[l];
      } else {
        var l' := if k == i && l >= j then l + 1 else l;
        assert IsBlock(v, k, l') && v[k].blocks[l'] == v'[k].blocks[l];
      }
    }
  }

  // ---------- whole operations ----------

  /** Linking a block into a gap, with its usage and tag written, represents the heap with that block. */
  lemma PlaceRep(v: seq<Major>, i: nat, j: nat, b: Block, majors: Majors, minors: Minors, bytes: seq<byte>,
                 majors': Majors, minors': Minors)
    requires Represents(v, majors, minors, bytes) && i < |v| && FillsGap(v[i], j, b)
    requires majors' == majors[v[i].addr := MajorRec(v[i := InsertBlock(v[i], j, b)], i)]
    requires LinkedIn(v[i], j, b, minors, minors')
    ensures TagAddr(b) < |bytes|
    ensures Represents(v[i := InsertBlock(v[i], j, b)], majors', minors', bytes[TagAddr(b) := Tag(b)])
  {
    var m, m' := v[i], InsertBlock(v[i], j, b);
    InsertOk(m, j, b);
    ReplaceOk(v, i, m');
    LinkInChain(m, j, b, minors, minors');
    LinkedInInside(m, j, b, minors, minors');
    ReplaceChain(v, i, m', minors, minors');
    ReplaceMajors(v, i, m', majors, majors');
    TagInBlock(m', j);
    PlaceTags(v, i, j, b, bytes);
  }

  lemma TagInBlock(m: Major, j: nat)
    requires MajorOk(m) && j < |m.blocks|
    ensures TagAddr(m.blocks[j]) < m.addr + Size(m)
  {
    assert BlockOk(m, m.blocks[j]);
  }

  /** Forgetting dead headers inside a range no live block touches keeps the links. */
  lemma ForgetRep(v: seq<Major>, minors: Minors, low: nat, high: nat)
    requires HeapOk(v) && MinorsRep(v, minors)
    requires forall i: nat, j: nat :: IsBlock(v, i, j) ==> !Overlaps(v[i].blocks[j].addr, low, high)
    ensures MinorsRep(v, Forget(minors, low, high))
  {
    forall i | 0 <= i < |v| ensures ChainRep(v[i], Forget(minors, low, high)) {
      forall j | 0 <= j < |v[i].blocks| ensures MinorAt(v[i], Forget(minors, low, high), j) {
        assert IsBlock(v, i, j) && ChainRep(v[i], minors) && MinorAt(v[i], minors, j);
      }
    }
  }

  /** A fresh, still empty major behind the last one. */
  lemma AppendRep(v: seq<Major>, m: Major, majors: Majors, minors: Minors, bytes: seq<byte>, majors': Majors)
    requires Represents(v, majors, minors, bytes) && MajorOk(m) && m.blocks == []
    requires forall i :: 0 <= i < |v| ==> Apart(v[i], m)
    requires Appended(v, m, majors, majors') && m.addr + Size(m) <= |bytes|
    ensures Represents(v + [m], majors', Forget(minors, m.addr, m.addr + Size(m)), bytes)
  {
    var v' := v + [m];
    AppendOk(v, m);
    AppendMajors(v, m, majors, majors');
    forall i: nat, j: nat | IsBlock(v, i, j) ensures !Overlaps(v[i].blocks[j].addr, m.addr, m.addr + Size(m)) {
      assert Apart(v[i], m) && BlockOk(v[i], v[i].blocks[j]);
    }
    ForgetRep(v, minors, m.addr, m.addr + Size(m));
    forall i: nat, j: nat | IsBlock(v', i, j) ensures TagOk(v'[i].blocks[j], bytes) {
      assert IsBlock(v, i, j);
    }
  }

  /** Linking a block out of a major that keeps others. */
  lemma RemoveRep(v: seq<Major>, i: nat, j: nat, majors: Majors, minors: Minors, bytes: seq<byte>,
                  majors': Majors, minors': Minors)
    requires Represents(v, majors, minors, bytes) && IsBlock(v, i, j) && |v[i].blocks| > 1
    requires majors' == majors[v[i].addr := MajorRec(Release(v, i, j), i)]
    requires LinkedOut(v[i], j, minors, minors')
    ensures Represents(Release(v, i, j), majors', minors', bytes)
  {
    var m, m' := v[i], RemoveBlock(v[i], j);
    RemoveOk(m, j);
    ReplaceOk(v, i, m');
    LinkOutChain(m, j, minors, minors');
    LinkedOutInside(m, j, minors, minors');
    ReplaceChain(v, i, m', minors, minors');
    ReplaceMajors(v, i, m', majors, majors');
    RemoveTags(v, i, j, bytes);
  }

  /** Linking out a major whose last block is gone. */
  lemma DropRep(v: seq<Major>, i: nat, j: nat, majors: Majors, minors: Minors, bytes: seq<byte>,
                majors': Majors, minors': Minors)
    requires Represents(v, majors, minors, bytes) && IsBlock(v, i, j) && |v[i].blocks| == 1
    requires Dropped(v, i, majors, majors')
    requires SameOutside(v[i], minors, minors')
    ensures Represents(Release(v, i, j), majors', minors', bytes)
  {
    var v' := Release(v, i, j);
    DropOk(v, i);
    DropMajors(v, i, majors, majors');
    forall k | 0 <= k < |v'| ensures ChainRep(v'[k], minors') {
      var o := if k < i then k else k + 1;
      MajorsApart(v, i, o);
      OtherChain(v[i], v[o], minors, minors');
    }
    RemoveTags(v, i, j, bytes);
  }

  /** Recording a smaller request in a block's header. */
  lemma ShrinkRep(v: seq<Major>, i: nat, j: nat, req: nat, majors: Majors, minors: Minors, bytes: seq<byte>,
                  minors': Minors)
    requires Represents(v, majors, minors, bytes) && NoneEmpty(v) && IsBlock(v, i, j) && req <= v[i].blocks[j].req
    requires var a := v[i].blocks[j].addr; a in minors && minors' == minors[a := minors[a].(reqSize := req)]
    ensures Represents(Shrink(v, i, j, req), majors, minors', bytes)
  {
    var v', m := Shrink(v, i, j, req), v[i];
    ShrinkOk(v, i, j, req);
    ShrinkChain(m, j, req, minors, minors');
    ReplaceChain(v, i, v'[i], minors, minors');
    ShrinkTotals(m, j, req);
    assert MajorAt(v, majors, i);
    assert majors[m.addr := MajorRec(v', i)] == majors;
    ReplaceMajors(v, i, v'[i], majors, majors);
    ShrinkTags(v, i, j, req, bytes);
  }

  lemma ShrinkChain(m: Major, j: nat, req: nat, minors: Minors, minors': Minors)
    requires MajorOk(m) && ChainRep(m, minors) && j < |m.blocks|
    requires var a := m.blocks[j].addr; a in minors && minors' == minors[a := minors[a].(reqSize := req)]
    ensures ChainRep(m.(blocks := m.blocks[j := m.blocks[j].(req := req)]), minors')
    ensures SameOutside(m, minors, minors')
  {
    var m' := m.(blocks := m.blocks[j := m.blocks[j].(req := req)]);
    assert BlockOk(m, m.blocks[j]);
    forall k | 0 <= k < |m'.blocks| ensures MinorAt(m', minors', k) {
      assert MinorAt(m, minors, k);
      BlockAddrUnique(m, j, k);
    }
  }

  lemma ShrinkTags(v: seq<Major>, i: nat, j: nat, req: nat, bytes: seq<byte>)
    requires IsBlock(v, i, j) && TagsOk(v, bytes)
    ensures TagsOk(Shrink(v, i, j, req), bytes)
  {
    var v' := Shrink(v, i, j, req);
    forall k: nat, l: nat | IsBlock(v', k, l) ensures TagOk(v'[k].blocks[l], bytes) {
      assert IsBlock(v, k, l) && TagOk(v[k].blocks[l], bytes);
    }
  }

  lemma ShrinkTotals(m: Major, j: nat, req: nat)
    requires j < |m.blocks|
    ensures var bs := m.blocks[j := m.blocks[j].(req := req)];
            Taken(bs) == Taken(m.blocks) && BlockBytes(bs) == BlockBytes(m.blocks)
  {
    var b := m.blocks[j].(req := req);
    var bs := m.blocks[j := b];
    assert m.blocks == (m.blocks[..j] + [m.blocks[j]]) + m.blocks[j+1..];
    assert bs == (m.blocks[..j] + [b]) + m.blocks[j+1..];
    TakenConcat(m.blocks[..j] + [m.blocks[j]], m.blocks[j+1..]);
    TakenConcat(m.blocks[..j], [m.blocks[j]]);
    TakenConcat(m.blocks[..j] + [b], m.blocks[j+1..]);
    TakenConcat(m.blocks[..j], [b]);
    TakenOne(b);
    TakenOne(m.blocks[j]);
  }
}
