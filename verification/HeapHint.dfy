/**
 The hint of the kernel heap: which major kmalloc leaves it at, as a function of the heap.
 */
module HeapHint {
  import opened Wrappers
  import opened HeapView
  import opened HeapRep

  /** A major's address, or NULL, and the free space it is remembered for. */
  datatype Hint = Hint(bet: nat, best: int)

  /** The free space of a major. */
  function Room(m: Major): int {
    Size(m) - Usage(m)
  }

  /** The free space behind a hint, none behind NULL. */
  function HintRoom(v: seq<Major>, bet: nat): int {
    if bet != 0 && IndexOf(v, bet) < |v| then Room(v[IndexOf(v, bet)]) else 0
  }

  /** A visited major takes the hint if it has more free space than any before it. */
  function Note(h: Hint, m: Major): Hint {
    if h.best < Room(m) then Hint(m.addr, Room(m)) else h
  }

  function NoteAll(h: Hint, ms: seq<Major>): Hint {
    if ms == [] then h else Note(NoteAll(h, ms[..|ms|-1]), ms[|ms|-1])
  }

  /** The search begins at the hinted major, and not at the root. */
  predicate Eager(v: seq<Major>, bet: nat, need: nat) {
    bet != 0 && IndexOf(v, bet) < |v| && Room(v[IndexOf(v, bet)]) > need
  }

  lemma LazyStart(v: seq<Major>, bet: nat, need: nat)
    ensures !Eager(v, bet, need) ==> Start(v, bet, need) == 0
  {
  }

  /** The majors visited before major i, in the order of the visits. */
  function Visited(v: seq<Major>, bet: nat, need: nat, i: nat, started: bool): seq<Major>
    requires i <= |v| && (started ==> Start(v, bet, need) <= i)
  {
    var s := Start(v, bet, need);
    if started then v[s..i] else (if Eager(v, bet, need) then v[s..] else []) + v[..i]
  }

  /**
   The hint when kmalloc returns. The search visits majors up to the one that serves the request, or
   all; a new major is visited too, unless the last one was left for it because of its free space.
   */
  function HintAfter(v: seq<Major>, bet: nat, req: nat, grant: nat): nat {
    var need, h := Need(req), Hint(bet, HintRoom(v, bet));
    match Locate(v, bet, need)
    case Some((i, _)) =>
      NoteAll(h, Visited(v, bet, need, i + 1, Eager(v, bet, need) && Start(v, bet, need) <= i)).bet
    case None =>
      var all := NoteAll(h, Visited(v, bet, need, |v|, false));
      if grant != 0 && (v == [] || Room(v[|v|-1]) >= need) then
        Note(all, Major(grant, PagesFor(req + SLACK), [])).bet
      else all.bet
  }

  // ---------- what the hint is good for ----------

  /** A hint that remembers the free space of its major. */
  ghost predicate Remembered(v: seq<Major>, h: Hint) {
    h.best == HintRoom(v, h.bet) && (h.bet == 0 || IndexOf(v, h.bet) < |v|)
  }

  lemma {:induction false} NoteMost(v: seq<Major>, h: Hint, ms: seq<Major>)
    requires HeapOk(v) && Remembered(v, h) && forall m :: m in ms ==> m in v
    ensures Remembered(v, NoteAll(h, ms)) && NoteAll(h, ms).best >= h.best
    ensures forall m :: m in ms ==> Room(m) <= NoteAll(h, ms).best
  {
    if ms != [] {
      var front, m := ms[..|ms|-1], ms[|ms|-1];
      NoteMost(v, h, front);
      assert m in ms && m in v;
      var i :| 0 <= i < |v| && v[i] == m;
      IndexOfAddr(v, i);
      assert MajorOk(v[i]);
      assert forall x :: x in ms ==> x in front || x == m;
    }
  }

  /** The hint stays, or moves to the first of the visited majors that have the most free space, if that is more. */
  lemma {:induction false} FirstRoomiest(h: Hint, ms: seq<Major>)
    ensures if forall k :: 0 <= k < |ms| ==> Room(ms[k]) <= h.best then NoteAll(h, ms) == h
            else exists k: nat :: k < |ms| && Leads(h, ms, k) && NoteAll(h, ms) == Hint(ms[k].addr, Room(ms[k]))
  {
    hide Room, Leads;
    if ms != [] {
      var front, m := ms[..|ms|-1], ms[|ms|-1];
      FirstRoomiest(h, front);
      if forall k :: 0 <= k < |front| ==> Room(front[k]) <= h.best {
        LeadsNext(h, front, m);
      } else {
        var k: nat :| k < |front| && Leads(h, front, k) && NoteAll(h, front) == Hint(front[k].addr, Room(front[k]));
        LeadsOn(h, front, m, k);
      }
      assert ms == front + [m];
    }
  }

  lemma {:induction false} LeadsNext(h: Hint, front: seq<Major>, m: Major)
    requires forall k :: 0 <= k < |front| ==> Room(front[k]) <= h.best
    ensures Room(m) > h.best ==> Leads(h, front + [m], |front|)
    ensures Room(m) <= h.best ==> forall k :: 0 <= k < |front + [m]| ==> Room((front + [m])[k]) <= h.best
  {
  }

  lemma {:induction false} LeadsOn(h: Hint, front: seq<Major>, m: Major, k: nat)
    requires Leads(h, front, k)
    ensures if Room(m) > Room(front[k]) then Leads(h, front + [m], |front|) else Leads(h, front + [m], k)
    ensures Room((front + [m])[k]) > h.best
  {
  }

  /** Major k has more free space than the hint and all majors before it, and no less than those behind it. */
  ghost predicate Leads(h: Hint, ms: seq<Major>, k: nat) {
    && k < |ms| && h.best < Room(ms[k])
    && (forall j :: 0 <= j < k ==> Room(ms[j]) < Room(ms[k]))
    && (forall j :: k < j < |ms| ==> Room(ms[j]) <= Room(ms[k]))
  }

  /** After a refusal every major has been visited: the hint is one with the most free space, or there is none. */
  lemma {:induction false} RoomiestHint(v: seq<Major>, bet: nat, req: nat)
    requires HeapOk(v) && (bet == 0 || IndexOf(v, bet) < |v|) && Locate(v, bet, Need(req)).None?
    ensures var b := HintAfter(v, bet, req, 0);
            if b == 0 then forall i :: 0 <= i < |v| ==> Room(v[i]) <= 0
            else IndexOf(v, b) < |v| && forall i :: 0 <= i < |v| ==> Room(v[i]) <= Room(v[IndexOf(v, b)])
  {
    hide HeapOk, Locate;
    var ms := Visited(v, bet, Need(req), |v|, false);
    assert forall m :: m in ms ==> m in v;
    assert forall i :: 0 <= i < |v| ==> v[i] in v[..|v|];
    NoteMost(v, Hint(bet, HintRoom(v, bet)), ms);
  }

  // ---------- the search keeps track of it ----------

  /** The hint and the best size when the search comes to major i of v, or to the new one behind it. */
  ghost predicate Noted(v: seq<Major>, bet: nat, need: nat, i: nat, started: bool, added: bool, bet': nat, best': int) {
    && i <= |v| && (started ==> Eager(v, bet, need) && Start(v, bet, need) <= i)
    && (added ==> i == |v| && !started && (v == [] || Room(v[|v|-1]) >= need))
    && Hint(bet', best') == NoteAll(Hint(bet, HintRoom(v, bet)), Visited(v, bet, need, i, started))
  }

  lemma {:induction false} NotedNext(v: seq<Major>, bet: nat, need: nat, i: nat, started: bool, bet1: nat, best1: int,
                                     h: Hint)
    requires i < |v| && Noted(v, bet, need, i, started, false, bet1, best1) && h == Note(Hint(bet1, best1), v[i])
    ensures Noted(v, bet, need, i + 1, started, false, h.bet, h.best)
  {
    hide Start, Room, HintRoom;
    var ms, more := Visited(v, bet, need, i, started), Visited(v, bet, need, i + 1, started);
    assert v[..i + 1] == v[..i] + [v[i]];
    assert more == ms + [v[i]];
    assert more[..|more|-1] == ms;
  }

  lemma {:induction false} NotedAgain(v: seq<Major>, bet: nat, need: nat, bet1: nat, best1: int)
    requires Noted(v, bet, need, |v|, true, false, bet1, best1)
    ensures Noted(v, bet, need, 0, false, false, bet1, best1)
  {
    var s := Start(v, bet, need);
    assert v[s..] + v[..0] == v[s..|v|];
  }

  lemma {:induction false} NotedFirst(v: seq<Major>, bet: nat, need: nat)
    requires !Eager(v, bet, need)
    ensures Noted(v, bet, need, 0, false, v == [], bet, HintRoom(v, bet))
  {
    assert Visited(v, bet, need, 0, false) == [];
  }

  lemma {:induction false} NotedBet(v: seq<Major>, bet: nat, need: nat)
    requires Eager(v, bet, need)
    ensures Noted(v, bet, need, IndexOf(v, bet), true, false, bet, HintRoom(v, bet))
  {
    assert Visited(v, bet, need, IndexOf(v, bet), true) == [];
  }

  /** If no major from the start on serves the request, one before it does. */
  lemma {:induction false} FoundBefore(v: seq<Major>, bet: nat, need: nat, i: nat, j: nat)
    requires Locate(v, bet, need) == Some((i, j)) && FirstMajor(v, need, Start(v, bet, need)) == |v|
    ensures i < Start(v, bet, need)
  {
    hide FirstGap, Start;
  }

  /** The major that serves the request has been visited: this is the hint afterwards. */
  lemma {:induction false} NotedFound(v: seq<Major>, bet: nat, req: nat, grant: nat, i: nat, j: nat, started: bool,
                                      bet1: nat, best1: int)
    requires Locate(v, bet, Need(req)) == Some((i, j))
    requires Noted(v, bet, Need(req), i + 1, started, false, bet1, best1)
    requires started ==> Start(v, bet, Need(req)) <= i
    requires !started && Eager(v, bet, Need(req)) ==> FirstMajor(v, Need(req), Start(v, bet, Need(req))) == |v|
    ensures bet1 == HintAfter(v, bet, req, grant)
  {
    hide FirstMajor, Start, Eager, NoteAll, Visited, Locate;
    if !started && Eager(v, bet, Need(req)) {
      FoundBefore(v, bet, Need(req), i, j);
    }
  }

  lemma {:induction false} NotedRefused(v: seq<Major>, bet: nat, req: nat, bet1: nat, best1: int)
    requires Locate(v, bet, Need(req)).None? && Noted(v, bet, Need(req), |v|, false, false, bet1, best1)
    ensures bet1 == HintAfter(v, bet, req, 0)
  {
  }

  /** A new major for want of free space in the last one takes the request before it is noted. */
  lemma {:induction false} NotedSkipped(v: seq<Major>, bet: nat, req: nat, grant: nat, bet1: nat, best1: int)
    requires Locate(v, bet, Need(req)).None? && Noted(v, bet, Need(req), |v|, false, false, bet1, best1)
    requires v != [] && Room(v[|v|-1]) < Need(req)
    ensures bet1 == HintAfter(v, bet, req, grant)
  {
  }

  /** Otherwise the search comes to it, */
  lemma {:induction false} NotedFull(v: seq<Major>, bet: nat, need: nat, bet1: nat, best1: int)
    requires Noted(v, bet, need, |v|, false, false, bet1, best1) && v != [] && Room(v[|v|-1]) >= need
    ensures Noted(v, bet, need, |v|, false, true, bet1, best1)
  {
  }

  /** and it is visited like any other. */
  lemma {:induction false} NotedAdded(v: seq<Major>, bet: nat, req: nat, grant: nat, bet1: nat, best1: int, h: Hint)
    requires Locate(v, bet, Need(req)).None? && Noted(v, bet, Need(req), |v|, false, true, bet1, best1) && grant != 0
    requires h == Note(Hint(bet1, best1), Major(grant, PagesFor(req + SLACK), []))
    ensures h.bet == HintAfter(v, bet, req, grant)
  {
  }
}
