/** The hashed timing wheel of chapter 11: N slots, each a doubly linked list of timers
    with the number of full rotations they still have to wait. */
module TimerWheel {

  const N: nat := 60
  const TI: nat := 1

  class TwTimer {
    var rotation: nat
    const timeSlot: nat
    var userData: nat
    var next: TwTimer?
    var prev: TwTimer?

    constructor (rotation: nat, timeSlot: nat)
      ensures this.rotation == rotation && this.timeSlot == timeSlot
      ensures next == null && prev == null
    {
      this.rotation, this.timeSlot := rotation, timeSlot;
      next, prev := null, null;
    }
  }

  ghost predicate Distinct<T>(l: seq<T>) {
    forall i, j :: 0 <= i < j < |l| ==> l[i] != l[j]
  }

  /** `head` starts a doubly linked list that consists of exactly `l`. */
  ghost predicate Linked(head: TwTimer?, l: seq<TwTimer>)
    reads l`next, l`prev
  {
    && head == (if l == [] then null else l[0])
    && Distinct(l)
    && (forall i {:trigger l[i].next} :: 0 <= i < |l| ==> l[i].next == if i + 1 < |l| then l[i + 1] else null)
    && (forall i {:trigger l[i].prev} :: 0 <= i < |l| ==> l[i].prev == if i > 0 then l[i - 1] else null)
  }

  function Without<T>(l: seq<T>, i: nat): seq<T>
    requires i < |l|
  {
    l[..i] + l[i + 1..]
  }

  /** Puts a new timer in front of a list. */
  method LinkFront(timer: TwTimer, head: TwTimer?, ghost l: seq<TwTimer>)
    requires Linked(head, l) && timer !in l && timer.next == null && timer.prev == null
    modifies timer`next, l`prev
    ensures Linked(timer, [timer] + l)
  {
    if head != null {
      timer.next := head;
      head.prev := timer;
    }
  }

  /** Takes the i-th timer out of a list. */
  method Unlink(timer: TwTimer, head: TwTimer?, ghost l: seq<TwTimer>, ghost i: nat) returns (newHead: TwTimer?)
    requires Linked(head, l) && i < |l| && l[i] == timer
    modifies l`next, l`prev
    ensures Linked(newHead, Without(l, i))
    ensures timer.next == old(timer.next)
  {
    newHead := head;
    if timer == head {
      newHead := head.next;
      if newHead != null {
        newHead.prev := null;
      }
    } else {
      timer.prev.next := timer.next;
      if timer.next != null {
        timer.next.prev := timer.prev;
      }
    }
  }

  lemma WithoutOne(head: TwTimer?, l: seq<TwTimer>, i: nat)
    requires Linked(head, l) && i < |l|
    ensures forall t :: t in Without(l, i) <==> t in l && t != l[i]
  {
    forall t | t in l && t != l[i] ensures t in Without(l, i) {
      var j :| 0 <= j < |l| && l[j] == t;
      assert Without(l, i)[if j < i then j else j - 1] == t;
    }
  }

  lemma DistinctIfLinked(head: TwTimer?, l: seq<TwTimer>)
    requires Linked(head, l)
    ensures Distinct(l)
  {
  }

  lemma HeadOf(head: TwTimer?, l: seq<TwTimer>)
    requires Linked(head, l)
    ensures head == if l == [] then null else l[0]
  {
  }

  lemma Middle(head: TwTimer?, kept: seq<TwTimer>, rest: seq<TwTimer>)
    requires Linked(head, kept + rest) && rest != []
    ensures rest[0] !in kept && rest[0] !in rest[1..]
    ensures rest[0].next == if |rest| > 1 then rest[1] else null
    ensures kept + [rest[0]] + rest[1..] == kept + rest
    ensures Without(kept + rest, |kept|) == kept + rest[1..]
  {
    var l := kept + rest;
    assert l[|kept|] == rest[0] && forall i :: 0 <= i < |kept| ==> l[i] == kept[i];
    assert forall i :: 0 < i < |rest| ==> l[|kept| + i] == rest[i];
  }

  /** How many slots `s` is ahead of the current slot: (s - cur) mod N. */
  function Distance(cur: nat, s: nat): (d: nat)
    requires cur < N && s < N
    ensures d < N && (cur + d) % N == s
  {
    if cur <= s then s - cur else s + N - cur
  }

  class TimeWheel {
    const slots: array<TwTimer?>
    var curSlot: nat
    /** The user data of the callbacks run so far: what the callbacks are modelled by. */
    var fired: seq<nat>
    /** The number of ticks so far. */
    ghost var clock: nat
    ghost var lists: seq<seq<TwTimer>>
    ghost var timers: set<TwTimer>

    ghost predicate Shaped()
      reads this`lists, this`timers, slots, timers`next, timers`prev
    {
      && slots.Length == |lists| == N
      && (forall s, i :: 0 <= s < N && 0 <= i < |lists[s]| ==> lists[s][i] in timers && lists[s][i].timeSlot == s)
      && (forall t :: t in timers ==> t.timeSlot < N && t in lists[t.timeSlot])
      && (forall s :: 0 <= s < N ==> Linked(slots[s], lists[s]))
    }

    ghost predicate Valid()
      reads this, slots, timers`next, timers`prev
    {
      Shaped() && curSlot < N
    }

    /** The tick, counted from 0, on which `t` fires. */
    ghost function Due(t: TwTimer): nat
      requires t.timeSlot < N && curSlot < N
      reads this`clock, this`curSlot, t`rotation
    {
      clock + Distance(curSlot, t.timeSlot) + t.rotation * N
    }

    constructor ()
      ensures Valid() && fresh(slots)
      ensures timers == {} && clock == 0 && fired == []
    {
      slots := new TwTimer?[N](_ => null);
      curSlot := 0;
      fired, clock, lists, timers := [], 0, seq(N, _ => []), {};
    }

    /** A timer with k ticks, which is 1 for a zero timeout, fires on the (k+1)-th later
        call of Tick.  No other deadline moves. */
    method AddTimer(timeout: int) returns (timer: TwTimer?)
      requires Valid()
      modifies this`lists, this`timers, slots, timers`next, timers`prev
      ensures Valid()
      ensures timer == null <==> timeout < 0
      ensures timer == null ==> timers == old(timers)
      ensures timer != null ==>
                && fresh(timer) && timers == old(timers) + {timer}
                && Due(timer) == clock + if timeout < TI then 1 else timeout / TI
    {
      if timeout < 0 {
        return null;
      }
      var ticks := 0;
      if timeout < TI {
        ticks := 1;
      } else {
        ticks := timeout / TI;
      }
      var rotation := ticks / N;
      var ts := (curSlot + ticks % N) % N;
      timer := new TwTimer(rotation, ts);
      Insert(timer);
      SlotOfTicks(curSlot, ticks);
    }

    /** Puts a new timer in front of the list of its slot. */
    method Insert(timer: TwTimer)
      requires Shaped() && timer !in timers && timer.timeSlot < N && timer.next == timer.prev == null
      modifies this`lists, this`timers, slots, timer`next, timers`prev
      ensures Shaped() && timers == old(timers) + {timer}
      ensures lists == old(lists)[timer.timeSlot := [timer] + old(lists)[timer.timeSlot]]
    {
      hide Linked;
      var ts := timer.timeSlot;
      LinkFront(timer, slots[ts], lists[ts]);
      slots[ts] := timer;
      lists := lists[ts := [timer] + lists[ts]];
      timers := timers + {timer};
    }

    /** Takes `timer` out of the list of its slot. */
    method Remove(timer: TwTimer, ghost i: nat)
      requires Shaped() && timer in timers
      requires i < |lists[timer.timeSlot]| && lists[timer.timeSlot][i] == timer
      modifies this`lists, this`timers, slots, timers`next, timers`prev
      ensures Shaped() && timers == old(timers) - {timer}
      ensures lists == old(lists)[timer.timeSlot := Without(old(lists)[timer.timeSlot], i)]
      ensures timer.next == old(timer.next)
    {
      hide Linked;
      var ts := timer.timeSlot;
      WithoutOne(slots[ts], lists[ts], i);
      slots[ts] := Unlink(timer, slots[ts], lists[ts], i);
      lists := lists[ts := Without(lists[ts], i)];
      timers := timers - {timer};
    }

    method DelTimer(timer: TwTimer?)
      requires Valid() && (timer == null || timer in timers)
      modifies this`lists, this`timers, slots, timers`next, timers`prev
      ensures Valid() && timers == old(timers) - {timer}
    {
      if timer == null {
        return;
      }
      ghost var i :| 0 <= i < |lists[timer.timeSlot]| && lists[timer.timeSlot][i] == timer;
      Remove(timer, i);
    }

    /** The user data of the timers of `l` that fire on this tick, in list order. */
    static ghost function Expiring(l: seq<TwTimer>): seq<nat>
      reads l`rotation, l`userData
    {
      if l == [] then []
      else (if l[0].rotation == 0 then [l[0].userData] else []) + Expiring(l[1..])
    }

    static lemma ExpiringStep(l: seq<TwTimer>)
      ensures l == [] ==> Expiring(l) == []
      ensures l != [] ==> Expiring(l) == (if l[0].rotation == 0 then [l[0].userData] else []) + Expiring(l[1..])
    {
    }

    /** The loop body: `timer` is the first of the `rest` of the current slot. */
    method VisitTimer(timer: TwTimer, ghost kept: seq<TwTimer>, ghost rest: seq<TwTimer>) returns (next: TwTimer?)
      requires Valid() && lists[curSlot] == kept + rest && rest != [] && timer == rest[0]
      modifies this`lists, this`timers, this`fired, slots, timers`next, timers`prev, timer`rotation
      ensures Valid() && next == if |rest| > 1 then rest[1] else null
      ensures timer in old(timers) && timer.timeSlot == curSlot && timer !in kept && timer !in rest[1..]
      ensures if old(timer.rotation) > 0 then
                && timer.rotation == old(timer.rotation) - 1
                && lists[curSlot] == kept + [timer] + rest[1..]
                && timers == old(timers) && fired == old(fired)
              else
                && lists[curSlot] == kept + rest[1..]
                && timers == old(timers) - {timer} && fired == old(fired) + [timer.userData]
      ensures Expiring(rest[1..]) == old(Expiring(rest[1..]))
    {
      hide Linked, Expiring;
      Middle(slots[curSlot], kept, rest);
      assert timer == lists[curSlot][|kept|];
      if timer.rotation > 0 {
        timer.rotation := timer.rotation - 1;
      } else {
        fired := fired + [timer.userData];
        Remove(timer, |kept|);
      }
      next := timer.next;
    }

    /** The loop over the current slot. */
    method VisitSlot()
      requires Valid()
      modifies this`lists, this`timers, this`fired, slots, timers`next, timers`prev, timers`rotation
      ensures Valid()
      ensures timers == set t | t in old(timers) && !(t.timeSlot == curSlot && old(t.rotation) == 0)
      ensures forall t :: t in timers ==>
                t.rotation == if t.timeSlot == curSlot then old(t.rotation) - 1 else old(t.rotation)
      ensures fired == old(fired) + old(Expiring(lists[curSlot]))
    {
      ghost var was := map t | t in timers :: t.rotation;
      ghost var rest := lists[curSlot];
      ghost var kept: seq<TwTimer>, dead: set<TwTimer> := [], {};
      HeadOf(slots[curSlot], lists[curSlot]);
      var tmp := slots[curSlot];
      assert kept + rest == rest;
      hide Shaped, Linked, Expiring;
      while tmp != null
        invariant tmp == if rest == [] then null else rest[0]
        invariant Valid() && lists[curSlot] == kept + rest
        invariant timers <= old(timers) && Visited(was, kept, dead)
        invariant fired + Expiring(rest) == old(fired) + old(Expiring(lists[curSlot]))
        decreases |rest|
      {
        hide Visited;
        FirstOfRest(kept, rest);
        tmp, kept, dead := VisitNext(tmp, kept, rest, dead, was);
        rest := rest[1..];
      }
      ExpiringStep([]);
      assert kept + rest == kept;
    }

    /** Of the timers that were there, those in `kept` have lost a rotation, those in `dead` have
        fired, and the others are as before. */
    ghost predicate Visited(was: map<TwTimer, nat>, kept: seq<TwTimer>, dead: set<TwTimer>)
      reads this`timers, this`curSlot, timers`rotation
    {
      && timers == was.Keys - dead
      && (forall t :: t in dead ==> t in was && t.timeSlot == curSlot && was[t] == 0)
      && (forall t :: t in timers ==> was[t] == t.rotation + if t in kept then 1 else 0)
    }

    lemma FirstOfRest(kept: seq<TwTimer>, rest: seq<TwTimer>)
      requires Valid() && lists[curSlot] == kept + rest && rest != []
      ensures rest[0] in timers && rest[0].timeSlot == curSlot
    {
      assert lists[curSlot][|kept|] == rest[0];
    }

    /** One turn of the loop. */
    method VisitNext(timer: TwTimer, ghost kept0: seq<TwTimer>, ghost rest: seq<TwTimer>,
                     ghost dead0: set<TwTimer>, ghost was: map<TwTimer, nat>)
      returns (next: TwTimer?, ghost kept: seq<TwTimer>, ghost dead: set<TwTimer>)
      requires Valid() && lists[curSlot] == kept0 + rest && rest != [] && timer == rest[0]
      requires Visited(was, kept0, dead0)
      modifies this`lists, this`timers, this`fired, slots, timers`next, timers`prev, timer`rotation
      ensures Valid() && next == if |rest| > 1 then rest[1] else null
      ensures timer in old(timers) && timers <= old(timers)
      ensures lists[curSlot] == kept + rest[1..] && Visited(was, kept, dead)
      ensures fired + Expiring(rest[1..]) == old(fired) + old(Expiring(rest))
    {
      hide Shaped, Linked, Expiring;
      ExpiringStep(rest);
      FirstOfRest(kept0, rest);
      ghost var keeps := timer.rotation > 0;
      next := VisitTimer(timer, kept0, rest);
      kept := if keeps then kept0 + [timer] else kept0;
      dead := if keeps then dead0 else dead0 + {timer};
    }

    lemma SlotBounds()
      requires Valid()
      ensures curSlot < N && forall t :: t in timers ==> t.timeSlot < N
    {
    }

    /** Visits the current slot before leaving it: exactly the timers that are due on this
        tick fire, once each, and leave the wheel. */
    method Tick()
      requires Valid()
      modifies this, slots, timers`next, timers`prev, timers`rotation
      ensures Valid() && clock == old(clock) + 1
      ensures timers == set t | t in old(timers) && old(Due(t)) != old(clock)
      ensures forall t :: t in timers ==> Due(t) == old(Due(t))
      ensures fired == old(fired) + old(Expiring(lists[curSlot]))
    {
      hide Shaped, Expiring;
      SlotBounds();
      assert forall t :: t in timers ==> (Due(t) == clock <==> t.timeSlot == curSlot && t.rotation == 0);
      VisitSlot();
      curSlot := (curSlot + 1) % N;
      clock := clock + 1;
    }

    /** The wheel holds the timers of the bag `b`; the i-th timer ever added is handles[i]. */
    ghost predicate Tracks(b: Bag, handles: seq<TwTimer>)
      reads this, slots, timers, handles
    {
      && Valid() && clock == b.clock && |handles| == b.next
      && (forall id :: 0 <= id < b.next ==> handles[id].userData == id)
      && (forall t :: t in timers ==> t.userData < b.next && handles[t.userData] == t)
      && (forall id :: id in b.due <==> 0 <= id < b.next && handles[id] in timers)
      && (forall id :: id in b.due ==> Due(handles[id]) == b.due[id])
    }

    lemma TracksNothing()
      requires Valid() && timers == {} && clock == 0
      ensures Tracks(EMPTY, [])
    {
    }

    static lemma {:induction false} ExpiringCount(l: seq<TwTimer>, id: nat)
      requires forall i, j :: 0 <= i < j < |l| ==> l[i].userData != l[j].userData
      ensures multiset(Expiring(l))[id] ==
                if exists t :: t in l && t.rotation == 0 && t.userData == id then 1 else 0
    {
      if l != [] {
        ExpiringCount(l[1..], id);
        assert forall t :: t in l <==> t == l[0] || t in l[1..];
      }
    }

    /** The callbacks of a tick are those of the timers that are due, each once. */
    lemma ExpiringIsDueNow(b: Bag, handles: seq<TwTimer>)
      requires Tracks(b, handles)
      ensures multiset(Expiring(lists[curSlot])) == multiset(DueNow(b))
    {
      hide Linked, Expiring;
      var l := lists[curSlot];
      assert forall t :: t in timers ==> (Due(t) == clock <==> t.timeSlot == curSlot && t.rotation == 0);
      DistinctIfLinked(slots[curSlot], l);
      forall id: nat ensures multiset(Expiring(l))[id] == multiset(DueNow(b))[id] {
        ExpiringCount(l, id);
        if id in DueNow(b) {
          assert handles[id] in l && handles[id].rotation == 0;
        }
      }
    }
  }

  lemma SlotOfTicks(cur: nat, ticks: nat)
    requires cur < N
    ensures Distance(cur, (cur + ticks % N) % N) + ticks / N * N == ticks
  {
  }

  // ----- the wheel as a bag of absolute deadlines

  datatype Op = Add(timeout: int) | Del(id: nat) | Tick

  /** The pending timers by number, each with the tick on which it is due. */
  datatype Bag = Bag(clock: nat, due: map<nat, nat>, next: nat)

  const EMPTY: Bag := Bag(0, map[], 0)

  function TicksOf(timeout: nat): nat {
    if timeout < TI then 1 else timeout / TI
  }

  ghost function DueNow(b: Bag): set<nat> {
    set id | id in b.due && b.due[id] == b.clock
  }

  ghost function Step(b: Bag, op: Op): Bag {
    match op
    case Add(timeout) =>
      if timeout < 0 then b
      else b.(due := b.due[b.next := b.clock + TicksOf(timeout)], next := b.next + 1)
    case Del(id) => b.(due := b.due - {id})
    case Tick => b.(clock := b.clock + 1, due := b.due - DueNow(b))
  }

  // ----- what is to fire, told by the positions of the operations

  /** How many timers the first q operations add, and how many ticks they are. */
  function Added(ops: seq<Op>, q: nat): nat
    requires q <= |ops|
  {
    if q == 0 then 0 else Added(ops, q - 1) + if ops[q - 1].Add? && ops[q - 1].timeout >= 0 then 1 else 0
  }

  function Ticks(ops: seq<Op>, q: nat): nat
    requires q <= |ops|
  {
    if q == 0 then 0 else Ticks(ops, q - 1) + if ops[q - 1].Tick? then 1 else 0
  }

  /** Operation p adds timer `id`, which is not deleted up to operation q. */
  ghost predicate AddedAt(ops: seq<Op>, p: nat, q: nat, id: nat) {
    && p < q <= |ops| && ops[p].Add? && ops[p].timeout >= 0 && Added(ops, p) == id
    && forall k :: p < k < q ==> ops[k] != Del(id)
  }

  /** The tick, counted from 0, on which the timer added by operation p is due: after as many
      ticks as its timeout has, and at least one. */
  function DueTick(ops: seq<Op>, p: nat): nat
    requires p < |ops| && ops[p].Add? && ops[p].timeout >= 0
  {
    Ticks(ops, p) + TicksOf(ops[p].timeout)
  }

  /** A timer fires on the tick on which it is due, unless it is deleted before. */
  ghost predicate FiresAt(ops: seq<Op>, q: nat, id: nat) {
    q < |ops| && ops[q].Tick? && exists p: nat :: AddedAt(ops, p, q, id) && Ticks(ops, q) == DueTick(ops, p)
  }

  lemma {:induction false} AddedGrows(ops: seq<Op>, p: nat, q: nat)
    requires p <= q <= |ops|
    ensures Added(ops, p) <= Added(ops, q)
    ensures p < q && ops[p].Add? && ops[p].timeout >= 0 ==> Added(ops, p) < Added(ops, q)
  {
    if p < q {
      AddedGrows(ops, p, q - 1);
    }
  }

  lemma {:induction false} TicksGrow(ops: seq<Op>, p: nat, q: nat)
    requires p <= q <= |ops|
    ensures Ticks(ops, p) <= Ticks(ops, q)
    ensures p < q && ops[p].Tick? ==> Ticks(ops, p) < Ticks(ops, q)
  {
    if p < q {
      TicksGrow(ops, p, q - 1);
    }
  }

  /** The number of an added timer is not given again. */
  lemma OneAddition(ops: seq<Op>, p: nat, o: nat, q: nat, r: nat, id: nat)
    requires AddedAt(ops, p, q, id) && AddedAt(ops, o, r, id)
    ensures p == o
  {
    if p < o { AddedGrows(ops, p, o); }
    if o < p { AddedGrows(ops, o, p); }
  }

  /** A timer that is not deleted fires on exactly one tick, the one it is due on. */
  lemma FiresOnceOnTime(ops: seq<Op>, p: nat, q: nat, id: nat)
    requires AddedAt(ops, p, |ops|, id) && q < |ops| && ops[q].Tick?
    ensures FiresAt(ops, q, id) <==>
              p < q && Ticks(ops, q) == Ticks(ops, p) + if ops[p].timeout < TI then 1 else ops[p].timeout / TI
  {
    if p < q {
      assert AddedAt(ops, p, q, id);
    }
    forall o: nat | AddedAt(ops, o, q, id) ensures o == p {
      OneAddition(ops, p, o, |ops|, q, id);
    }
  }

  /** A timer that has fired or was deleted does not fire any more. */
  lemma NeverFires(ops: seq<Op>, k: nat, q: nat, id: nat)
    requires k < q && k < |ops| && (FiresAt(ops, k, id) || (ops[k] == Del(id) && id < Added(ops, k)))
    ensures !FiresAt(ops, q, id)
  {
    if FiresAt(ops, q, id) {
      var o: nat :| AddedAt(ops, o, q, id) && Ticks(ops, q) == DueTick(ops, o);
      if FiresAt(ops, k, id) {
        var p: nat :| AddedAt(ops, p, k, id) && Ticks(ops, k) == DueTick(ops, p);
        OneAddition(ops, p, o, k, q, id);
        TicksGrow(ops, k, q);
      } else if k <= o {
        AddedGrows(ops, k, o);
      }
      assert false;
    }
  }

  // ----- the bag before each operation

  ghost function Before(ops: seq<Op>, q: nat): Bag
    requires q <= |ops|
  {
    if q == 0 then EMPTY else Step(Before(ops, q - 1), ops[q - 1])
  }

  lemma {:induction false} BagCounts(ops: seq<Op>, q: nat)
    requires q <= |ops|
    ensures Before(ops, q).clock == Ticks(ops, q) && Before(ops, q).next == Added(ops, q)
  {
    if q > 0 {
      BagCounts(ops, q - 1);
    }
  }

  /** `id` is added by operation p, and neither deleted nor due before operation q. */
  ghost predicate PendingSince(ops: seq<Op>, p: nat, q: nat, id: nat) {
    AddedAt(ops, p, q, id) && Ticks(ops, q) <= DueTick(ops, p)
  }

  /** Every entry of the bag is a timer that is pending, */
  lemma {:induction false} InBag(ops: seq<Op>, q: nat, id: nat)
    requires q <= |ops| && id in Before(ops, q).due
    ensures exists p: nat :: PendingSince(ops, p, q, id) && Before(ops, q).due[id] == DueTick(ops, p)
  {
    BagCounts(ops, q - 1);
    var op := ops[q - 1];
    if op.Add? && op.timeout >= 0 && id == Added(ops, q - 1) {
      assert PendingSince(ops, q - 1, q, id);
    } else {
      InBag(ops, q - 1, id);
      var p: nat :| PendingSince(ops, p, q - 1, id) && Before(ops, q - 1).due[id] == DueTick(ops, p);
      assert PendingSince(ops, p, q, id);
    }
  }

  /** and every pending timer is an entry. */
  lemma {:induction false} StaysInBag(ops: seq<Op>, p: nat, q: nat, id: nat)
    requires q <= |ops| && PendingSince(ops, p, q, id)
    ensures id in Before(ops, q).due && Before(ops, q).due[id] == DueTick(ops, p)
  {
    BagCounts(ops, q - 1);
    if p < q - 1 {
      assert PendingSince(ops, p, q - 1, id);
      StaysInBag(ops, p, q - 1, id);
      AddedGrows(ops, p, q - 1);
    }
  }

  /** The timers that the bag finds due at position q are those that fire there. */
  lemma DueNowIff(ops: seq<Op>, q: nat, id: nat)
    requires q < |ops| && ops[q].Tick?
    ensures id in DueNow(Before(ops, q)) <==> FiresAt(ops, q, id)
  {
    hide Before, DueTick, Added, Ticks;
    BagCounts(ops, q);
    if id in DueNow(Before(ops, q)) {
      InBag(ops, q, id);
    }
    forall p: nat | PendingSince(ops, p, q, id)
      ensures id in Before(ops, q).due && Before(ops, q).due[id] == DueTick(ops, p)
    {
      StaysInBag(ops, p, q, id);
    }
    if FiresAt(ops, q, id) {
      var p: nat :| AddedAt(ops, p, q, id) && Ticks(ops, q) == DueTick(ops, p);
      assert PendingSince(ops, p, q, id);
    }
  }

  method ApplyAdd(wheel: TimeWheel, timeout: int, handles0: seq<TwTimer>, ghost b: Bag)
    returns (handles: seq<TwTimer>)
    requires wheel.Tracks(b, handles0)
    modifies wheel, wheel.slots, wheel.timers
    ensures wheel.Tracks(Step(b, Add(timeout)), handles)
    ensures Step(b, Add(timeout)).due.Keys == b.due.Keys + if timeout < 0 then {} else {|handles0|}
    ensures fresh(wheel.timers - old(wheel.timers))
  {
    hide TimeWheel.Shaped, TimeWheel.Valid, TimeWheel.Due;
    wheel.SlotBounds();
    handles := handles0;
    var timer := wheel.AddTimer(timeout);
    if timer != null {
      var t: TwTimer := timer;
      t.userData := |handles|;
      handles := handles + [t];
    }
  }

  method ApplyDel(wheel: TimeWheel, id: nat, handles: seq<TwTimer>, ghost b: Bag)
    requires wheel.Tracks(b, handles) && id in b.due
    modifies wheel, wheel.slots, wheel.timers
    ensures wheel.Tracks(Step(b, Del(id)), handles) && wheel.timers <= old(wheel.timers)
  {
    hide TimeWheel.Shaped, TimeWheel.Valid, TimeWheel.Due;
    wheel.SlotBounds();
    wheel.DelTimer(handles[id]);
  }

  method ApplyTick(wheel: TimeWheel, ghost handles: seq<TwTimer>, ghost b: Bag) returns (now: seq<nat>)
    requires wheel.Tracks(b, handles)
    modifies wheel, wheel.slots, wheel.timers
    ensures wheel.Tracks(Step(b, Tick), handles) && wheel.timers <= old(wheel.timers)
    ensures multiset(now) == multiset(DueNow(b))
  {
    hide TimeWheel.Shaped, TimeWheel.Expiring;
    wheel.ExpiringIsDueNow(b, handles);
    var before := |wheel.fired|;
    wheel.Tick();
    now := wheel.fired[before..];
  }

  /** `now` runs the callbacks of exactly the timers that fire at position q, each once. */
  ghost predicate FiredAt(now: seq<nat>, ops: seq<Op>, q: nat) {
    forall id: nat :: multiset(now)[id] == if FiresAt(ops, q, id) then 1 else 0
  }

  /** The log has one entry for every tick of the first n operations, with what fires there. */
  ghost predicate Logged(log: seq<seq<nat>>, ops: seq<Op>, n: nat)
    requires n <= |ops|
  {
    && |log| == Ticks(ops, n)
    && forall q: nat :: q < n && ops[q].Tick? ==> Ticks(ops, q) < |log| && FiredAt(log[Ticks(ops, q)], ops, q)
  }

  /** Runs any sequence of operations on the wheel itself.  Every tick runs the callbacks of
      exactly the timers that are to fire there, each once. */
  method Drive(ops: seq<Op>) returns (log: seq<seq<nat>>)
    ensures Logged(log, ops, |ops|)
  {
    hide TimeWheel.Tracks, Logged, Before, DueNow;
    var wheel := new TimeWheel();
    wheel.TracksNothing();
    var handles: seq<TwTimer>, pending: set<nat> := [], {};
    var i := 0;
    log := [];
    NothingLogged(ops);
    while i < |ops|
      invariant i <= |ops| && fresh(wheel) && fresh(wheel.slots) && fresh(wheel.timers)
      invariant wheel.Tracks(Before(ops, i), handles) && pending == Before(ops, i).due.Keys
      invariant Logged(log, ops, i)
    {
      ghost var b := Before(ops, i);
      NextBefore(ops, i);
      match ops[i] {
        case Add(timeout) =>
          SameLog(log, ops, i);
          if timeout >= 0 {
            pending := pending + {|handles|};
          }
          handles := ApplyAdd(wheel, timeout, handles, b);
        case Del(id) =>
          SameLog(log, ops, i);
          if id !in pending {
            assert Step(b, Del(id)) == b;
          } else {
            ApplyDel(wheel, id, handles, b);
            pending := pending - {id};
          }
        case Tick =>
          var now := ApplyTick(wheel, handles, b);
          SameNames(now, DueNow(b));
          pending := pending - set id | id in now;
          LongerLog(log, ops, i, now);
          log := log + [now];
      }
      i := i + 1;
    }
  }

  lemma NothingLogged(ops: seq<Op>)
    ensures Logged([], ops, 0) && Before(ops, 0) == EMPTY
  {
  }

  lemma NextBefore(ops: seq<Op>, i: nat)
    requires i < |ops|
    ensures Before(ops, i + 1) == Step(Before(ops, i), ops[i])
  {
  }

  /** An operation that is not a tick, and one that is. */
  lemma SameLog(log: seq<seq<nat>>, ops: seq<Op>, i: nat)
    requires i < |ops| && Logged(log, ops, i) && !ops[i].Tick?
    ensures Logged(log, ops, i + 1)
  {
    hide FiredAt;
  }

  lemma LongerLog(log: seq<seq<nat>>, ops: seq<Op>, i: nat, now: seq<nat>)
    requires i < |ops| && Logged(log, ops, i) && ops[i].Tick? && multiset(now) == multiset(DueNow(Before(ops, i)))
    ensures Logged(log + [now], ops, i + 1)
  {
    forall id: nat ensures multiset(now)[id] == if FiresAt(ops, i, id) then 1 else 0 {
      hide FiresAt, DueNow;
      DueNowIff(ops, i, id);
    }
    assert FiredAt(now, ops, i);
    hide FiredAt;
    assert Ticks(ops, i + 1) == Ticks(ops, i) + 1;
    forall q: nat | q < i + 1 && ops[q].Tick?
      ensures Ticks(ops, q) < |log| + 1 && FiredAt((log + [now])[Ticks(ops, q)], ops, q)
    {
      if q < i { TicksGrow(ops, q, i); }
    }
  }

  lemma SameNames<T>(s: seq<T>, t: set<T>)
    requires multiset(s) == multiset(t)
    ensures (set x | x in s) == t
  {
    assert forall x :: x in s <==> x in multiset(s);
    assert forall x :: x in t <==> x in multiset(t);
  }
}
