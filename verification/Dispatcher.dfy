/** The parent of the process pool: it hands every new connection to the next live child in
    turn, and notes the children that have died. */
module Dispatcher {
  import opened Rings
  import opened Wrappers

  datatype Event =
    | Connection
    | Reaped(pids: seq<int>) // what waitpid answers until it has no more

  const DEAD: int := -1

  predicate Alive(pids: seq<int>, i: nat)
    requires i < |pids|
  {
    pids[i] != DEAD
  }

  predicate AnyAlive(pids: seq<int>) {
    exists i :: 0 <= i < |pids| && pids[i] != DEAD
  }

  /** The children left when the processes `dead` have ended. */
  function Bury(pids: seq<int>, dead: seq<int>): (left: seq<int>)
    ensures |left| == |pids|
  {
    seq(|pids|, i requires 0 <= i < |pids| => if pids[i] in dead then DEAD else pids[i])
  }

  // ----- turns: the counter without the wrap-around

  /** The turn of the next live child, looking at the turns p + k, .., p + n - 1. */
  function NextTurnFrom(pids: seq<int>, p: nat, k: nat): (turn: Option<nat>)
    requires pids != [] && k <= |pids|
    ensures turn.Some? ==> p + k <= turn.value < p + |pids| && Alive(pids, Slot(turn.value, |pids|))
    ensures forall q :: p + k <= q < (if turn.Some? then turn.value else p + |pids|) ==> !Alive(pids, Slot(q, |pids|))
    decreases |pids| - k
  {
    if k == |pids| then None
    else if Alive(pids, Slot(p + k, |pids|)) then Some(p + k)
    else NextTurnFrom(pids, p, k + 1)
  }

  function NextAlive(pids: seq<int>, p: nat): (turn: Option<nat>)
    requires pids != []
    ensures turn.Some? ==> p <= turn.value < p + |pids| && Alive(pids, Slot(turn.value, |pids|))
    ensures forall q :: p <= q < (if turn.Some? then turn.value else p + |pids|) ==> !Alive(pids, Slot(q, |pids|))
  {
    NextTurnFrom(pids, p, 0)
  }

  /** There is no turn exactly when all children are dead. */
  lemma NextAliveIff(pids: seq<int>, p: nat)
    requires pids != []
    ensures NextAlive(pids, p).Some? <==> AnyAlive(pids)
  {
    if NextAlive(pids, p).None? {
      forall i | 0 <= i < |pids| ensures pids[i] == DEAD {
        var q := SlotReached(p, |pids|, i);
        assert !Alive(pids, Slot(q, |pids|));
      }
    } else {
      assert pids[Slot(NextAlive(pids, p).value, |pids|)] != DEAD;
    }
  }

  /** The turns that a run serves, when the counter stands at turn p. */
  function Turns(pids: seq<int>, p: nat, events: seq<Event>): (turns: seq<nat>)
    requires pids != []
    ensures |turns| <= |events|
    decreases |events|
  {
    if events == [] then []
    else match events[0]
      case Connection =>
        var q := NextAlive(pids, p);
        if q.None? then [] else [q.value] + Turns(pids, q.value + 1, events[1..])
      case Reaped(dead) =>
        Turns(Bury(pids, dead), p, events[1..])
  }

  /** The turn at which the counter stands at the end, and the children left then. */
  function TurnAfter(pids: seq<int>, p: nat, events: seq<Event>): nat
    requires pids != []
    decreases |events|
  {
    if events == [] then p
    else match events[0]
      case Connection =>
        var q := NextAlive(pids, p);
        if q.None? then p else TurnAfter(pids, q.value + 1, events[1..])
      case Reaped(dead) =>
        TurnAfter(Bury(pids, dead), p, events[1..])
  }

  function LeftAfter(pids: seq<int>, events: seq<Event>): (left: seq<int>)
    ensures |left| == |pids|
    decreases |events|
  {
    if events == [] then pids
    else match events[0]
      case Connection => LeftAfter(pids, events[1..])
      case Reaped(dead) => LeftAfter(Bury(pids, dead), events[1..])
  }

  /** waitpid has answered this process number. */
  ghost predicate ReapedIn(events: seq<Event>, pid: int) {
    exists k :: 0 <= k < |events| && events[k].Reaped? && pid in events[k].pids
  }

  lemma ReapedNext(events: seq<Event>, pid: int)
    requires events != []
    ensures ReapedIn(events, pid) <==> (events[0].Reaped? && pid in events[0].pids) || ReapedIn(events[1..], pid)
  {
    if ReapedIn(events[1..], pid) {
      var k :| 0 <= k < |events| - 1 && events[1..][k].Reaped? && pid in events[1..][k].pids;
      assert events[k + 1] == events[1..][k];
    }
    if ReapedIn(events, pid) {
      var k :| 0 <= k < |events| && events[k].Reaped? && pid in events[k].pids;
      assert k > 0 ==> events[1..][k - 1] == events[k];
    }
  }

  /** A child lives as long as its process number is not reaped. */
  lemma {:induction false} AliveIff(pids: seq<int>, events: seq<Event>, i: nat)
    requires i < |pids|
    ensures LeftAfter(pids, events)[i] == if ReapedIn(events, pids[i]) then DEAD else pids[i]
    ensures Alive(LeftAfter(pids, events), i) <==> Alive(pids, i) && !ReapedIn(events, pids[i])
    decreases |events|
  {
    if events != [] {
      hide ReapedIn;
      ReapedNext(events, pids[i]);
      match events[0]
      case Connection => AliveIff(pids, events[1..], i);
      case Reaped(dead) => AliveIff(Bury(pids, dead), events[1..], i);
    } else {
      assert !ReapedIn(events, pids[i]);
    }
  }

  /** Nobody comes back. */
  lemma {:induction false} DeadStayDead(pids: seq<int>, p: nat, events: seq<Event>, i: nat)
    requires i < |pids| && !Alive(pids, i)
    ensures !Alive(LeftAfter(pids, events), i)
    ensures forall k :: 0 <= k < |Turns(pids, p, events)| ==> Slot(Turns(pids, p, events)[k], |pids|) != i
    decreases |events|
  {
    if events != [] {
      match events[0]
      case Connection =>
        var q := NextAlive(pids, p);
        DeadStayDead(pids, if q.None? then p else q.value + 1, events[1..], i);
      case Reaped(dead) =>
        DeadStayDead(Bury(pids, dead), p, events[1..], i);
    }
  }

  /** The turns served go up, from the first to before the last position of the counter. */
  lemma {:induction false} TurnsIncrease(pids: seq<int>, p: nat, events: seq<Event>)
    requires pids != []
    ensures p <= TurnAfter(pids, p, events)
    ensures forall k :: 0 <= k < |Turns(pids, p, events)| ==>
              p <= Turns(pids, p, events)[k] < TurnAfter(pids, p, events)
    ensures forall j, k :: 0 <= j < k < |Turns(pids, p, events)| ==>
              Turns(pids, p, events)[j] < Turns(pids, p, events)[k]
    decreases |events|
  {
    if events != [] {
      match events[0]
      case Connection =>
        var q := NextAlive(pids, p);
        if q.Some? {
          TurnsIncrease(pids, q.value + 1, events[1..]);
        }
      case Reaped(dead) =>
        TurnsIncrease(Bury(pids, dead), p, events[1..]);
    }
  }

  /** A turn that has passed was served, or its child is dead and never served again. */
  lemma {:induction false} SkippedMeansDead(pids: seq<int>, p: nat, events: seq<Event>, q: nat)
    requires pids != [] && p <= q < TurnAfter(pids, p, events)
    requires q !in Turns(pids, p, events)
    ensures !Alive(LeftAfter(pids, events), Slot(q, |pids|))
    ensures NotServedAfter(Turns(pids, p, events), q, |pids|)
    decreases |events|
  {
    hide Slot, Alive, Bury;
    match events[0]
    case Connection =>
      var first := NextAlive(pids, p).value;
      assert Turns(pids, p, events) == [first] + Turns(pids, first + 1, events[1..]);
      if q < first {
        DeadStayDead(pids, first + 1, events[1..], Slot(q, |pids|));
      } else {
        SkippedMeansDead(pids, first + 1, events[1..], q);
      }
    case Reaped(dead) =>
      SkippedMeansDead(Bury(pids, dead), p, events[1..], q);
  }

  /** No turn after q is one of the child of q. */
  ghost predicate NotServedAfter(turns: seq<nat>, q: nat, n: nat)
    requires n > 0
  {
    forall k :: 0 <= k < |turns| && turns[k] > q ==> Slot(turns[k], n) != Slot(q, n)
  }

  /** A child that lives to the end of a run waits for no more connections than there are
      children. */
  lemma BoundedWait(pids: seq<int>, p: nat, events: seq<Event>, i: nat)
    requires i < |pids| && Alive(LeftAfter(pids, events), i)
    requires |Turns(pids, p, events)| >= |pids|
    ensures exists k :: 0 <= k < |pids| && Slot(Turns(pids, p, events)[k], |pids|) == i
  {
    var turns, n := Turns(pids, p, events), |pids|;
    TurnsIncrease(pids, p, events);
    Spread(turns, n - 1);
    var q := SlotReached(p, n, i);
    if q !in turns {
      SkippedMeansDead(pids, p, events, q);
      assert false;
    }
    var k :| 0 <= k < |turns| && turns[k] == q;
    Spread(turns, k);
  }

  /** Increasing numbers are apart. */
  lemma {:induction false} Spread(turns: seq<nat>, k: nat)
    requires k < |turns|
    requires forall i, j :: 0 <= i < j < |turns| ==> turns[i] < turns[j]
    ensures turns[k] >= turns[0] + k
  {
    if k > 0 {
      Spread(turns, k - 1);
    }
  }

  /** A run can be cut anywhere: it goes on with the children and the turn left by then. */
  lemma {:induction false} TurnsSplit(pids: seq<int>, p: nat, events: seq<Event>, e: nat)
    requires pids != [] && e <= |events|
    ensures Turns(pids, p, events) == Turns(pids, p, events[..e])
              + Turns(LeftAfter(pids, events[..e]), TurnAfter(pids, p, events[..e]), events[e..])
    decreases |events|
  {
    hide NextAlive, Bury;
    if e > 0 {
      assert events[..e][1..] == events[1..][..e - 1] && events[1..][e - 1..] == events[e..];
      match events[0]
      case Connection =>
        var q := NextAlive(pids, p);
        if q.Some? {
          TurnsSplit(pids, q.value + 1, events[1..], e - 1);
        } else {
          NextAliveIff(pids, p);
          LeftAtEnd(pids, events[..e]);
          NobodyServed(pids, TurnAfter(pids, p, events[..e]), events[e..]);
        }
      case Reaped(dead) =>
        TurnsSplit(Bury(pids, dead), p, events[1..], e - 1);
    } else {
      assert events[e..] == events;
    }
  }

  /** The counter stands behind the last turn that was served. */
  lemma {:induction false} TurnAfterIs(pids: seq<int>, p: nat, events: seq<Event>)
    requires pids != []
    ensures var turns := Turns(pids, p, events);
            TurnAfter(pids, p, events) == if turns == [] then p else turns[|turns| - 1] + 1
    decreases |events|
  {
    hide NextAlive, Bury;
    if events != [] {
      match events[0]
      case Connection =>
        var q := NextAlive(pids, p);
        if q.Some? {
          TurnAfterIs(pids, q.value + 1, events[1..]);
        }
      case Reaped(dead) =>
        TurnAfterIs(Bury(pids, dead), p, events[1..]);
    }
  }

  /** The turn from which on a child is looked for after the turns served so far. */
  function TurnBehind(p: nat, turns: seq<nat>): nat {
    if turns == [] then p else turns[|turns| - 1] + 1
  }

  /** Every connection is served by the first child behind the one served last that was alive
      and has not been reaped before, if there is one; without one nothing is served any more. */
  lemma ConnectionServed(pids: seq<int>, p: nat, events: seq<Event>, e: nat)
    requires pids != [] && e < |events| && events[e].Connection?
    ensures var n, before := |pids|, Turns(pids, p, events[..e]);
            var turns, from := Turns(pids, p, events), TurnBehind(p, before);
            && before <= turns
            && (|turns| > |before| <==> exists i :: 0 <= i < n && Alive(pids, i) && !ReapedIn(events[..e], pids[i]))
            && (|turns| > |before| ==>
                  && from <= turns[|before|]
                  && Alive(pids, turns[|before|] % n) && !ReapedIn(events[..e], pids[turns[|before|] % n])
                  && forall q :: from <= q < turns[|before|] ==>
                       !Alive(pids, Slot(q, n)) || ReapedIn(events[..e], pids[Slot(q, n)]))
  {
    var left, from := LeftAfter(pids, events[..e]), TurnAfter(pids, p, events[..e]);
    TurnsSplit(pids, p, events, e);
    TurnAfterIs(pids, p, events[..e]);
    NextAliveIff(left, from);
    forall i: nat | i < |pids| ensures Alive(left, i) <==> Alive(pids, i) && !ReapedIn(events[..e], pids[i]) {
      AliveIff(pids, events[..e], i);
    }
    assert events[e..][0] == events[e];
    var q := NextAlive(left, from);
    hide Turns, NextAlive, LeftAfter, TurnAfter, Slot, ReapedIn;
    ServedNext(left, from, events[e..]);
    if q.Some? {
      SlotIs(q.value, |pids|);
    }
  }

  lemma ServedNext(pids: seq<int>, p: nat, events: seq<Event>)
    requires pids != [] && events != [] && events[0].Connection?
    ensures var q, turns := NextAlive(pids, p), Turns(pids, p, events);
            if q.None? then turns == [] else turns != [] && turns[0] == q.value
  {
  }

  lemma SlotIs(q: nat, n: nat)
    requires n > 0
    ensures Slot(q, n) == q % n
  {
  }

  /** A child is not served any more after it was reaped. */
  lemma ReapedNotServed(pids: seq<int>, p: nat, events: seq<Event>, e: nat, i: nat)
    requires i < |pids| && e <= |events| && ReapedIn(events[..e], pids[i])
    ensures forall k :: |Turns(pids, p, events[..e])| <= k < |Turns(pids, p, events)| ==>
              Turns(pids, p, events)[k] % |pids| != i
  {
    hide Turns, TurnAfter, Slot;
    var served, left, q := Turns(pids, p, events[..e]), LeftAfter(pids, events[..e]), TurnAfter(pids, p, events[..e]);
    TurnsSplit(pids, p, events, e);
    AliveIff(pids, events[..e], i);
    DeadStayDead(left, q, events[e..], i);
    forall k | |served| <= k < |Turns(pids, p, events)| ensures Turns(pids, p, events)[k] % |pids| != i {
      assert Turns(pids, p, events)[k] == Turns(left, q, events[e..])[k - |served|];
      SlotIs(Turns(pids, p, events)[k], |pids|);
    }
  }

  /** What a run has served is the start of what a longer run serves. */
  lemma TurnsOfPrefix(pids: seq<int>, p: nat, events: seq<Event>, e: nat)
    requires pids != [] && e <= |events|
    ensures Turns(pids, p, events[..e]) <= Turns(pids, p, events)
  {
    TurnsSplit(pids, p, events, e);
  }

  /** Between two connections in a row for one child, every child that stays alive up to the
      second of them gets exactly one. */
  lemma EqualShares(pids: seq<int>, p: nat, events: seq<Event>, e: nat, a: nat, b: nat, j: nat)
    requires pids != [] && e <= |events| && a < b < |Turns(pids, p, events[..e])|
    requires b < |Turns(pids, p, events)|
    requires var turns := Turns(pids, p, events);
             && Slot(turns[a], |pids|) == Slot(turns[b], |pids|) != j
             && forall k :: a < k < b ==> Slot(turns[k], |pids|) != Slot(turns[a], |pids|)
    requires j < |pids| && Alive(LeftAfter(pids, events[..e]), j)
    ensures exists k :: a < k < b && Slot(Turns(pids, p, events)[k], |pids|) == j
                        && forall l :: a < l < b && Slot(Turns(pids, p, events)[l], |pids|) == j ==> l == k
  {
    hide Slot, Alive, LeftAfter, Turns;
    TurnsOfPrefix(pids, p, events, e);
    EqualSharesToTheEnd(pids, p, events[..e], a, b, j);
  }

  lemma EqualSharesToTheEnd(pids: seq<int>, p: nat, events: seq<Event>, a: nat, b: nat, j: nat)
    requires pids != [] && a < b < |Turns(pids, p, events)|
    requires var turns := Turns(pids, p, events);
             && Slot(turns[a], |pids|) == Slot(turns[b], |pids|) != j
             && forall k :: a < k < b ==> Slot(turns[k], |pids|) != Slot(turns[a], |pids|)
    requires j < |pids| && Alive(LeftAfter(pids, events), j)
    ensures exists k :: a < k < b && Slot(Turns(pids, p, events)[k], |pids|) == j
                        && forall l :: a < l < b && Slot(Turns(pids, p, events)[l], |pids|) == j ==> l == k
  {
    var turns, n := Turns(pids, p, events), |pids|;
    TurnsIncrease(pids, p, events);
    OneTurnLater(pids, p, events, a, b);
    var q := SlotReached(turns[a], n, j);
    if q !in turns {
      SkippedMeansDead(pids, p, events, q);
      assert false;
    }
    var k :| 0 <= k < |turns| && turns[k] == q;
    OrderReflected(turns, a, k);
    OrderReflected(turns, k, b);
    forall l | a < l < b && Slot(turns[l], n) == j ensures l == k {
      if l < k {
        SlotsDiffer(turns[l], turns[k], n);
      } else if k < l {
        SlotsDiffer(turns[k], turns[l], n);
      }
    }
  }

  lemma OneTurnLater(pids: seq<int>, p: nat, events: seq<Event>, a: nat, b: nat)
    requires pids != [] && a < b < |Turns(pids, p, events)|
    requires var turns := Turns(pids, p, events);
             && Slot(turns[a], |pids|) == Slot(turns[b], |pids|)
             && forall k :: a < k < b ==> Slot(turns[k], |pids|) != Slot(turns[a], |pids|)
    ensures Turns(pids, p, events)[b] == Turns(pids, p, events)[a] + |pids|
  {
    var turns, n := Turns(pids, p, events), |pids|;
    TurnsIncrease(pids, p, events);
    var q := turns[a] + n;
    SlotNextTurn(turns[a], n);
    if turns[b] < q {
      SlotsDiffer(turns[a], turns[b], n);
    } else if turns[b] > q {
      if q !in turns {
        SkippedMeansDead(pids, p, events, q);
      }
      assert false;
    }
  }

  lemma OrderReflected(turns: seq<nat>, j: nat, k: nat)
    requires forall i, j :: 0 <= i < j < |turns| ==> turns[i] < turns[j]
    requires j < |turns| && k < |turns| && turns[j] < turns[k]
    ensures j < k
  {
  }

  /** Going round from the place of turn p comes back to it after n steps, not before. */
  lemma BackAtStart(p: nat, k: nat, n: nat)
    requires k < n
    ensures (Slot(p + k, n) + 1) % n == Slot(p + k + 1, n)
    ensures Slot(p + k + 1, n) == Slot(p, n) <==> k + 1 == n
  {
    SlotAfter(p + k, n);
    if k + 1 < n {
      SlotsDiffer(p, p + k + 1, n);
    } else {
      SlotNextTurn(p, n);
    }
  }

  /** The children to which the turns belong. */
  function Children(turns: seq<nat>, n: nat): seq<nat>
    requires n > 0
  {
    seq(|turns|, k requires 0 <= k < |turns| => Slot(turns[k], n))
  }

  class ProcessPool {
    const subProcess: array<int>
    var subProcessCounter: nat
    var stop: bool
    /** The counter without the wrap-around. */
    ghost var turn: nat

    ghost predicate Valid()
      reads this
    {
      subProcess.Length > 0 && subProcessCounter == Slot(turn, subProcess.Length)
    }

    constructor (pids: array<int>)
      requires pids.Length > 0
      ensures Valid() && subProcess == pids && turn == 0 && !stop
    {
      subProcess, subProcessCounter, stop := pids, 0, false;
      turn := 0;
      new;
      RemainderIs(0, pids.Length, 0, 0);
    }

    /** A new connection goes to the first live child, counting from the counter; with no
        live child the parent stops. */
    method Dispatch() returns (child: Option<nat>)
      requires Valid()
      modifies this
      ensures Valid()
      ensures match NextAlive(subProcess[..], old(turn))
              case None => child.None? && stop && turn == old(turn)
              case Some(q) => child == Some(Slot(q, subProcess.Length)) && stop == old(stop) && turn == q + 1
    {
      var i, k := FirstAlive();
      if subProcess[i] == DEAD {
        stop := true;
        return None;
      }
      hide Slot;
      SlotAfter(turn + k, subProcess.Length);
      subProcessCounter := (i + 1) % subProcess.Length;
      turn := turn + k + 1;
      return Some(i);
    }

    /** The do-while loop: it ends at the first live child, or back at the counter. */
    method FirstAlive() returns (i: nat, ghost k: nat)
      requires Valid()
      ensures i == Slot(turn + k, subProcess.Length) && k <= subProcess.Length
      ensures if Alive(subProcess[..], i) then NextAlive(subProcess[..], turn) == Some(turn + k)
              else NextAlive(subProcess[..], turn) == None
    {
      hide Slot, NextAlive, NoneFrom;
      var n := subProcess.Length;
      i, k := subProcessCounter, 0;
      NoneYet(subProcess[..], turn);
      while true
        invariant k < n && i == Slot(turn + k, n) && NoneFrom(subProcess[..], turn, k)
        decreases n - k
      {
        if subProcess[i] != DEAD {
          FirstIs(subProcess[..], turn, k);
          return;
        }
        BackAtStart(turn, k, n);
        NoneNext(subProcess[..], turn, k);
        i := (i + 1) % n;
        k := k + 1;
        if i == subProcessCounter {
          NoneIs(subProcess[..], turn);
          return;
        }
      }
    }

    /** SIGCHLD: every child among the processes that have ended is marked, and the parent
        stops when that was the last one. */
    method Reap(dead: seq<int>)
      requires Valid() && DEAD !in dead
      modifies this`stop, subProcess
      ensures subProcess[..] == Bury(old(subProcess[..]), dead)
      ensures forall i :: 0 <= i < subProcess.Length ==>
                subProcess[i] == if old(subProcess[i]) in dead then DEAD else old(subProcess[i])
      ensures stop <==> !AnyAlive(subProcess[..])
    {
      var d := 0;
      while d < |dead|
        invariant d <= |dead|
        invariant subProcess[..] == Bury(old(subProcess[..]), dead[..d])
      {
        MarkDead(dead[d]);
        BuryOne(old(subProcess[..]), dead[..d], dead[d]);
        assert dead[..d + 1] == dead[..d] + [dead[d]];
        d := d + 1;
      }
      assert dead[..d] == dead;
      BuryAt(old(subProcess[..]), dead);
      stop := true;
      var i := 0;
      while i < subProcess.Length
        invariant i <= subProcess.Length && subProcess[..] == Bury(old(subProcess[..]), dead)
        invariant stop <==> forall k :: 0 <= k < i ==> subProcess[k] == DEAD
      {
        if subProcess[i] != DEAD {
          stop := false;
        }
        i := i + 1;
      }
    }

    method MarkDead(pid: int)
      modifies subProcess
      ensures subProcess[..] == Bury(old(subProcess[..]), [pid])
    {
      var i := 0;
      while i < subProcess.Length
        invariant i <= subProcess.Length
        invariant forall k :: 0 <= k < i ==> subProcess[k] == if old(subProcess[k]) == pid then DEAD else old(subProcess[k])
        invariant forall k :: i <= k < subProcess.Length ==> subProcess[k] == old(subProcess[k])
      {
        if subProcess[i] == pid {
          subProcess[i] := DEAD;
        }
        i := i + 1;
      }
    }
  }

  /** Exactly the children among the ended processes are marked. */
  lemma BuryAt(pids: seq<int>, dead: seq<int>)
    ensures forall i :: 0 <= i < |pids| ==> Bury(pids, dead)[i] == if pids[i] in dead then DEAD else pids[i]
  {
  }

  /** The k turns from p on belong to dead children. */
  ghost predicate NoneFrom(pids: seq<int>, p: nat, k: nat)
    requires pids != []
  {
    forall q :: p <= q < p + k ==> !Alive(pids, Slot(q, |pids|))
  }

  lemma NoneYet(pids: seq<int>, p: nat)
    requires pids != []
    ensures NoneFrom(pids, p, 0)
  {
  }

  lemma NoneNext(pids: seq<int>, p: nat, k: nat)
    requires pids != [] && NoneFrom(pids, p, k) && pids[Slot(p + k, |pids|)] == DEAD
    ensures NoneFrom(pids, p, k + 1)
  {
    hide Slot;
  }

  lemma FirstIs(pids: seq<int>, p: nat, k: nat)
    requires pids != [] && k < |pids| && pids[Slot(p + k, |pids|)] != DEAD && NoneFrom(pids, p, k)
    ensures NextAlive(pids, p) == Some(p + k)
  {
    hide Slot;
    assert Alive(pids, Slot(p + k, |pids|));
  }

  lemma NoneIs(pids: seq<int>, p: nat)
    requires pids != [] && NoneFrom(pids, p, |pids|)
    ensures NextAlive(pids, p) == None
  {
    hide Slot;
  }

  lemma BuryOne(pids: seq<int>, dead: seq<int>, pid: int)
    requires pid != DEAD
    ensures Bury(Bury(pids, dead), [pid]) == Bury(pids, dead + [pid])
  {
  }

  /** Serves the events in order until the parent stops: the children that get a connection
      are those of the turns of the run. */
  method RunParent(pids: array<int>, events: seq<Event>) returns (served: seq<nat>, stopped: bool)
    requires pids.Length > 0
    requires forall k :: 0 <= k < |events| && events[k].Reaped? ==> DEAD !in events[k].pids
    modifies pids
    ensures served == Children(Turns(old(pids[..]), 0, events), pids.Length)
    ensures pids[..] == LeftAfter(old(pids[..]), events)
    ensures forall i :: 0 <= i < pids.Length ==>
              pids[i] == if ReapedIn(events, old(pids[i])) then DEAD else old(pids[i])
    ensures stopped <==> events != [] && !AnyAlive(pids[..])
  {
    hide Slot, NextAlive, Bury, AnyAlive, Turns, Children, LeftAfter;
    var pool := new ProcessPool(pids);
    served := [];
    ghost var n := pids.Length;
    ghost var turns := [];
    ghost var all := Turns(pids[..], 0, events);
    var i := 0;
    assert events[0..] == events;
    NoChildren(n);
    while i < |events| && !pool.stop
      invariant i <= |events| && pool.Valid() && fresh(pool) && pool.subProcess == pids
      invariant served == Children(turns, n)
      invariant all == turns + Turns(pids[..], pool.turn, events[i..])
      invariant pool.stop ==> Turns(pids[..], pool.turn, events[i..]) == []
      invariant pool.stop <==> i > 0 && !AnyAlive(pids[..])
      invariant LeftAfter(old(pids[..]), events) == LeftAfter(pids[..], events[i..])
    {
      NextLeft(pids[..], events, i);
      NextAliveIff(pids[..], pool.turn);
      NextTurns(pids[..], pool.turn, events, i);
      match events[i] {
        case Connection =>
          ghost var q := NextAlive(pids[..], pool.turn);
          var child := pool.Dispatch();
          if child.Some? {
            NextChild(all, turns, q.value, Turns(pids[..], q.value + 1, events[i + 1..]), n);
            served := served + [child.value];
            turns := turns + [q.value];
          }
        case Reaped(dead) =>
          pool.Reap(dead);
          if pool.stop {
            NobodyServed(pids[..], pool.turn, events[i + 1..]);
          }
      }
      i := i + 1;
    }
    stopped := pool.stop;
    if !stopped {
      NothingLeft(pids[..], pool.turn, events[i..]);
    }
    assert turns + [] == turns;
    LeftAtEnd(pids[..], events[i..]);
    forall i: nat | i < pids.Length
      ensures pids[i] == if ReapedIn(events, old(pids[i])) then DEAD else old(pids[i])
    {
      AliveIff(old(pids[..]), events, i);
    }
  }

  lemma NextLeft(pids: seq<int>, events: seq<Event>, i: nat)
    requires i < |events|
    ensures LeftAfter(pids, events[i..]) ==
              match events[i]
              case Connection => LeftAfter(pids, events[i + 1..])
              case Reaped(dead) => LeftAfter(Bury(pids, dead), events[i + 1..])
  {
    assert events[i..][1..] == events[i + 1..];
  }

  lemma {:induction false} LeftAtEnd(pids: seq<int>, events: seq<Event>)
    ensures events == [] || !AnyAlive(pids) ==> LeftAfter(pids, events) == pids
    decreases |events|
  {
    if events != [] && !AnyAlive(pids) {
      LeftAtEnd(pids, events[1..]);
      match events[0]
      case Connection =>
      case Reaped(dead) =>
        assert Bury(pids, dead) == pids;
    }
  }

  lemma NoChildren(n: nat)
    requires n > 0
    ensures Children([], n) == []
  {
  }

  lemma NextChild(all: seq<nat>, turns: seq<nat>, q: nat, rest: seq<nat>, n: nat)
    requires n > 0
    ensures all == turns + ([q] + rest) ==> all == turns + [q] + rest
    ensures Children(turns + [q], n) == Children(turns, n) + [Slot(q, n)]
  {
  }

  lemma NothingLeft(pids: seq<int>, p: nat, events: seq<Event>)
    requires pids != [] && events == []
    ensures Turns(pids, p, events) == []
  {
  }

  lemma NextTurns(pids: seq<int>, p: nat, events: seq<Event>, i: nat)
    requires pids != [] && i < |events|
    ensures var q := NextAlive(pids, p);
            Turns(pids, p, events[i..]) ==
              match events[i]
              case Connection =>
                if q.None? then [] else [q.value] + Turns(pids, q.value + 1, events[i + 1..])
              case Reaped(dead) => Turns(Bury(pids, dead), p, events[i + 1..])
    ensures NextAlive(pids, p).None? ==> Turns(pids, p, events[i + 1..]) == []
  {
    hide Slot, NextAlive, Bury;
    assert events[i..][1..] == events[i + 1..];
    NextAliveIff(pids, p);
    if NextAlive(pids, p).None? {
      NobodyServed(pids, p, events[i + 1..]);
    }
  }

  lemma {:induction false} NobodyServed(pids: seq<int>, p: nat, events: seq<Event>)
    requires pids != [] && !AnyAlive(pids)
    ensures Turns(pids, p, events) == []
    decreases |events|
  {
    if events != [] {
      NextAliveIff(pids, p);
      match events[0]
      case Connection =>
      case Reaped(dead) => NobodyServed(Bury(pids, dead), p, events[1..]);
    }
  }
}
