/** The sorted list and the heap are observationally equal: both answer every sequence of
    operations like a bag of expiry times. */
module TimerEquivalence {
  import L = SortedTimerList
  import H = TimerHeap

  datatype Op = Add(expire: int) | Del(id: nat) | Tick(cur: int)

  /** The pending timers by number. */
  type Bag = map<nat, int>

  ghost function Expired(b: Bag, cur: int): Bag {
    map id | id in b && b[id] <= cur :: b[id]
  }

  ghost function Step(b: Bag, next: nat, op: Op): Bag {
    match op
    case Add(expire) => b[next := expire]
    case Del(id) => b - {id}
    case Tick(cur) => b - Expired(b, cur).Keys
  }

  /** `now` runs each callback of `due` once, in order of expiry. */
  ghost predicate Answers(now: seq<nat>, due: Bag) {
    && multiset(now) == multiset(due.Keys)
    && forall i, j :: 0 <= i < j < |now| && now[i] in due && now[j] in due ==> due[now[i]] <= due[now[j]]
  }

  // ----- what is to fire, told by the positions of the operations

  /** How many timers the first q operations add, and how many ticks they are. */
  function Added(ops: seq<Op>, q: nat): nat
    requires q <= |ops|
  {
    if q == 0 then 0 else Added(ops, q - 1) + if ops[q - 1].Add? then 1 else 0
  }

  function Ticks(ops: seq<Op>, q: nat): nat
    requires q <= |ops|
  {
    if q == 0 then 0 else Ticks(ops, q - 1) + if ops[q - 1].Tick? then 1 else 0
  }

  /** Operation p adds timer `id`, and up to operation q it is neither deleted nor reached by
      the time of a tick. */
  ghost predicate PendingSince(ops: seq<Op>, p: nat, q: nat, id: nat) {
    && p < q <= |ops| && ops[p].Add? && Added(ops, p) == id
    && forall k :: p < k < q ==> ops[k] != Del(id) && (ops[k].Tick? ==> ops[k].cur < ops[p].expire)
  }

  /** The tick at position q is the first after the addition of `id` that reaches its expiry,
      and no deletion of it comes before. */
  ghost predicate FiresAt(ops: seq<Op>, q: nat, id: nat) {
    q < |ops| && ops[q].Tick? && exists p: nat :: PendingSince(ops, p, q, id) && ops[p].expire <= ops[q].cur
  }

  /** A timer fires once at most, and not after a deletion. */
  lemma FiresOnce(ops: seq<Op>, q: nat, r: nat, id: nat)
    requires q < r && FiresAt(ops, r, id)
    ensures !FiresAt(ops, q, id)
    ensures forall p: nat, k :: PendingSince(ops, p, r, id) && p < k < r ==> ops[k] != Del(id)
  {
    if FiresAt(ops, q, id) {
      var p: nat :| PendingSince(ops, p, q, id) && ops[p].expire <= ops[q].cur;
      var o: nat :| PendingSince(ops, o, r, id) && ops[o].expire <= ops[r].cur;
      if p < o { AddedGrows(ops, p, o); }
      if o < p { AddedGrows(ops, o, p); }
      assert false;
    }
  }

  /** The pending timers before operation q. */
  ghost function Before(ops: seq<Op>, q: nat): Bag
    requires q <= |ops|
  {
    if q == 0 then map[] else Step(Before(ops, q - 1), Added(ops, q - 1), ops[q - 1])
  }

  /** A timer is pending from its addition to its deletion or the first tick that reaches it. */
  lemma {:induction false} PendingIff(ops: seq<Op>, q: nat, id: nat)
    requires q <= |ops|
    ensures id in Before(ops, q) <==> exists p: nat :: PendingSince(ops, p, q, id)
    ensures forall p: nat :: PendingSince(ops, p, q, id) ==> id in Before(ops, q) && Before(ops, q)[id] == ops[p].expire
  {
    if q > 0 {
      PendingIff(ops, q - 1, id);
      if id in Before(ops, q) {
        if ops[q - 1].Add? && id == Added(ops, q - 1) {
          assert PendingSince(ops, q - 1, q, id);
        } else {
          var p: nat :| PendingSince(ops, p, q - 1, id);
          assert PendingSince(ops, p, q, id);
        }
      }
      forall p: nat | PendingSince(ops, p, q, id)
        ensures id in Before(ops, q) && Before(ops, q)[id] == ops[p].expire
      {
        if p < q - 1 {
          assert PendingSince(ops, p, q - 1, id);
          AddedGrows(ops, p, q - 1);
        }
      }
    }
  }

  /** The number of an added timer is not given again. */
  lemma {:induction false} AddedGrows(ops: seq<Op>, p: nat, q: nat)
    requires p < q <= |ops| && ops[p].Add?
    ensures Added(ops, p) < Added(ops, q)
  {
    if p + 1 < q {
      AddedGrows(ops, p, q - 1);
    }
  }

  /** What the tick at position q finds expired. */
  ghost function DueAt(ops: seq<Op>, q: nat): Bag
    requires q < |ops| && ops[q].Tick?
  {
    Expired(Before(ops, q), ops[q].cur)
  }

  /** These are exactly the timers that fire there, with their expiries. */
  lemma DueAtIff(ops: seq<Op>, q: nat, id: nat)
    requires q < |ops| && ops[q].Tick?
    ensures id in DueAt(ops, q) <==> FiresAt(ops, q, id)
    ensures forall p: nat :: PendingSince(ops, p, q, id) && id in DueAt(ops, q) ==> DueAt(ops, q)[id] == ops[p].expire
  {
    hide PendingSince, Before;
    PendingIff(ops, q, id);
  }

  /** `now` runs the callbacks of exactly the timers that fire at position q, each once, in
      order of expiry. */
  ghost predicate FiredAt(now: seq<nat>, ops: seq<Op>, q: nat) {
    && (forall id: nat :: multiset(now)[id] == if FiresAt(ops, q, id) then 1 else 0)
    && forall i, j, p: nat, r: nat ::
         0 <= i < j < |now| && PendingSince(ops, p, q, now[i]) && PendingSince(ops, r, q, now[j]) ==>
         ops[p].expire <= ops[r].expire
  }

  /** The log has one entry for every tick of the first n operations, with what fires there. */
  ghost predicate Logged(log: seq<seq<nat>>, ops: seq<Op>, n: nat)
    requires n <= |ops|
  {
    && |log| == Ticks(ops, n)
    && forall q: nat :: q < n && ops[q].Tick? ==> Ticks(ops, q) < |log| && FiredAt(log[Ticks(ops, q)], ops, q)
  }

  lemma AnswersFire(now: seq<nat>, ops: seq<Op>, q: nat)
    requires q < |ops| && ops[q].Tick? && Answers(now, DueAt(ops, q))
    ensures FiredAt(now, ops, q)
  {
    hide PendingSince, FiresAt, DueAt;
    var due := DueAt(ops, q);
    AnswersNames(now, due);
    forall id: nat ensures multiset(now)[id] == if FiresAt(ops, q, id) then 1 else 0 {
      DueAtIff(ops, q, id);
      assert multiset(now)[id] == multiset(due.Keys)[id];
    }
    forall i, j, p: nat, r: nat
      | 0 <= i < j < |now| && PendingSince(ops, p, q, now[i]) && PendingSince(ops, r, q, now[j])
      ensures p < |ops| && r < |ops| && ops[p].Add? && ops[r].Add? && ops[p].expire <= ops[r].expire
    {
      assert now[i] in now && now[j] in now;
      DueAtIff(ops, q, now[i]);
      DueAtIff(ops, q, now[j]);
      PendingIsAdd(ops, p, q, now[i]);
      PendingIsAdd(ops, r, q, now[j]);
    }
  }

  lemma PendingIsAdd(ops: seq<Op>, p: nat, q: nat, id: nat)
    requires PendingSince(ops, p, q, id)
    ensures p < |ops| && ops[p].Add?
  {
  }

  lemma NothingLogged(ops: seq<Op>)
    ensures Logged([], ops, 0) && Before(ops, 0) == map[] && Added(ops, 0) == 0
  {
  }

  lemma NextBefore(ops: seq<Op>, i: nat)
    requires i < |ops|
    ensures Before(ops, i + 1) == Step(Before(ops, i), Added(ops, i), ops[i])
    ensures Added(ops, i + 1) == Added(ops, i) + if ops[i].Add? then 1 else 0
    ensures ops[i].Tick? ==> DueAt(ops, i) == Expired(Before(ops, i), ops[i].cur)
  {
  }

  lemma {:induction false} TicksGrow(ops: seq<Op>, q: nat, n: nat)
    requires q < n <= |ops| && ops[q].Tick?
    ensures Ticks(ops, q) < Ticks(ops, n)
  {
    if q + 1 < n {
      TicksGrow(ops, q, n - 1);
    }
  }

  /** An operation that is not a tick, and one that is. */
  lemma SameLog(log: seq<seq<nat>>, ops: seq<Op>, i: nat)
    requires i < |ops| && Logged(log, ops, i) && !ops[i].Tick?
    ensures Logged(log, ops, i + 1)
  {
    hide FiredAt;
  }

  lemma LongerLog(log: seq<seq<nat>>, ops: seq<Op>, i: nat, now: seq<nat>)
    requires i < |ops| && Logged(log, ops, i) && ops[i].Tick? && Answers(now, DueAt(ops, i))
    ensures Logged(log + [now], ops, i + 1)
  {
    AnswersFire(now, ops, i);
    hide FiredAt, Answers;
    assert Ticks(ops, i + 1) == Ticks(ops, i) + 1;
    forall q: nat | q < i + 1 && ops[q].Tick?
      ensures Ticks(ops, q) < |log| + 1 && FiredAt((log + [now])[Ticks(ops, q)], ops, q)
    {
      if q < i { TicksGrow(ops, q, i); }
    }
  }

  lemma OnceEach(now: seq<nat>, ids: set<nat>)
    requires forall i, j :: 0 <= i < j < |now| ==> now[i] != now[j]
    requires forall id :: id in ids <==> id in now
    ensures multiset(now) == multiset(ids)
  {
    forall id: nat ensures multiset(now)[id] == multiset(ids)[id] {
      CountDistinct(now, id);
    }
  }

  lemma {:induction false} CountDistinct(s: seq<nat>, x: nat)
    requires forall i, j :: 0 <= i < j < |s| ==> s[i] != s[j]
    ensures multiset(s)[x] == if x in s then 1 else 0
  {
    if s != [] {
      var last := |s| - 1;
      assert s == s[..last] + [s[last]];
      CountDistinct(s[..last], x);
    }
  }

  // ----- the list

  ghost predicate ListTracks(lst: L.SortTimerLst, b: Bag, handles: seq<L.UtilTimer>)
    reads lst, lst.list, handles
  {
    && lst.Valid()
    && (forall id :: 0 <= id < |handles| ==> handles[id].userData == id)
    && (forall t :: t in lst.list ==> t.userData < |handles| && handles[t.userData] == t)
    && (forall id :: id in b <==> 0 <= id < |handles| && handles[id] in lst.list)
    && (forall id :: id in b ==> handles[id].expire == b[id])
  }

  /** The expired prefix of the list is what a tick is to fire. */
  lemma ListAnswers(lst: L.SortTimerLst, cur: int, handles: seq<L.UtilTimer>, b: Bag)
    requires ListTracks(lst, b, handles)
    ensures var k := L.Rank(L.Keys(lst.list), cur);
            && Answers(L.UserData(lst.list)[..k], Expired(b, cur))
            && forall t :: t in lst.list ==> (t in lst.list[k..] <==> t.expire > cur)
  {
    hide L.Linked, L.Rank, L.Keys, L.UserData, Answers;
    var l := lst.list;
    var ids := L.UserData(l);
    ListDistinct(lst);
    L.KeysAt(l);
    L.UserDataAt(l);
    ExpiredPrefix(l, cur);
    forall id | id in b ensures id in ids {
      var i :| 0 <= i < |l| && l[i] == handles[id];
      assert ids[i] == id;
    }
    AnswersPrefix(ids, L.Keys(l), b, cur);
  }

  lemma AnswersPrefix(ids: seq<nat>, keys: seq<int>, b: Bag, cur: int)
    requires |ids| == |keys| && L.Sorted(keys)
    requires forall i, j :: 0 <= i < j < |ids| ==> ids[i] != ids[j]
    requires forall i :: 0 <= i < |ids| ==> ids[i] in b && b[ids[i]] == keys[i]
    requires forall id :: id in b ==> id in ids
    ensures Answers(ids[..L.Rank(keys, cur)], Expired(b, cur))
  {
    hide L.Rank;
    var k := L.Rank(keys, cur);
    var now := ids[..k];
    forall id: nat ensures id in Expired(b, cur).Keys <==> id in now {
      if id in b {
        var i :| 0 <= i < |ids| && ids[i] == id;
        if i < k { assert now[i] == id; }
      }
    }
    OnceEach(now, Expired(b, cur).Keys);
  }

  lemma ExpiredPrefix(l: seq<L.UtilTimer>, cur: int)
    requires L.Distinct(l) && L.Sorted(L.Keys(l))
    ensures var k := L.Rank(L.Keys(l), cur);
            k <= |l| && forall t :: t in l ==> (t in l[k..] <==> t.expire > cur)
  {
    hide L.Rank, L.Keys;
    L.KeysAt(l);
    var k := L.Rank(L.Keys(l), cur);
    forall t | t in l ensures t in l[k..] <==> t.expire > cur {
      var i :| 0 <= i < |l| && l[i] == t;
      assert L.Keys(l)[i] == t.expire;
      if i >= k { assert l[k..][i - k] == t; }
    }
  }

  lemma ListDistinct(lst: L.SortTimerLst)
    requires lst.Valid()
    ensures L.Distinct(lst.list)
  {
  }

  method ListTick(lst: L.SortTimerLst, cur: int, ghost handles: seq<L.UtilTimer>, ghost b: Bag) returns (now: seq<nat>)
    requires ListTracks(lst, b, handles)
    modifies lst`head, lst`list, lst`fired, lst.list`prev
    ensures ListTracks(lst, Step(b, |handles|, Tick(cur)), handles)
    ensures forall t :: t in lst.list ==> t in old(lst.list)
    ensures Answers(now, Expired(b, cur))
  {
    hide L.SortTimerLst.Valid, L.Rank, L.Keys, L.UserData, Answers;
    ListAnswers(lst, cur, handles, b);
    var before := |lst.fired|;
    lst.Tick(cur);
    now := lst.fired[before..];
  }

  method ListAdd(lst: L.SortTimerLst, expire: int, handles0: seq<L.UtilTimer>, ghost b: Bag)
    returns (handles: seq<L.UtilTimer>)
    requires ListTracks(lst, b, handles0)
    modifies lst, lst.list`next, lst.list`prev
    ensures ListTracks(lst, Step(b, |handles0|, Add(expire)), handles) && |handles| == |handles0| + 1
    ensures forall t :: t in lst.list ==> t in old(lst.list) || fresh(t)
  {
    hide L.SortTimerLst.Valid, L.Rank, L.Keys;
    var timer := new L.UtilTimer(expire, |handles0|);
    handles := handles0 + [timer];
    ghost var l, k := lst.list, L.Rank(L.Keys(lst.list), expire);
    lst.AddTimer(timer);
    assert forall t :: t in lst.list <==> t in l || t == timer by {
      assert lst.list == l[..k] + [timer] + l[k..] && l == l[..k] + l[k..];
    }
  }

  method ListDel(lst: L.SortTimerLst, id: nat, handles: seq<L.UtilTimer>, ghost b: Bag)
    requires ListTracks(lst, b, handles) && id in b
    modifies lst, lst.list`next, lst.list`prev
    ensures ListTracks(lst, Step(b, |handles|, Del(id)), handles)
    ensures forall t :: t in lst.list ==> t in old(lst.list)
  {
    hide L.SortTimerLst.Valid, L.Without;
    ListDistinct(lst);
    ghost var l := lst.list;
    lst.DelTimer(handles[id]);
    ghost var i :| 0 <= i < |l| && l[i] == handles[id] && lst.list == L.Without(l, i);
    MembersWithout(l, i);
  }

  lemma MembersWithout<T>(s: seq<T>, i: nat)
    requires i < |s| && forall j, k :: 0 <= j < k < |s| ==> s[j] != s[k]
    ensures forall t :: t in L.Without(s, i) <==> t in s && t != s[i]
  {
    L.WithoutAt(s, i);
    forall t | t in s && t != s[i] ensures t in L.Without(s, i) {
      var j :| 0 <= j < |s| && s[j] == t;
      assert L.Without(s, i)[if j < i then j else j - 1] == t;
    }
  }

  /** Runs any sequence of operations on the list. */
  method DriveList(ops: seq<Op>) returns (log: seq<seq<nat>>)
    ensures Logged(log, ops, |ops|)
  {
    hide ListTracks, Answers, Logged, Before, Added, DueAt, L.SortTimerLst.Valid;
    var lst := new L.SortTimerLst();
    var handles: seq<L.UtilTimer>, pending: set<nat>, i := [], {}, 0;
    log := [];
    ListTracksNothing(lst);
    NothingLogged(ops);
    while i < |ops|
      invariant i <= |ops| && fresh(lst)
      invariant forall k :: 0 <= k < |lst.list| ==> fresh(lst.list[k])
      invariant ListTracks(lst, Before(ops, i), handles) && pending == Before(ops, i).Keys
      invariant |handles| == Added(ops, i) && Logged(log, ops, i)
    {
      ghost var b, l := Before(ops, i), lst.list;
      NextBefore(ops, i);
      assert forall t :: t in l ==> fresh(t);
      match ops[i] {
        case Add(expire) =>
          SameLog(log, ops, i);
          pending := pending + {|handles|};
          handles := ListAdd(lst, expire, handles, b);
        case Del(id) =>
          SameLog(log, ops, i);
          if id in pending {
            ListDel(lst, id, handles, b);
            pending := pending - {id};
          } else {
            assert Step(b, |handles|, ops[i]) == b;
          }
        case Tick(cur) =>
          var now := ListTick(lst, cur, handles, b);
          AnswersNames(now, Expired(b, cur));
          pending := pending - set id | id in now;
          LongerLog(log, ops, i, now);
          log := log + [now];
      }
      assert forall k :: 0 <= k < |lst.list| ==> lst.list[k] in l || fresh(lst.list[k]);
      i := i + 1;
    }
  }

  lemma ListTracksNothing(lst: L.SortTimerLst)
    requires lst.Valid() && lst.list == []
    ensures ListTracks(lst, map[], [])
  {
  }

  lemma AnswersNames(now: seq<nat>, due: Bag)
    requires Answers(now, due)
    ensures forall id: nat :: id in now <==> id in due
  {
    forall id: nat ensures id in now <==> id in due {
      assert id in now <==> id in multiset(now);
      assert id in due <==> id in multiset(due.Keys);
    }
  }

  // ----- the heap

  /** Cancelled timers stay in the heap without a callback. */
  ghost predicate HeapTracks(heap: H.TimeHeap, b: Bag, handles: seq<H.HeapTimer>)
    reads heap, heap.array_, handles
  {
    && heap.Valid() && heap.capacity > 0
    && (forall t :: t in heap.items ==> multiset(heap.items)[t] == 1)
    && (forall id :: 0 <= id < |handles| ==> handles[id].userData == id)
    && (forall t :: t in heap.items ==> t.userData < |handles| && handles[t.userData] == t)
    && (forall id :: id in b <==> 0 <= id < |handles| && handles[id] in heap.items && handles[id].hasCallback)
    && (forall id :: id in b ==> handles[id].expire == b[id])
  }

  method HeapAdd(heap: H.TimeHeap, expire: int, handles0: seq<H.HeapTimer>, ghost b: Bag)
    returns (handles: seq<H.HeapTimer>)
    requires HeapTracks(heap, b, handles0)
    modifies heap, heap.array_
    ensures HeapTracks(heap, Step(b, |handles0|, Add(expire)), handles) && |handles| == |handles0| + 1
    ensures handles0 <= handles && fresh(handles[|handles0|])
    ensures heap.array_ == old(heap.array_) || fresh(heap.array_)
  {
    hide H.TimeHeap.Valid;
    var timer := new H.HeapTimer(expire, |handles0|);
    handles := handles0 + [timer];
    ghost var s := heap.items;
    heap.AddTimer(timer);
    assert forall t :: t in heap.items <==> t in multiset(s) + multiset{timer};
  }

  method HeapDel(heap: H.TimeHeap, id: nat, handles: seq<H.HeapTimer>, ghost b: Bag)
    requires HeapTracks(heap, b, handles) && id in b
    modifies {handles[id]}`hasCallback
    ensures HeapTracks(heap, Step(b, |handles|, Del(id)), handles)
  {
    hide H.TimeHeap.Valid;
    heap.DelTimer(handles[id]);
  }

  /** The callbacks of timers with different numbers: one each, in the order given. */
  lemma {:induction false} CallbackNames(gone: seq<H.HeapTimer>, due: Bag)
    requires H.InOrder(gone)
    requires forall i, j :: 0 <= i < j < |gone| ==> gone[i].userData != gone[j].userData
    requires forall t :: t in gone && t.hasCallback ==> t.userData in due && due[t.userData] == t.expire
    ensures var now := H.Callbacks(gone);
            && (forall id :: id in now ==> id in due && exists t :: t in gone && t.hasCallback && t.userData == id)
            && (forall t :: t in gone && t.hasCallback ==> t.userData in now)
            && (forall i, j :: 0 <= i < j < |now| ==> now[i] != now[j] && due[now[i]] <= due[now[j]])
  {
    if gone != [] {
      var n := |gone| - 1;
      var before, t := gone[..n], gone[n];
      CallbackNames(before, due);
      var earlier := H.Callbacks(before);
      assert gone == before + [t];
      forall i | 0 <= i < |earlier| ensures earlier[i] != t.userData && due[earlier[i]] <= t.expire {
        assert earlier[i] in earlier;
        var u :| u in before && u.hasCallback && u.userData == earlier[i];
      }
    }
  }

  lemma GoneOrKept(s: seq<H.HeapTimer>, gone: seq<H.HeapTimer>, kept: seq<H.HeapTimer>)
    requires forall t :: t in s ==> multiset(s)[t] == 1
    requires multiset(gone) + multiset(kept) == multiset(s)
    ensures forall t :: t in s <==> t in gone || t in kept
    ensures forall t :: multiset(gone)[t] + multiset(kept)[t] <= 1
    ensures forall t :: !(t in gone && t in kept)
    ensures forall i, j :: 0 <= i < j < |gone| ==> gone[i] != gone[j]
  {
    forall t ensures t in s <==> t in gone || t in kept {
      assert t in s <==> t in multiset(gone) + multiset(kept);
    }
    forall t ensures multiset(gone)[t] + multiset(kept)[t] <= 1 && !(t in gone && t in kept) {
      assert (multiset(gone) + multiset(kept))[t] <= 1;
      assert t in gone ==> multiset(gone)[t] > 0;
      assert t in kept ==> multiset(kept)[t] > 0;
    }
    forall i, j | 0 <= i < j < |gone| ensures gone[i] != gone[j] {
      assert gone == gone[..j] + [gone[j]] + gone[j + 1..];
      assert gone[..j][i] == gone[i];
      assert multiset(gone)[gone[j]] == multiset(gone[..j])[gone[j]] + 1 + multiset(gone[j + 1..])[gone[j]];
    }
  }

  method HeapTick(heap: H.TimeHeap, cur: int, ghost handles: seq<H.HeapTimer>, ghost b: Bag) returns (now: seq<nat>)
    requires HeapTracks(heap, b, handles)
    modifies heap`curSize, heap`items, heap`fired, heap.array_
    ensures HeapTracks(heap, Step(b, |handles|, Tick(cur)), handles)
    ensures Answers(now, Expired(b, cur))
  {
    hide H.TimeHeap.Valid, H.Callbacks, H.InOrder;
    var before := |heap.fired|;
    ghost var s := heap.items;
    ghost var gone := heap.Tick(cur);
    now := heap.fired[before..];
    GoneOrKept(s, gone, heap.items);
    CallbackNames(gone, Expired(b, cur));
    OnceEach(now, Expired(b, cur).Keys);
  }

  /** Runs any sequence of operations on the heap. */
  method DriveHeap(ops: seq<Op>, capacity: nat) returns (log: seq<seq<nat>>)
    requires capacity > 0
    ensures Logged(log, ops, |ops|)
  {
    hide HeapTracks, Answers, Logged, Before, Added, DueAt, H.TimeHeap.Valid;
    var heap := new H.TimeHeap(capacity);
    var handles: seq<H.HeapTimer>, pending: set<nat>, i := [], {}, 0;
    log := [];
    HeapTracksNothing(heap);
    NothingLogged(ops);
    while i < |ops|
      invariant i <= |ops| && fresh(heap) && fresh(heap.array_)
      invariant forall id :: 0 <= id < |handles| ==> fresh(handles[id])
      invariant HeapTracks(heap, Before(ops, i), handles) && pending == Before(ops, i).Keys
      invariant forall id :: id in pending ==> id < |handles|
      invariant |handles| == Added(ops, i) && Logged(log, ops, i)
    {
      ghost var b := Before(ops, i);
      NextBefore(ops, i);
      match ops[i] {
        case Add(expire) =>
          SameLog(log, ops, i);
          pending := pending + {|handles|};
          handles := HeapAdd(heap, expire, handles, b);
        case Del(id) =>
          SameLog(log, ops, i);
          if id in pending {
            HeapDel(heap, id, handles, b);
            pending := pending - {id};
          } else {
            assert Step(b, |handles|, ops[i]) == b;
          }
        case Tick(cur) =>
          var now := HeapTick(heap, cur, handles, b);
          AnswersNames(now, Expired(b, cur));
          pending := pending - set id | id in now;
          LongerLog(log, ops, i, now);
          log := log + [now];
      }
      i := i + 1;
    }
  }

  lemma HeapTracksNothing(heap: H.TimeHeap)
    requires heap.Valid() && heap.capacity > 0 && heap.items == []
    ensures HeapTracks(heap, map[], [])
  {
  }

  /** For every sequence of operations, the k-th tick of the list and that of the heap run the
      same callbacks, both in order of expiry: once each those timers that this tick is the
      first to reach after their addition, unless they were deleted before. */
  method RunBoth(ops: seq<Op>, capacity: nat) returns (fromList: seq<seq<nat>>, fromHeap: seq<seq<nat>>)
    requires capacity > 0
    ensures |fromList| == |fromHeap| == Ticks(ops, |ops|)
    ensures forall q: nat :: q < |ops| && ops[q].Tick? ==>
              && Ticks(ops, q) < |fromList|
              && multiset(fromList[Ticks(ops, q)]) == multiset(fromHeap[Ticks(ops, q)])
              && FiredAt(fromList[Ticks(ops, q)], ops, q) && FiredAt(fromHeap[Ticks(ops, q)], ops, q)
  {
    hide FiredAt;
    fromList := DriveList(ops);
    fromHeap := DriveHeap(ops, capacity);
    forall q: nat | q < |ops| && ops[q].Tick?
      ensures Ticks(ops, q) < |fromList| && multiset(fromList[Ticks(ops, q)]) == multiset(fromHeap[Ticks(ops, q)])
    {
      SameCallbacks(fromList[Ticks(ops, q)], fromHeap[Ticks(ops, q)], ops, q);
    }
  }

  lemma SameCallbacks(now: seq<nat>, other: seq<nat>, ops: seq<Op>, q: nat)
    requires FiredAt(now, ops, q) && FiredAt(other, ops, q)
    ensures multiset(now) == multiset(other)
  {
    hide FiresAt;
  }
}
