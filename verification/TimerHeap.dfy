/** The binary heap of timers of chapter 11, with its hole percolation, doubling resize and
    lazy deletion. */
module TimerHeap {
  import opened Wrappers

  class HeapTimer {
    const expire: int
    /** Whether cb_func is set. */
    var hasCallback: bool
    const userData: nat

    constructor (expire: int, userData: nat)
      ensures this.expire == expire && this.userData == userData && hasCallback
    {
      this.expire, this.userData, hasCallback := expire, userData, true;
    }
  }

  function Parent(i: nat): nat
    requires i > 0
  {
    (i - 1) / 2
  }

  /** Heap order at every node from `from` on; the whole is a heap when from is 0. */
  ghost predicate HeapFrom(s: seq<HeapTimer>, from: nat) {
    forall i :: 0 < i < |s| && from <= Parent(i) ==> s[Parent(i)].expire <= s[i].expire
  }

  /** Heap order from `from` on, except between the hole and its children; the parent of
      the hole is already in order with these. */
  ghost predicate HeapExcept(s: seq<HeapTimer>, from: nat, hole: nat) {
    && (forall i :: 0 < i < |s| && from <= Parent(i) != hole ==> s[Parent(i)].expire <= s[i].expire)
    && (forall i :: 0 < i < |s| && hole > from && Parent(i) == hole && from <= Parent(hole) ==>
          s[Parent(hole)].expire <= s[i].expire)
  }

  lemma {:induction false} RootIsFirst(s: seq<HeapTimer>, i: nat)
    requires HeapFrom(s, 0) && i < |s|
    ensures s[0].expire <= s[i].expire
  {
    if i > 0 { RootIsFirst(s, Parent(i)); }
  }

  function Swap<T>(s: seq<T>, i: nat, j: nat): (r: seq<T>)
    requires i < |s| && j < |s|
    ensures |r| == |s| && r[j] == s[i] && r[i] == s[j]
  {
    s[i := s[j]][j := s[i]]
  }

  lemma SwapKeepsItems<T>(s: seq<T>, i: nat, j: nat)
    requires i < |s| && j < |s|
    ensures multiset(Swap(s, i, j)) == multiset(s)
  {
  }

  /** Moving the hole down to its smaller child. */
  lemma SinkStep(s: seq<HeapTimer>, from: nat, hole: nat, child: nat)
    requires HeapExcept(s, from, hole) && from <= hole < child < |s| && Parent(child) == hole
    requires s[child].expire < s[hole].expire
    requires forall i :: 0 < i < |s| && Parent(i) == hole ==> s[child].expire <= s[i].expire
    ensures HeapExcept(Swap(s, hole, child), from, child)
  {
  }

  /** Moving the hole up. */
  ghost predicate HeapBelow(s: seq<HeapTimer>, hole: nat) {
    && (forall i :: 0 < i < |s| && i != hole ==> s[Parent(i)].expire <= s[i].expire)
    && (forall i :: 0 < i < |s| && hole > 0 && Parent(i) == hole ==> s[Parent(hole)].expire <= s[i].expire)
  }

  lemma RiseStep(s: seq<HeapTimer>, hole: nat)
    requires HeapBelow(s, hole) && 0 < hole < |s| && s[hole].expire < s[Parent(hole)].expire
    ensures HeapBelow(Swap(s, hole, Parent(hole)), Parent(hole))
  {
    var p := Parent(hole);
    var r := Swap(s, hole, p);
    assert forall i :: 0 <= i < |s| && i != hole && i != p ==> r[i] == s[i];
    forall i | 0 < i < |s| && i != p ensures r[Parent(i)].expire <= r[i].expire {
      RiseAt(s, hole, i);
    }
    forall i | 0 < i < |s| && p > 0 && Parent(i) == p ensures r[Parent(p)].expire <= r[i].expire {
      assert s[Parent(p)].expire <= s[p].expire;
      assert i != hole ==> s[p].expire <= s[i].expire;
    }
  }

  lemma RiseAt(s: seq<HeapTimer>, hole: nat, i: nat)
    requires HeapBelow(s, hole) && 0 < hole < |s| && s[hole].expire < s[Parent(hole)].expire
    requires 0 < i < |s| && i != Parent(hole)
    ensures var r := Swap(s, hole, Parent(hole)); r[Parent(i)].expire <= r[i].expire
  {
    var p := Parent(hole);
    if i != hole {
      assert s[Parent(i)].expire <= s[i].expire;
      if Parent(i) == hole {
        assert s[p].expire <= s[i].expire;
      }
    }
  }

  class TimeHeap {
    var array_: array<HeapTimer?>
    var capacity: nat
    var curSize: nat
    /** The user data of the callbacks run so far: what the callbacks are modelled by. */
    var fired: seq<nat>
    /** The timers in the heap, by array position. */
    ghost var items: seq<HeapTimer>

    /** The array holds the items; the hole, if there is one, is the only stale cell. */
    ghost predicate Stores(hole: int)
      reads this`array_, this`capacity, this`curSize, this`items, array_
    {
      && array_.Length == capacity && |items| == curSize <= capacity
      && forall i :: 0 <= i < curSize && i != hole ==> array_[i] == items[i]
    }

    ghost predicate Valid()
      reads this`array_, this`capacity, this`curSize, this`items, array_
    {
      Stores(-1) && HeapFrom(items, 0)
    }

    constructor (cap: nat)
      ensures Valid() && fresh(array_) && capacity == cap && items == [] && fired == []
    {
      capacity, curSize := cap, 0;
      array_ := new HeapTimer?[cap](_ => null);
      fired, items := [], [];
    }

    /** The second constructor copies an array of timers and then sinks them one by one. */
    static method FromArray(init: seq<HeapTimer>, cap: nat) returns (heap: Option<TimeHeap>)
      ensures heap.None? <==> cap < |init|
      ensures heap.Some? ==>
                && fresh(heap.value) && heap.value.Valid() && fresh(heap.value.array_)
                && heap.value.capacity == cap && heap.value.fired == []
                && multiset(heap.value.items) == multiset(init)
    {
      if cap < |init| {
        return None;
      }
      var h := new TimeHeap(cap);
      h.Fill(init);
      return Some(h);
    }

    method Fill(init: seq<HeapTimer>)
      requires Valid() && items == [] && |init| <= capacity
      modifies this`curSize, this`items, array_
      ensures Valid() && multiset(items) == multiset(init)
    {
      curSize := |init|;
      if curSize != 0 {
        var i := 0;
        while i < curSize
          invariant i <= curSize == |init| && forall j :: 0 <= j < i ==> array_[j] == init[j]
        {
          array_[i] := init[i];
          i := i + 1;
        }
        items := init;
        i := (curSize - 1) / 2;
        while i >= 0
          invariant -1 <= i <= (curSize - 1) / 2 && curSize == |init|
          invariant Stores(-1) && HeapFrom(items, i + 1) && multiset(items) == multiset(init)
        {
          PercolateDown(i);
          i := i - 1;
        }
      }
    }

    /** Fills the hole from another cell, which becomes the hole. */
    method MoveHole(hole: nat, other: nat)
      requires Stores(hole) && hole < curSize && other < curSize && hole != other
      modifies this`items, array_
      ensures Stores(other) && items == Swap(old(items), hole, other)
    {
      array_[hole] := array_[other];
      items := Swap(items, hole, other);
    }

    /** Sinks the timer at the hole below every earlier one. */
    method PercolateDown(hole0: nat)
      requires Stores(-1) && hole0 < curSize && HeapFrom(items, hole0 + 1)
      modifies this`items, array_
      ensures Stores(-1) && HeapFrom(items, hole0)
      ensures multiset(items) == multiset(old(items))
    {
      hide HeapExcept, HeapFrom, Swap;
      assert Stores(hole0);
      HoleAtStart(items, hole0);
      var hole := hole0;
      var temp := array_[hole];
      while hole * 2 + 1 <= curSize - 1
        invariant Stores(hole) && hole0 <= hole < curSize && items[hole] == temp
        invariant HeapExcept(items, hole0, hole)
        invariant multiset(items) == multiset(old(items))
      {
        var child := hole * 2 + 1;
        if child < curSize - 1 && array_[child + 1].expire < array_[child].expire {
          child := child + 1;
        }
        if array_[child].expire < temp.expire {
          SinkStep(items, hole0, hole, child);
          SwapKeepsItems(items, hole, child);
          MoveHole(hole, child);
          hole := child;
        } else {
          break;
        }
      }
      array_[hole] := temp;
      HoleSinks(items, hole0, hole);
    }

    lemma HoleAtStart(s: seq<HeapTimer>, from: nat)
      requires HeapFrom(s, from + 1)
      ensures HeapExcept(s, from, from)
    {
    }

    lemma HoleSinks(s: seq<HeapTimer>, from: nat, hole: nat)
      requires HeapExcept(s, from, hole) && hole < |s|
      requires forall i :: 0 < i < |s| && Parent(i) == hole ==> s[hole].expire <= s[i].expire
      ensures HeapFrom(s, from)
    {
    }

    method Resize()
      requires Stores(-1)
      modifies this`array_, this`capacity
      ensures Stores(-1) && capacity == 2 * old(capacity) && fresh(array_)
    {
      var temp := new HeapTimer?[2 * capacity](_ => null);
      capacity := 2 * capacity;
      var i := 0;
      while i < curSize
        invariant i <= curSize && array_ == old(array_) && capacity == 2 * old(capacity)
        invariant forall j :: 0 <= j < i ==> temp[j] == items[j]
      {
        temp[i] := array_[i];
        i := i + 1;
      }
      array_ := temp;
    }

    /** With a capacity of 0 there is no cell to write, before or after the array is doubled. */
    method AddTimer(timer: HeapTimer?)
      requires Valid() && (timer != null ==> capacity > 0)
      modifies this`array_, this`capacity, this`curSize, this`items, array_
      ensures Valid() && (array_ == old(array_) || fresh(array_)) && capacity >= old(capacity)
      ensures timer == null ==> items == old(items)
      ensures timer != null ==> multiset(items) == multiset(old(items)) + multiset{timer}
    {
      if timer == null {
        return;
      }
      if curSize >= capacity {
        Resize();
      }
      PercolateUp(timer);
    }

    /** Raises the hole behind the last timer to where `timer` belongs. */
    method PercolateUp(timer: HeapTimer)
      requires Valid() && curSize < capacity
      modifies this`curSize, this`items, array_
      ensures Valid() && multiset(items) == multiset(old(items)) + multiset{timer}
    {
      hide HeapBelow, HeapFrom, Swap;
      var hole := curSize;
      curSize := curSize + 1;
      items := items + [timer];
      HoleAtEnd(old(items), timer);
      while hole > 0
        invariant Stores(hole) && 0 <= hole < curSize && items[hole] == timer
        invariant HeapBelow(items, hole)
        invariant multiset(items) == multiset(old(items)) + multiset{timer}
      {
        var parent := Parent(hole);
        if array_[parent].expire <= timer.expire {
          break;
        }
        RiseStep(items, hole);
        SwapKeepsItems(items, hole, parent);
        MoveHole(hole, parent);
        hole := parent;
      }
      array_[hole] := timer;
      HoleFits(items, hole);
    }

    lemma HoleAtEnd(s: seq<HeapTimer>, timer: HeapTimer)
      requires HeapFrom(s, 0)
      ensures HeapBelow(s + [timer], |s|)
    {
    }

    lemma HoleFits(s: seq<HeapTimer>, hole: nat)
      requires HeapBelow(s, hole) && hole < |s|
      requires hole > 0 ==> s[Parent(hole)].expire <= s[hole].expire
      ensures HeapFrom(s, 0)
    {
    }

    method DelTimer(timer: HeapTimer?)
      modifies {timer}`hasCallback
      ensures timer != null ==> !timer.hasCallback
    {
      if timer == null {
        return;
      }
      timer.hasCallback := false;
    }

    method Top() returns (t: HeapTimer?)
      requires Valid()
      ensures t == if items == [] then null else items[0]
      ensures t != null ==> forall u :: u in items ==> t.expire <= u.expire
    {
      if curSize == 0 {
        return null;
      }
      RootIsEarliest(items);
      return array_[0];
    }

    /** Removes the root.  After the last removal cell 0 is stale. */
    method PopTimer()
      requires Valid()
      modifies this`curSize, this`items, array_
      ensures Valid()
      ensures old(items) == [] ==> items == []
      ensures old(items) != [] ==> multiset(items) + multiset{old(items)[0]} == multiset(old(items))
    {
      if curSize == 0 {
        return;
      }
      hide HeapFrom;
      if array_[0] != null {
        RemoveRoot(items);
        curSize := curSize - 1;
        array_[0] := array_[curSize];
        items := Shrunk(items);
        if curSize > 0 {
          PercolateDown(0);
        }
      }
    }

    /** Removes exactly the expired timers, in order of expiry, and runs the callbacks of
        those that were not cancelled.  The cell 0 that is read ahead is only looked at
        while the heap is not empty, but with a capacity of 0 there is none to read. */
    method Tick(cur: int) returns (ghost gone: seq<HeapTimer>)
      requires Valid() && capacity > 0
      modifies this`curSize, this`items, this`fired, array_
      ensures Valid()
      ensures multiset(gone) + multiset(items) == multiset(old(items))
      ensures forall t :: t in gone ==> t.expire <= cur
      ensures forall t :: t in items ==> cur < t.expire
      ensures InOrder(gone) && fired == old(fired) + Callbacks(gone)
    {
      hide HeapFrom, Callbacks, InOrder, Taken;
      var tmp := array_[0];
      gone := [];
      NothingRun();
      NothingTaken(items, cur);
      while curSize != 0
        invariant Valid() && tmp == array_[0]
        invariant Taken(gone, items, old(items), cur)
        invariant InOrder(gone) && fired == old(fired) + Callbacks(gone)
        decreases |items|
      {
        assert tmp == items[0];
        if tmp == null {
          break;
        }
        if tmp.expire > cur {
          break;
        }
        gone := FireRoot(gone, old(items), old(fired), cur);
        tmp := array_[0];
      }
      if items != [] {
        RootIsEarliest(items);
      }
      TakenMeans(gone, items, old(items), cur);
    }

    /** Runs the callback of the first timer, unless it was cancelled, and removes it. */
    method FireRoot(ghost gone0: seq<HeapTimer>, ghost all: seq<HeapTimer>, ghost fired0: seq<nat>, ghost cur: int)
      returns (ghost gone: seq<HeapTimer>)
      requires Valid() && items != [] && items[0].expire <= cur && Taken(gone0, items, all, cur)
      requires InOrder(gone0) && fired == fired0 + Callbacks(gone0)
      modifies this`curSize, this`items, this`fired, array_
      ensures Valid() && |items| == |old(items)| - 1 && Taken(gone, items, all, cur)
      ensures InOrder(gone) && fired == fired0 + Callbacks(gone)
    {
      hide HeapFrom, Callbacks, InOrder, Taken;
      TakenBefore(gone0, items, all, cur);
      OneMore(gone0, items[0]);
      if array_[0].hasCallback {
        fired := fired + [array_[0].userData];
      }
      gone := gone0 + [items[0]];
      RemoveExpired(gone0, all, cur);
    }

    /** Removes the first timer, which has expired. */
    method RemoveExpired(ghost gone: seq<HeapTimer>, ghost all: seq<HeapTimer>, ghost cur: int)
      requires Valid() && items != [] && items[0].expire <= cur && Taken(gone, items, all, cur)
      modifies this`curSize, this`items, array_
      ensures Valid() && |items| == |old(items)| - 1 && Taken(gone + [old(items)[0]], items, all, cur)
    {
      RootIsEarliest(items);
      hide HeapFrom, Taken;
      ghost var before := items;
      PopTimer();
      NextTaken(gone, before, items, all, cur);
    }

    /** `gone` are timers of `all` that have expired, `left` the others, none of them earlier. */
    static ghost predicate Taken(gone: seq<HeapTimer>, left: seq<HeapTimer>, all: seq<HeapTimer>, cur: int) {
      && multiset(gone) + multiset(left) == multiset(all)
      && (forall t :: t in gone ==> t.expire <= cur)
      && (forall t, u :: t in gone && u in left ==> t.expire <= u.expire)
    }

    static lemma NothingTaken(all: seq<HeapTimer>, cur: int)
      ensures Taken([], all, all, cur)
    {
    }

    static lemma TakenBefore(gone: seq<HeapTimer>, left: seq<HeapTimer>, all: seq<HeapTimer>, cur: int)
      requires Taken(gone, left, all, cur) && left != []
      ensures forall t :: t in gone ==> t.expire <= left[0].expire
    {
    }

    static lemma NextTaken(gone: seq<HeapTimer>, before: seq<HeapTimer>, left: seq<HeapTimer>,
                           all: seq<HeapTimer>, cur: int)
      requires Taken(gone, before, all, cur) && before != [] && before[0].expire <= cur
      requires forall u :: u in before ==> before[0].expire <= u.expire
      requires multiset(left) + multiset{before[0]} == multiset(before)
      ensures Taken(gone + [before[0]], left, all, cur) && |left| == |before| - 1
    {
      Moved(gone, before, left, before[0]);
      forall u | u in left ensures u in before {
        assert u in multiset(left) + multiset{before[0]};
      }
      assert |multiset(left)| + 1 == |multiset(before)|;
    }

    static lemma TakenMeans(gone: seq<HeapTimer>, left: seq<HeapTimer>, all: seq<HeapTimer>, cur: int)
      requires Taken(gone, left, all, cur)
      ensures multiset(gone) + multiset(left) == multiset(all)
      ensures forall t :: t in gone ==> t.expire <= cur
    {
    }

    static lemma Moved<T>(gone: seq<T>, before: seq<T>, after: seq<T>, x: T)
      requires multiset(after) + multiset{x} == multiset(before)
      ensures multiset(gone + [x]) + multiset(after) == multiset(gone) + multiset(before)
    {
    }

    static lemma NothingRun()
      ensures Callbacks([]) == [] && InOrder([])
    {
    }

    static lemma OneMore(gone: seq<HeapTimer>, t: HeapTimer)
      requires InOrder(gone) && forall u :: u in gone ==> u.expire <= t.expire
      ensures InOrder(gone + [t])
      ensures Callbacks(gone + [t]) == Callbacks(gone) + if t.hasCallback then [t.userData] else []
    {
      assert (gone + [t])[..|gone|] == gone;
    }

    static lemma RootIsEarliest(s: seq<HeapTimer>)
      requires HeapFrom(s, 0) && s != []
      ensures forall t :: t in s ==> s[0].expire <= t.expire
    {
      forall i | 0 <= i < |s| ensures s[0].expire <= s[i].expire { RootIsFirst(s, i); }
    }

    lemma RemoveRoot(s: seq<HeapTimer>)
      requires s != [] && HeapFrom(s, 0)
      ensures HeapFrom(Shrunk(s), 1)
      ensures |s| == 1 ==> HeapFrom(Shrunk(s), 0)
      ensures multiset(Shrunk(s)) + multiset{s[0]} == multiset(s)
    {
      var n := |s| - 1;
      assert Swap(s, 0, n)[..n] == Shrunk(s);
      assert Swap(s, 0, n) == Swap(s, 0, n)[..n] + [s[0]];
      SwapKeepsItems(s, 0, n);
    }
  }

  /** What running the callbacks of `l` appends to the log: cancelled timers are skipped. */
  ghost function Callbacks(l: seq<HeapTimer>): seq<nat>
    reads l`hasCallback
  {
    if l == [] then []
    else Callbacks(l[..|l| - 1]) + if l[|l| - 1].hasCallback then [l[|l| - 1].userData] else []
  }

  ghost predicate InOrder(l: seq<HeapTimer>) {
    forall i, j :: 0 <= i < j < |l| ==> l[i].expire <= l[j].expire
  }

  /** The last item in place of the first. */
  function Shrunk<T>(s: seq<T>): (r: seq<T>)
    requires s != []
    ensures |r| == |s| - 1 && forall i :: 0 <= i < |r| ==> r[i] == if i == 0 then s[|r|] else s[i]
  {
    s[0 := s[|s| - 1]][..|s| - 1]
  }
}
