/** The ascending timer list of chapter 11: a doubly linked list kept in order of expiry. */
module SortedTimerList {

  // ----- positions in a list of expiry times

  ghost predicate Sorted(keys: seq<int>) {
    forall i, j :: 0 <= i < j < |keys| ==> keys[i] <= keys[j]
  }

  /** The length of the longest prefix whose expiries are at most x. */
  function Rank(keys: seq<int>, x: int): (k: nat)
    ensures k <= |keys|
    ensures forall i :: 0 <= i < k ==> keys[i] <= x
    ensures k < |keys| ==> x < keys[k]
  {
    if keys == [] || x < keys[0] then 0 else 1 + Rank(keys[1..], x)
  }

  function Without<T>(s: seq<T>, i: nat): (r: seq<T>)
    requires i < |s|
    ensures |r| == |s| - 1
  {
    s[..i] + s[i + 1..]
  }

  lemma WithoutAt<T>(s: seq<T>, i: nat)
    requires i < |s|
    ensures forall j :: 0 <= j < i ==> Without(s, i)[j] == s[j]
    ensures forall j :: i <= j < |s| - 1 ==> Without(s, i)[j] == s[j + 1]
  {
  }

  function InsertAt<T>(s: seq<T>, k: nat, x: T): (r: seq<T>)
    requires k <= |s|
    ensures |r| == |s| + 1
  {
    s[..k] + [x] + s[k..]
  }

  lemma InsertAtAt<T>(s: seq<T>, k: nat, x: T)
    requires k <= |s|
    ensures InsertAt(s, k, x)[k] == x
    ensures forall j :: 0 <= j < k ==> InsertAt(s, k, x)[j] == s[j]
    ensures forall j :: k < j <= |s| ==> InsertAt(s, k, x)[j] == s[j - 1]
  {
  }

  /** Insertion at the rank keeps the order and comes after all equal expiries; it is the
      only place that does both. */
  lemma StableInsertion(keys: seq<int>, x: int, k: nat)
    requires Sorted(keys) && k <= |keys|
    ensures k == Rank(keys, x) <==>
              Sorted(InsertAt(keys, k, x)) && forall i :: k <= i < |keys| ==> keys[i] != x
  {
    hide InsertAt;
    InsertAtAt(keys, k, x);
    var r := Rank(keys, x);
    var s := InsertAt(keys, k, x);
    if k == r {
      assert forall i :: k <= i < |keys| ==> x < keys[k] <= keys[i];
      assert forall j :: k < j < |s| ==> s[j] == keys[j - 1];
      assert forall j :: 0 <= j < k ==> s[j] == keys[j];
    } else if Sorted(s) {
      assert k < r ==> s[k] <= s[k + 1];
    }
  }

  lemma {:induction false} RankIs(keys: seq<int>, x: int, k: nat)
    requires k <= |keys| && (forall i :: 0 <= i < k ==> keys[i] <= x) && (k < |keys| ==> x < keys[k])
    ensures Rank(keys, x) == k
  {
    if k > 0 && k <= |keys| {
      RankIs(keys[1..], x, k - 1);
    }
  }

  /** Where AdjustTimer puts the i-th timer among the others.  It only looks behind. */
  function AdjustedRank(keys: seq<int>, i: nat): (k: nat)
    requires i < |keys|
    ensures k < |keys|
  {
    if i + 1 == |keys| || keys[i] < keys[i + 1] then i
    else i + 1 + Rank(Without(keys, i)[i + 1..], keys[i])
  }

  /** Adjusting a timer keeps the order exactly when its expiry is not before that of its
      predecessor, as after an extension; then it is a stable insertion.  Otherwise the timer
      stays where it is. */
  lemma AdjustKeepsOrderIff(keys: seq<int>, i: nat)
    requires i < |keys| && Sorted(Without(keys, i))
    ensures var others, k := Without(keys, i), AdjustedRank(keys, i);
            && (Sorted(InsertAt(others, k, keys[i])) <==> i == 0 || keys[i - 1] <= keys[i])
            && k == if i == 0 || keys[i - 1] <= keys[i] then Rank(others, keys[i]) else i
  {
    hide Without, InsertAt, Rank;
    var others, k, x := Without(keys, i), AdjustedRank(keys, i), keys[i];
    WithoutAt(keys, i);
    InsertAtAt(others, k, x);
    if i == 0 || keys[i - 1] <= x {
      forall j | 0 <= j < k ensures others[j] <= x {
        if j < i { assert others[j] <= others[i - 1]; }
        if j > i { assert others[j] == others[i + 1..][j - i - 1]; }
      }
      assert i < k < |others| ==> others[k] == others[i + 1..][k - i - 1];
      RankIs(others, x, k);
      StableInsertion(others, x, k);
    } else {
      assert i < |others| ==> others[i - 1] <= others[i] == keys[i + 1];
      var all := InsertAt(others, k, x);
      assert all[i - 1] == others[i - 1] == keys[i - 1] && all[k] == x;
    }
  }

  // ----- the linked list

  class UtilTimer {
    var expire: int
    var userData: nat
    var prev: UtilTimer?
    var next: UtilTimer?

    constructor (expire: int, userData: nat)
      ensures this.expire == expire && this.userData == userData && prev == next == null
    {
      this.expire, this.userData := expire, userData;
      prev, next := null, null;
    }
  }

  ghost predicate Distinct<T>(l: seq<T>) {
    forall i, j :: 0 <= i < j < |l| ==> l[i] != l[j]
  }

  /** `head` starts a doubly linked list of exactly the timers of `l`. */
  ghost predicate Linked(head: UtilTimer?, l: seq<UtilTimer>)
    reads l`next, l`prev
  {
    && head == (if l == [] then null else l[0])
    && Distinct(l)
    && (forall i {:trigger l[i].next} :: 0 <= i < |l| ==> l[i].next == if i + 1 < |l| then l[i + 1] else null)
    && (forall i {:trigger l[i].prev} :: 0 <= i < |l| ==> l[i].prev == if i > 0 then l[i - 1] else null)
  }

  function Keys(l: seq<UtilTimer>): (keys: seq<int>)
    reads l`expire
    ensures |keys| == |l|
  {
    if l == [] then [] else [l[0].expire] + Keys(l[1..])
  }

  lemma {:induction false} KeysAt(l: seq<UtilTimer>)
    ensures forall i :: 0 <= i < |l| ==> Keys(l)[i] == l[i].expire
  {
    if l != [] { KeysAt(l[1..]); }
  }

  lemma KeysWithout(l: seq<UtilTimer>, i: nat)
    requires i < |l|
    ensures Keys(Without(l, i)) == Without(Keys(l), i)
  {
    hide Without, Keys;
    KeysAt(l);
    KeysAt(Without(l, i));
    WithoutAt(l, i);
    WithoutAt(Keys(l), i);
  }

  lemma KeysInsert(l: seq<UtilTimer>, k: nat, timer: UtilTimer)
    requires k <= |l|
    ensures Keys(InsertAt(l, k, timer)) == InsertAt(Keys(l), k, timer.expire)
  {
    hide InsertAt, Keys;
    KeysAt(l);
    KeysAt(InsertAt(l, k, timer));
    InsertAtAt(l, k, timer);
    InsertAtAt(Keys(l), k, timer.expire);
  }

  lemma KeysFrom(l: seq<UtilTimer>, i: nat)
    requires i <= |l|
    ensures Keys(l[i..]) == Keys(l)[i..]
  {
    hide Keys;
    KeysAt(l);
    KeysAt(l[i..]);
  }

  lemma SortedParts(keys: seq<int>, i: nat)
    requires Sorted(keys) && i <= |keys|
    ensures Sorted(keys[i..]) && (i < |keys| ==> Sorted(Without(keys, i)))
  {
    hide Without;
    if i < |keys| {
      WithoutAt(keys, i);
      var w := Without(keys, i);
      assert forall j :: 0 <= j < |w| ==> w[j] == keys[if j < i then j else j + 1];
    }
  }

  function UserData(l: seq<UtilTimer>): (data: seq<nat>)
    reads l`userData
    ensures |data| == |l|
  {
    if l == [] then [] else [l[0].userData] + UserData(l[1..])
  }

  /** Links `timer` between two neighbours. */
  method Link(prev: UtilTimer, timer: UtilTimer, next: UtilTimer?, ghost head: UtilTimer?, ghost l: seq<UtilTimer>, ghost k: nat)
    requires Linked(head, l) && timer !in l
    requires 0 < k <= |l| && prev == l[k - 1] && next == if k < |l| then l[k] else null
    modifies l`next, l`prev, timer`next, timer`prev
    ensures Linked(head, InsertAt(l, k, timer))
  {
    hide InsertAt;
    InsertAtAt(l, k, timer);
    ghost var r := InsertAt(l, k, timer);
    assert prev == r[k - 1] && (next != null ==> next == r[k + 1]);
    prev.next := timer;
    timer.next := next;
    if next != null {
      next.prev := timer;
    }
    timer.prev := prev;
    forall i | 0 <= i < |r|
      ensures r[i].next == if i + 1 < |r| then r[i + 1] else null
      ensures r[i].prev == if i > 0 then r[i - 1] else null
    {
      if i < k { assert r[i] == l[i]; }
      if i > k { assert r[i] == l[i - 1]; }
    }
  }

  /** Links a new timer in front of a list. */
  method LinkFront(timer: UtilTimer, head: UtilTimer?, ghost l: seq<UtilTimer>)
    requires Linked(head, l) && timer !in l && timer.next == timer.prev == null
    modifies l`prev, timer`next
    ensures Linked(timer, InsertAt(l, 0, timer))
  {
    hide InsertAt;
    InsertAtAt(l, 0, timer);
    ghost var r := InsertAt(l, 0, timer);
    if head != null {
      timer.next := head;
      head.prev := timer;
    }
    forall i | 0 <= i < |r|
      ensures r[i].next == if i + 1 < |r| then r[i + 1] else null
      ensures r[i].prev == if i > 0 then r[i - 1] else null
    {
      if i > 0 { assert r[i] == l[i - 1]; }
    }
  }

  /** Takes the first timer out of a list. */
  method DropFirst(head: UtilTimer, ghost l: seq<UtilTimer>) returns (newHead: UtilTimer?)
    requires Linked(head, l)
    modifies l`prev
    ensures Linked(newHead, Without(l, 0)) && head.next == newHead && head.prev == null
  {
    hide Without;
    WithoutAt(l, 0);
    newHead := head.next;
    if newHead != null {
      newHead.prev := null;
    }
  }

  /** Takes the last of several timers out of a list. */
  method DropLast(tail: UtilTimer, ghost head: UtilTimer, ghost l: seq<UtilTimer>) returns (newTail: UtilTimer)
    requires Linked(head, l) && |l| > 1 && tail == l[|l| - 1]
    modifies l`next
    ensures Linked(head, Without(l, |l| - 1)) && newTail == l[|l| - 2]
  {
    hide Without;
    WithoutAt(l, |l| - 1);
    newTail := tail.prev;
    newTail.next := null;
  }

  /** Takes an inner timer out of a list. */
  method DropInner(timer: UtilTimer, ghost head: UtilTimer, ghost l: seq<UtilTimer>, ghost i: nat)
    requires Linked(head, l) && 0 < i < |l| - 1 && timer == l[i]
    modifies l`next, l`prev
    ensures Linked(head, Without(l, i)) && timer.next == l[i + 1]
  {
    hide Without;
    WithoutAt(l, i);
    timer.prev.next := timer.next;
    timer.next.prev := timer.prev;
  }

  lemma HeadIs(head: UtilTimer?, l: seq<UtilTimer>)
    requires Linked(head, l)
    ensures head == if l == [] then null else l[0]
  {
  }

  lemma NextIs(head: UtilTimer?, l: seq<UtilTimer>, i: nat)
    requires Linked(head, l) && i < |l|
    ensures l[i].next == if i + 1 < |l| then l[i + 1] else null
  {
  }

  lemma {:induction false} UserDataAt(l: seq<UtilTimer>)
    ensures forall i :: 0 <= i < |l| ==> UserData(l)[i] == l[i].userData
  {
    if l != [] { UserDataAt(l[1..]); }
  }

  class SortTimerLst {
    var head: UtilTimer?
    var tail: UtilTimer?
    /** The user data of the callbacks run so far: what the callbacks are modelled by. */
    var fired: seq<nat>
    ghost var list: seq<UtilTimer>

    /** The links are in order.  Draining the list leaves `tail` behind, so it only counts
        while there is a head. */
    ghost predicate Shaped()
      reads this`head, this`tail, this`list, list`next, list`prev
    {
      Linked(head, list) && (list != [] ==> tail == list[|list| - 1])
    }

    ghost predicate Valid()
      reads this`head, this`tail, this`list, list`next, list`prev, list`expire
    {
      Shaped() && Sorted(Keys(list))
    }

    constructor ()
      ensures Valid() && list == [] && fired == []
    {
      head, tail, fired, list := null, null, [], [];
    }

    /** Walks from lstHead to the first later expiry behind it. */
    method Search(expire: int, lstHead: UtilTimer, ghost h: nat) returns (prev: UtilTimer, tmp: UtilTimer?, ghost k: nat)
      requires Shaped() && h < |list| && lstHead == list[h]
      ensures k == h + 1 + Rank(Keys(list[h + 1..]), expire) <= |list|
      ensures prev == list[k - 1] && tmp == if k < |list| then list[k] else null
    {
      hide Linked, Rank, Keys;
      NextIs(head, list, h);
      prev, tmp, k := lstHead, lstHead.next, h + 1;
      while tmp != null && expire >= tmp.expire
        invariant h < k <= |list| && prev == list[k - 1] && tmp == if k < |list| then list[k] else null
        invariant forall i :: h < i < k ==> list[i].expire <= expire
        decreases |list| - k
      {
        NextIs(head, list, k);
        prev, tmp, k := tmp, tmp.next, k + 1;
      }
      KeysAt(list[h + 1..]);
      RankIs(Keys(list[h + 1..]), expire, k - h - 1);
    }

    /** The private overload: inserts before the first later expiry behind lstHead. */
    method AddAfter(timer: UtilTimer, lstHead: UtilTimer, ghost h: nat)
      requires Shaped() && timer !in list && h < |list| && lstHead == list[h]
      modifies this`tail, this`list, list`next, list`prev, timer`next, timer`prev
      ensures Shaped()
      ensures list == InsertAt(old(list), h + 1 + old(Rank(Keys(list[h + 1..]), timer.expire)), timer)
    {
      hide Linked, InsertAt, Rank, Keys;
      var prev, tmp;
      ghost var k;
      prev, tmp, k := Search(timer.expire, lstHead, h);
      Link(prev, timer, tmp, head, list, k);
      if tmp == null {
        tail := timer;
      }
      InsertAtAt(list, k, timer);
      list := InsertAt(list, k, timer);
    }

    /** Inserts at the rank of the expiry, behind all equal ones. */
    method Insert(timer: UtilTimer)
      requires Valid() && timer !in list && timer.next == timer.prev == null
      modifies this`head, this`tail, this`list, list`next, list`prev, timer`next, timer`prev
      ensures Valid()
      ensures list == InsertAt(old(list), old(Rank(Keys(list), timer.expire)), timer)
    {
      hide Shaped, InsertAt, Rank, Keys, Sorted;
      StillSorted(list, timer);
      Ends();
      ghost var after := InsertAt(list, Rank(Keys(list), timer.expire), timer);
      ghost var keys := Keys(after);
      if head == null {
        PushFront(timer);
        tail := timer;
        OnlyOne(timer);
      } else if timer.expire < head.expire {
        PushFront(timer);
      } else {
        RankBehindFirst(list, timer.expire);
        AddAfter(timer, head, 0);
      }
      assert list == after && Keys(after) == keys;
    }

    /** Inserts before the head.  The tail of an empty list is left to the caller. */
    method PushFront(timer: UtilTimer)
      requires Shaped() && timer !in list && timer.next == timer.prev == null
      modifies this`head, this`list, list`prev, timer`next
      ensures Linked(head, list) && list == InsertAt(old(list), 0, timer)
      ensures old(list) != [] ==> Shaped()
    {
      hide Linked, InsertAt;
      InsertAtAt(list, 0, timer);
      LinkFront(timer, head, list);
      head := timer;
      list := InsertAt(list, 0, timer);
      assert old(list) != [] ==> list[|list| - 1] == old(list)[|old(list)| - 1];
    }

    lemma Ends()
      requires Shaped()
      ensures head == if list == [] then null else list[0]
    {
    }

    lemma OnlyOne(timer: UtilTimer)
      requires Linked(head, list) && list == InsertAt([], 0, timer) && tail == timer
      ensures Shaped()
    {
    }

    method AddTimer(timer: UtilTimer?)
      requires Valid() && (timer != null ==> timer !in list && timer.next == timer.prev == null)
      modifies this`head, this`tail, this`list, list`next, list`prev, {timer}`next, {timer}`prev
      ensures Valid()
      ensures timer == null ==> list == old(list)
      ensures timer != null ==> list == InsertAt<UtilTimer>(old(list), old(Rank(Keys(list), timer.expire)), timer)
    {
      if timer == null {
        return;
      }
      Insert(timer);
    }

    lemma RankBehindFirst(l: seq<UtilTimer>, x: int)
      requires l != [] && l[0].expire <= x
      ensures Rank(Keys(l), x) == 1 + Rank(Keys(l[1..]), x)
    {
      assert Keys(l)[1..] == Keys(l[1..]);
    }

    lemma StillSorted(l: seq<UtilTimer>, timer: UtilTimer)
      requires Sorted(Keys(l))
      ensures var k := Rank(Keys(l), timer.expire);
              && Sorted(Keys(InsertAt(l, k, timer)))
              && (l == [] || timer.expire < l[0].expire ==> k == 0)
    {
      hide InsertAt, Rank, Keys;
      KeysAt(l);
      var k := Rank(Keys(l), timer.expire);
      StableInsertion(Keys(l), timer.expire, k);
      KeysInsert(l, k, timer);
    }

    /** Moves the i-th timer, whose expiry was changed, towards the tail. */
    method AdjustTimer(timer: UtilTimer?, ghost i: nat)
      requires Shaped()
      requires timer != null ==> i < |list| && timer == list[i] && Sorted(Without(Keys(list), i))
      modifies this`head, this`tail, this`list, list`next, list`prev
      ensures Shaped()
      ensures timer == null ==> list == old(list)
      ensures timer != null ==>
                && list == InsertAt<UtilTimer>(Without(old(list), i), AdjustedRank(old(Keys(list)), i), timer)
                && (Valid() <==> i == 0 || old(list[i - 1].expire) <= timer.expire)
    {
      if timer != null {
        Adjust(timer, i);
      }
    }

    method Adjust(timer: UtilTimer, ghost i: nat)
      requires Shaped() && i < |list| && timer == list[i]
      requires Sorted(Without(Keys(list), i))
      modifies this`head, this`tail, this`list, list`next, list`prev
      ensures Shaped()
      ensures list == InsertAt(Without(old(list), i), AdjustedRank(old(Keys(list)), i), timer)
      ensures Valid() <==> i == 0 || old(list[i - 1].expire) <= timer.expire
    {
      hide Linked, InsertAt, Without, Sorted, Keys, Rank, AdjustedRank;
      ghost var l, k := list, AdjustedRank(Keys(list), i);
      AdjustedOrder(l, i);
      AdjustedPlace(l, i);
      ghost var after := InsertAt(Without(l, i), k, timer);
      ghost var keys := Keys(after);
      NextIs(head, l, i);
      var tmp := timer.next;
      if tmp == null || timer.expire < tmp.expire {
        InsertBack(l, i);
        return;
      }
      MoveBehind(timer, i);
      assert list == after && Keys(after) == keys;
    }

    /** Unlinks a timer that has a successor and inserts it again behind that. */
    method MoveBehind(timer: UtilTimer, ghost i: nat)
      requires Shaped() && i + 1 < |list| && timer == list[i]
      modifies this`head, this`tail, this`list, list`next, list`prev
      ensures Shaped()
      ensures list == InsertAt(Without(old(list), i),
                               i + 1 + old(Rank(Keys(Without(list, i)[i + 1..]), timer.expire)), timer)
    {
      hide Linked, InsertAt, Without, Keys, Rank;
      ghost var l := list;
      HeadIs(head, l);
      DistinctElsewhere(head, l, i);
      LastIs(head, l, i);
      WithoutAt(l, i);
      if timer == head {
        head := DropFirst(head, l);
        list := Without(l, i);
        HeadIs(head, list);
        timer.next := null;
        AddAfter(timer, head, 0);
      } else {
        DropInner(timer, head, l, i);
        list := Without(l, i);
        AddAfter(timer, timer.next, i);
      }
    }

    lemma InsertBack(l: seq<UtilTimer>, i: nat)
      requires i < |l|
      ensures InsertAt(Without(l, i), i, l[i]) == l
    {
    }

    lemma DistinctElsewhere(head: UtilTimer?, l: seq<UtilTimer>, i: nat)
      requires Linked(head, l) && i < |l|
      ensures l[i] !in Without(l, i) && (l[i] == head <==> i == 0)
      ensures forall t :: t in Without(l, i) ==> t in l
    {
    }

    lemma AdjustedOrder(l: seq<UtilTimer>, i: nat)
      requires i < |l| && Sorted(Without(Keys(l), i))
      ensures var k := AdjustedRank(Keys(l), i);
              Sorted(Keys(InsertAt(Without(l, i), k, l[i]))) <==> i == 0 || l[i - 1].expire <= l[i].expire
    {
      hide Without, InsertAt, Keys, Sorted, AdjustedRank;
      KeysAt(l);
      AdjustKeepsOrderIff(Keys(l), i);
      KeysMoved(l, i, AdjustedRank(Keys(l), i));
    }

    lemma AdjustedPlace(l: seq<UtilTimer>, i: nat)
      requires i < |l|
      ensures AdjustedRank(Keys(l), i) ==
                if i + 1 == |l| || l[i].expire < l[i + 1].expire then i
                else i + 1 + Rank(Keys(Without(l, i)[i + 1..]), l[i].expire)
    {
      hide Without, Keys, Rank;
      KeysAt(l);
      KeysBehind(l, i);
    }

    lemma KeysMoved(l: seq<UtilTimer>, i: nat, k: nat)
      requires i < |l| && k < |l|
      ensures Keys(InsertAt(Without(l, i), k, l[i])) == InsertAt(Without(Keys(l), i), k, l[i].expire)
    {
      hide Without, InsertAt, Keys;
      KeysAt(l);
      KeysWithout(l, i);
      KeysInsert(Without(l, i), k, l[i]);
    }

    lemma KeysBehind(l: seq<UtilTimer>, i: nat)
      requires i < |l|
      ensures i + 1 < |l| ==> Keys(Without(l, i)[i + 1..]) == Without(Keys(l), i)[i + 1..]
    {
      hide Without, Keys;
      KeysWithout(l, i);
      if i + 1 < |l| { KeysFrom(Without(l, i), i + 1); }
    }

    /** Takes a timer out of the list. */
    method DelTimer(timer: UtilTimer?)
      requires Valid() && (timer == null || timer in list)
      modifies this`head, this`tail, this`list, list`next, list`prev
      ensures Valid()
      ensures timer == null ==> list == old(list)
      ensures timer != null ==>
                exists i :: 0 <= i < |old(list)| && old(list)[i] == timer && list == Without(old(list), i)
    {
      if timer == null {
        return;
      }
      hide Linked, Without, Sorted, Keys;
      ghost var i :| 0 <= i < |list| && list[i] == timer;
      SortedParts(Keys(list), i);
      KeysWithout(list, i);
      ghost var after, keys := Without(list, i), Keys(Without(list, i));
      Unlink(timer, i);
      assert list == after && Keys(after) == keys;
    }

    method Unlink(timer: UtilTimer, ghost i: nat)
      requires Shaped() && i < |list| && list[i] == timer
      modifies this`head, this`tail, this`list, list`next, list`prev
      ensures Shaped() && list == Without(old(list), i)
    {
      hide Linked, Without;
      ghost var l := list;
      HeadIs(head, l);
      DistinctElsewhere(head, l, i);
      LastIs(head, l, i);
      if timer == head && timer == tail {
        head := DropFirst(timer, l);
        tail := null;
      } else if timer == head {
        head := DropFirst(timer, l);
      } else if timer == tail {
        WithoutAt(l, i);
        tail := DropLast(timer, head, l);
      } else {
        DropInner(timer, head, l, i);
      }
      list := Without(l, i);
    }

    lemma LastIs(head: UtilTimer?, l: seq<UtilTimer>, i: nat)
      requires Linked(head, l) && i < |l|
      ensures l[i] == l[|l| - 1] <==> i == |l| - 1
      ensures i < |l| - 1 ==> Without(l, i)[|l| - 2] == l[|l| - 1]
    {
    }

    /** Runs the callback of the first timer and takes it out of the list. */
    method Fire(timer: UtilTimer)
      requires Valid() && head == timer
      modifies this`head, this`list, this`fired, list`prev
      ensures Valid() && list == old(list)[1..] && fired == old(fired) + [timer.userData]
      ensures head == if list == [] then null else list[0]
    {
      hide Linked, Keys, Sorted;
      HeadIs(head, list);
      SortedParts(Keys(list), 1);
      KeysFrom(list, 1);
      WithoutAt(list, 0);
      assert Without(list, 0) == list[1..];
      fired := fired + [timer.userData];
      head := DropFirst(timer, list);
      list := list[1..];
      HeadIs(head, list);
    }

    lemma Start()
      requires Valid()
      ensures head == if list == [] then null else list[0]
    {
    }

    /** Runs the callbacks of exactly the timers that have expired, in order, and takes them
        out of the list. */
    method Tick(cur: int)
      requires Valid()
      modifies this`head, this`list, this`fired, list`prev
      ensures Valid()
      ensures list == old(list)[old(Rank(Keys(list), cur))..]
      ensures fired == old(fired) + old(UserData(list))[..old(Rank(Keys(list), cur))]
    {
      hide Linked, Keys, Sorted, Rank, UserData, Valid;
      Start();
      ghost var l, k, data := list, 0, UserData(list);
      UserDataAt(l);
      if head == null {
        RankIs(Keys(l), cur, 0);
        return;
      }
      var tmp := head;
      assert l[0..] == l;
      while tmp != null
        invariant k <= |l| && list == l[k..] && tmp == head && Valid()
        invariant head == if list == [] then null else list[0]
        invariant forall i :: 0 <= i < k ==> l[i].expire <= cur
        invariant fired == old(fired) + data[..k]
        invariant forall i :: 0 <= i < |l| ==> l[i].userData == data[i]
        decreases |l| - k
      {
        if cur < tmp.expire {
          break;
        }
        assert l[k..][1..] == l[k + 1..] && data[..k] + [data[k]] == data[..k + 1];
        Fire(tmp);
        tmp := head;
        k := k + 1;
      }
      KeysAt(l);
      RankIs(Keys(l), cur, k);
    }
  }
}
