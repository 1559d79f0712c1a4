/** The producer-consumer storage: a ring of slots, two counting semaphores and a mutex,
    used by any number of threads.  Each thread runs produce or consume forever, and the
    scheduler picks whose next atomic step runs. */
module BoundedBuffer {
  import opened Rings
  import opened Wrappers

  /** The point a thread has reached, named after the last step it did. */
  datatype Pc =
    | PIdle | PWaited | PLocked | PNumbered | PStored | PAdvanced | PUnlocked
    | CIdle | CWaited | CLocked | CTaken | CCleared | CAdvanced | CUnlocked

  predicate IsProducer(pc: Pc) {
    (pc.PIdle? || pc.PWaited? || pc.PLocked? || pc.PNumbered? || pc.PStored? || pc.PAdvanced? || pc.PUnlocked?)
  }

  predicate InCriticalSection(pc: Pc) {
    (pc.PLocked? || pc.PNumbered? || pc.PStored? || pc.PAdvanced? || pc.CLocked? || pc.CTaken? || pc.CCleared? || pc.CAdvanced?)
  }

  const UINT_RANGE: nat := 0x1_0000_0000
  const USHORT_RANGE: nat := 0x1_0000

  /** The k-th product: the 32-bit unsigned counter, kept in a signed int. */
  function Item(k: nat): int {
    AsInt(Wrap(k))
  }

  /** The value of an unsigned int after counting to k. */
  function Wrap(k: nat): nat {
    k % UINT_RANGE
  }

  function AsInt(m: nat): int {
    if m < 0x8000_0000 then m else m - UINT_RANGE
  }

  /** Until the sign bit is reached the k-th product is k, and the empty mark -1 is
      produced exactly once per turn of the counter. */
  lemma ItemRange(k: nat)
    ensures k < 0x8000_0000 ==> Item(k) == k
    ensures Item(k) == -1 <==> k % UINT_RANGE == UINT_RANGE - 1
    ensures -0x8000_0000 <= Item(k) < 0x8000_0000 && (Item(k) - k) % UINT_RANGE == 0
  {
  }

  lemma NextNumber(k: nat)
    ensures Wrap(Wrap(k) + 1) == Wrap(k + 1)
  {
  }

  /** (position + 1) % buffSize, stored in an unsigned short. */
  function Advance(position: nat, n: nat): nat
    requires n > 0
  {
    (position + 1) % n % USHORT_RANGE
  }

  lemma AdvanceSlot(i: nat, n: nat)
    requires 0 < n <= USHORT_RANGE
    ensures Advance(Slot(i, n), n) == Slot(i + 1, n)
  {
    SlotAfter(i, n);
  }

  /** The next step of a thread's endless loop. */
  function NextPc(pc: Pc): Pc {
    match pc
    case PIdle => PWaited
    case PWaited => PLocked
    case PLocked => PNumbered
    case PNumbered => PStored
    case PStored => PAdvanced
    case PAdvanced => PUnlocked
    case PUnlocked => PIdle
    case CIdle => CWaited
    case CWaited => CLocked
    case CLocked => CTaken
    case CTaken => CCleared
    case CCleared => CAdvanced
    case CAdvanced => CUnlocked
    case CUnlocked => CIdle
  }

  /** The first k products, in order. */
  function Items(k: nat): seq<int> {
    seq(k, i requires 0 <= i => Item(i + 1))
  }

  /** How many threads are at one of three program points. */
  ghost function Count<T>(threads: seq<T>, a: T, b: T, c: T): nat {
    multiset(threads)[a] + multiset(threads)[b] + multiset(threads)[c]
  }

  /** Producers that own a free slot; producers that filled one and did not post it. */
  ghost function PendingPuts(threads: seq<Pc>): nat { Count(threads, PWaited, PLocked, PNumbered) }
  ghost function UnpostedPuts(threads: seq<Pc>): nat { Count(threads, PStored, PAdvanced, PUnlocked) }
  /** Consumers that own a filled slot; consumers that freed one and did not post it. */
  ghost function PendingGets(threads: seq<Pc>): nat { Count(threads, CWaited, CLocked, CTaken) }
  ghost function UnpostedGets(threads: seq<Pc>): nat { Count(threads, CCleared, CAdvanced, CUnlocked) }

  /** Every unit of the two semaphores is accounted for: semaphore values plus threads in
      flight are the free slots and the items. */
  ghost predicate Counted(n: nat, semEmpty: nat, semFull: nat, threads: seq<Pc>, items: nat) {
    && semEmpty + PendingPuts(threads) + UnpostedGets(threads) + items == n
    && semFull + PendingGets(threads) + UnpostedPuts(threads) == items
  }

  /** The mutex is held by the one thread in the critical section. */
  ghost predicate Exclusive(threads: seq<Pc>, mutex: Option<nat>) {
    && (mutex.Some? ==> mutex.value < |threads|)
    && forall t :: 0 <= t < |threads| ==> (InCriticalSection(threads[t]) <==> mutex == Some(t))
  }

  /** The program point of the thread in the critical section. */
  ghost function Owner(threads: seq<Pc>, mutex: Option<nat>): Pc
  {
    if mutex.Some? && mutex.value < |threads| then threads[mutex.value] else PIdle
  }

  /** The slots from head to tail hold the products in order, the others the empty mark;
      the two positions follow, with a delay inside the critical section. */
  ghost predicate Ring(ring: seq<int>, head: nat, tail: nat, inPos: nat, outPos: nat, owner: Pc) {
    var n := |ring|;
    && 0 < n && head <= tail <= head + n
    && (forall i :: head <= i < tail ==> ring[Slot(i, n)] == Item(i + 1))
    && (forall i :: tail <= i < head + n ==> ring[Slot(i, n)] == -1)
    && (owner == PStored ==> tail > 0) && (owner == CCleared ==> head > 0)
    && inPos == Slot(if owner == PStored then tail - 1 else tail, n)
    && outPos == Slot(if owner == CCleared then head - 1 else head, n)
  }

  function Move(threads: seq<Pc>, t: nat): seq<Pc>
    requires t < |threads|
  {
    threads[t := NextPc(threads[t])]
  }

  /** What a step of thread t changes in the accounts. */
  lemma CountsAfter(threads: seq<Pc>, t: nat)
    requires t < |threads|
    ensures var pc, next := threads[t], Move(threads, t);
            && PendingPuts(next) == PendingPuts(threads)
                 + (if pc == PIdle then 1 else 0) - (if pc == PNumbered then 1 else 0)
            && UnpostedPuts(next) == UnpostedPuts(threads)
                 + (if pc == PNumbered then 1 else 0) - (if pc == PUnlocked then 1 else 0)
            && PendingGets(next) == PendingGets(threads)
                 + (if pc == CIdle then 1 else 0) - (if pc == CTaken then 1 else 0)
            && UnpostedGets(next) == UnpostedGets(threads)
                 + (if pc == CTaken then 1 else 0) - (if pc == CUnlocked then 1 else 0)
    ensures (threads[t].PWaited? || threads[t].PLocked? || threads[t].PNumbered?) ==> PendingPuts(threads) > 0
    ensures (threads[t].PStored? || threads[t].PAdvanced? || threads[t].PUnlocked?) ==> UnpostedPuts(threads) > 0
    ensures (threads[t].CWaited? || threads[t].CLocked? || threads[t].CTaken?) ==> PendingGets(threads) > 0
    ensures (threads[t].CCleared? || threads[t].CAdvanced? || threads[t].CUnlocked?) ==> UnpostedGets(threads) > 0
  {
    var next := NextPc(threads[t]);
    CountAfter(threads, t, next, PWaited, PLocked, PNumbered);
    CountAfter(threads, t, next, PStored, PAdvanced, PUnlocked);
    CountAfter(threads, t, next, CWaited, CLocked, CTaken);
    CountAfter(threads, t, next, CCleared, CAdvanced, CUnlocked);
  }

  /** Every step keeps the accounts. */
  lemma CountedAfter(n: nat, semEmpty: nat, semFull: nat, threads: seq<Pc>, items: nat, t: nat)
    requires Counted(n, semEmpty, semFull, threads, items) && t < |threads|
    requires (threads[t].PIdle? ==> semEmpty > 0) && (threads[t].CIdle? ==> semFull > 0)
    ensures threads[t].PNumbered? ==> items < n
    ensures threads[t].CLocked? || threads[t].CTaken? ==> items > 0
    ensures InCriticalSection(threads[t]) ==> n > 0
    ensures var pc := threads[t];
            Counted(n,
              if pc.PIdle? then semEmpty - 1 else if pc.CUnlocked? then semEmpty + 1 else semEmpty,
              if pc.CIdle? then semFull - 1 else if pc.PUnlocked? then semFull + 1 else semFull,
              Move(threads, t),
              if pc.PNumbered? then items + 1 else if pc.CTaken? then items - 1 else items)
  {
    hide Count;
    CountsAfter(threads, t);
  }

  lemma CountAfter<T>(s: seq<T>, t: nat, x: T, a: T, b: T, c: T)
    requires t < |s| && a != b && b != c && a != c
    ensures Count(s[t := x], a, b, c) == Count(s, a, b, c)
              + (if x == a || x == b || x == c then 1 else 0)
              - (if s[t] == a || s[t] == b || s[t] == c then 1 else 0)
    ensures s[t] == a || s[t] == b || s[t] == c ==> Count(s, a, b, c) > 0
  {
    Occurrences(s, t, x, a);
    Occurrences(s, t, x, b);
    Occurrences(s, t, x, c);
  }

  lemma Occurrences<T>(s: seq<T>, i: nat, x: T, a: T)
    requires i < |s|
    ensures multiset(s[i := x])[a] == multiset(s)[a] + (if x == a then 1 else 0) - (if s[i] == a then 1 else 0)
    ensures s[i] == a ==> multiset(s)[a] > 0
  {
    assert multiset(s[i := x]) == multiset(s) - multiset{s[i]} + multiset{x};
  }

  /** Only two program points delay a position. */
  lemma RingOwner(ring: seq<int>, head: nat, tail: nat, inPos: nat, outPos: nat, o1: Pc, o2: Pc)
    requires Ring(ring, head, tail, inPos, outPos, o1)
    requires (!o1.PStored? && !o1.CCleared?) && (!o2.PStored? && !o2.CCleared?)
    ensures Ring(ring, head, tail, inPos, outPos, o2)
  {
  }

  /** Moving the delayed position on. */
  lemma RingAdvance(ring: seq<int>, head: nat, tail: nat, inPos: nat, outPos: nat, owner: Pc)
    requires Ring(ring, head, tail, inPos, outPos, owner) && |ring| <= USHORT_RANGE
    ensures owner == PStored ==> Ring(ring, head, tail, Advance(inPos, |ring|), outPos, PAdvanced)
    ensures owner == CCleared ==> Ring(ring, head, tail, inPos, Advance(outPos, |ring|), CAdvanced)
  {
    hide Item, Slot, Advance;
    if owner == PStored { AdvanceSlot(tail - 1, |ring|); }
    if owner == CCleared { AdvanceSlot(head - 1, |ring|); }
  }

  /** Storing the next product in the slot of position tail. */
  lemma RingPut(ring: seq<int>, head: nat, tail: nat, inPos: nat, outPos: nat)
    requires Ring(ring, head, tail, inPos, outPos, PNumbered) && tail < head + |ring|
    ensures Ring(ring[inPos := Item(tail + 1)], head, tail + 1, inPos, outPos, PStored)
    ensures inPos < |ring| && ring[inPos] == -1
  {
    var n := |ring|;
    forall i | head <= i < head + n && i != tail ensures Slot(i, n) != inPos {
      if i < tail { SlotsDiffer(i, tail, n); } else { SlotsDiffer(tail, i, n); }
    }
  }

  /** Clearing the slot of position head. */
  lemma RingTake(ring: seq<int>, head: nat, tail: nat, inPos: nat, outPos: nat)
    requires Ring(ring, head, tail, inPos, outPos, CTaken) && head < tail
    ensures Ring(ring[outPos := -1], head + 1, tail, inPos, outPos, CCleared)
    ensures outPos < |ring| && ring[outPos] == Item(head + 1)
  {
    var n := |ring|;
    hide Item;
    forall i | head < i < head + n ensures Slot(i, n) != outPos {
      SlotsDiffer(head, i, n);
    }
    SlotNextTurn(head, n);
  }

  /** What a step of thread t does to the mutex. */
  function MutexAfter(pc: Pc, mutex: Option<nat>, t: nat): Option<nat> {
    match pc
    case PWaited => Some(t)
    case CWaited => Some(t)
    case PAdvanced => None
    case CAdvanced => None
    case _ => mutex
  }

  lemma ExclusiveAfter(threads: seq<Pc>, mutex: Option<nat>, t: nat)
    requires Exclusive(threads, mutex) && t < |threads|
    requires (threads[t].PWaited? || threads[t].CWaited?) ==> mutex.None?
    ensures var mutex' := MutexAfter(threads[t], mutex, t);
            && Exclusive(Move(threads, t), mutex')
            && (InCriticalSection(NextPc(threads[t])) ==> Owner(Move(threads, t), mutex') == NextPc(threads[t]))
            && (InCriticalSection(threads[t]) ==> Owner(threads, mutex) == threads[t])
            && (!InCriticalSection(NextPc(threads[t])) && !InCriticalSection(threads[t]) ==>
                  Owner(Move(threads, t), mutex') == Owner(threads, mutex))
            && (!InCriticalSection(NextPc(threads[t])) && InCriticalSection(threads[t]) ==>
                  Owner(Move(threads, t), mutex') == PIdle)
  {
  }

  /** What a wait or a post changes. */
  function SemEmptyChange(pc: Pc): int {
    if pc.PIdle? then -1 else if pc.CUnlocked? then 1 else 0
  }

  function SemFullChange(pc: Pc): int {
    if pc.CIdle? then -1 else if pc.PUnlocked? then 1 else 0
  }

  /** The slots after a step of a thread at `pc`. */
  ghost function StepStores(ring: seq<int>, pc: Pc, inPos: nat, outPos: nat, tail: nat): seq<int> {
    if pc == PNumbered && inPos < |ring| then ring[inPos := Item(tail)]
    else if pc == CTaken && outPos < |ring| then ring[outPos := -1]
    else ring
  }

  class Storage {
    const buffSize: nat
    const storage: array<int>
    var inPos: nat
    var outPos: nat
    var productNumber: nat
    var semFull: nat
    var semEmpty: nat
    var mutex: Option<nat>
    var threads: seq<Pc>
    /** The products that consumers have announced. */
    var consumed: seq<int>
    /** How many products have been taken out of, and put into, the ring so far. */
    ghost var head: nat
    ghost var tail: nat

    ghost predicate Valid()
      reads this, storage
    {
      && storage.Length == buffSize
      && (buffSize > 0 ==> inPos < buffSize && outPos < buffSize)
      && head <= tail
      && Counted(buffSize, semEmpty, semFull, threads, tail - head)
      && Exclusive(threads, mutex)
      && var owner := Owner(threads, mutex);
      && productNumber == Wrap(if owner == PNumbered then tail + 1 else tail)
      && (buffSize <= USHORT_RANGE ==>
            && (buffSize > 0 ==> Ring(storage[..], head, tail, inPos, outPos, owner))
            && consumed == Items(if owner == CTaken then head + 1 else head))
    }

    /** What the next take announces. */
    ghost function Front(): int
      reads this, storage
    {
      if outPos < storage.Length then storage[outPos] else -1
    }

    predicate Enabled(t: nat)
      requires t < |threads|
      reads this
    {
      match threads[t]
      case PIdle => semEmpty > 0
      case CIdle => semFull > 0
      case PWaited => mutex.None?
      case CWaited => mutex.None?
      case _ => true
    }

    constructor (size: nat, roles: seq<bool>)
      ensures Valid() && fresh(storage) && buffSize == size
      ensures |threads| == |roles| && consumed == [] && head == tail == 0 && inPos == outPos == 0
      ensures forall i :: 0 <= i < size ==> storage[i] == -1
      ensures forall t :: 0 <= t < |roles| ==> threads[t] == if roles[t] then PIdle else CIdle
    {
      buffSize := size;
      inPos, outPos, productNumber := 0, 0, 0;
      storage := new int[size](_ => -1);
      semFull, semEmpty, mutex := 0, size, None;
      threads := seq(|roles|, i requires 0 <= i < |roles| => if roles[i] then PIdle else CIdle);
      consumed, head, tail := [], 0, 0;
      new;
      NobodyInFlight(threads);
    }

    /** The facts that each step of thread t uses. */
    lemma BeforeStep(t: nat)
      requires Valid() && t < |threads| && Enabled(t)
      ensures var pc, next, mutex' := threads[t], Move(threads, t), MutexAfter(threads[t], mutex, t);
              && Exclusive(next, mutex')
              && Owner(next, mutex') == (if InCriticalSection(NextPc(pc)) then NextPc(pc)
                                         else if InCriticalSection(pc) then PIdle else Owner(threads, mutex))
      ensures InCriticalSection(threads[t]) ==> Owner(threads, mutex) == threads[t] && buffSize > 0
      ensures threads[t] == PWaited || threads[t] == CWaited ==> Owner(threads, mutex) == PIdle
      ensures threads[t] == PNumbered ==> tail < head + buffSize
      ensures threads[t] == CLocked || threads[t] == CTaken ==> head < tail
    {
      hide Ring, Counted, Exclusive, Items, Wrap;
      ExclusiveAfter(threads, mutex, t);
      CountedAfter(buffSize, semEmpty, semFull, threads, tail - head, t);
    }

    /** sem_wait and sem_post. */
    method SemaphoreStep(t: nat)
      requires Valid() && t < |threads| && Enabled(t)
      requires (threads[t].PIdle? || threads[t].PUnlocked? || threads[t].CIdle? || threads[t].CUnlocked?)
      modifies this`semEmpty, this`semFull, this`threads
      ensures Valid() && threads == Move(old(threads), t)
      ensures semEmpty == old(semEmpty) + SemEmptyChange(old(threads[t]))
      ensures semFull == old(semFull) + SemFullChange(old(threads[t]))
    {
      hide Ring, Exclusive, Counted, Owner, Items, Wrap, Move;
      BeforeStep(t);
      CountedAfter(buffSize, semEmpty, semFull, threads, tail - head, t);
      match threads[t] {
        case PIdle => semEmpty := semEmpty - 1;
        case PUnlocked => semFull := semFull + 1;
        case CIdle => semFull := semFull - 1;
        case CUnlocked => semEmpty := semEmpty + 1;
      }
      threads := Move(threads, t);
    }

    /** pthread_mutex_lock and pthread_mutex_unlock. */
    method MutexStep(t: nat)
      requires Valid() && t < |threads| && Enabled(t)
      requires (threads[t].PWaited? || threads[t].PAdvanced? || threads[t].CWaited? || threads[t].CAdvanced?)
      modifies this`mutex, this`threads
      ensures Valid() && threads == Move(old(threads), t)
      ensures mutex == if old(threads[t]).PWaited? || old(threads[t]).CWaited? then Some(t) else None
    {
      hide Ring, Exclusive, Counted, Owner;
      BeforeStep(t);
      CountedAfter(buffSize, semEmpty, semFull, threads, tail - head, t);
      ghost var owner := Owner(threads, mutex);
      mutex := MutexAfter(threads[t], mutex, t);
      threads := Move(threads, t);
      if 0 < buffSize <= USHORT_RANGE {
        RingOwner(storage[..], head, tail, inPos, outPos, owner, Owner(threads, mutex));
      }
    }

    /** A step between lock and unlock. */
    lemma InsideStep(t: nat, next: Pc)
      requires Valid() && t < |threads| && Enabled(t) && next == NextPc(threads[t])
      requires InCriticalSection(threads[t]) && InCriticalSection(next)
      ensures Exclusive(Move(threads, t), mutex)
      ensures Owner(threads, mutex) == threads[t] && Owner(Move(threads, t), mutex) == next
      ensures buffSize > 0
      ensures threads[t] == PNumbered ==> tail < head + buffSize
      ensures threads[t] == CLocked || threads[t] == CTaken ==> head < tail
      ensures Counted(buffSize, semEmpty, semFull, Move(threads, t),
                if threads[t] == PNumbered then tail + 1 - head
                else if threads[t] == CTaken then tail - head - 1 else tail - head)
    {
      hide Ring, Exclusive, Counted, Owner;
      BeforeStep(t);
      CountedAfter(buffSize, semEmpty, semFull, threads, tail - head, t);
    }

    /** ++product_number */
    method NumberProduct(t: nat)
      requires Valid() && t < |threads| && threads[t] == PLocked
      modifies this`productNumber, this`threads
      ensures Valid() && threads == Move(old(threads), t)
    {
      hide Ring, Exclusive, Counted, Owner, MutexAfter, Wrap, Item;
      InsideStep(t, PNumbered);
      NextNumber(tail);
      productNumber := Wrap(productNumber + 1);
      threads := Move(threads, t);
      if buffSize <= USHORT_RANGE {
        RingOwner(storage[..], head, tail, inPos, outPos, PLocked, PNumbered);
      }
    }

    /** m_storage[in] = product_number: the slot was empty, so nothing is overwritten. */
    method StoreProduct(t: nat)
      requires Valid() && t < |threads| && threads[t] == PNumbered
      modifies this`tail, this`threads, storage
      ensures Valid() && threads == Move(old(threads), t)
      ensures inPos < buffSize && (buffSize <= USHORT_RANGE ==> old(storage[inPos]) == -1)
      ensures tail == old(tail) + 1 && storage[..] == old(storage[..])[inPos := Item(tail)]
    {
      hide Exclusive, Counted, Owner, MutexAfter;
      InsideStep(t, PStored);
      if buffSize <= USHORT_RANGE {
        RingPut(storage[..], head, tail, inPos, outPos);
      }
      assert AsInt(productNumber) == Item(tail + 1);
      hide Ring, Items, Item, AsInt, Wrap;
      storage[inPos] := AsInt(productNumber);
      assert storage[..] == old(storage[..])[inPos := Item(tail + 1)];
      tail := tail + 1;
      threads := Move(threads, t);
    }

    /** in = (in + 1) % buffSize */
    method AdvanceIn(t: nat)
      requires Valid() && t < |threads| && threads[t] == PStored
      modifies this`inPos, this`threads
      ensures Valid() && threads == Move(old(threads), t)
      ensures buffSize > 0 && inPos == Advance(old(inPos), buffSize)
    {
      hide Ring, Exclusive, Counted, Owner, MutexAfter;
      InsideStep(t, PAdvanced);
      if buffSize <= USHORT_RANGE {
        RingAdvance(storage[..], head, tail, inPos, outPos, PStored);
      }
      inPos := Advance(inPos, buffSize);
      threads := Move(threads, t);
    }

    /** consume_id = m_storage[out]: the oldest product in the ring. */
    method TakeProduct(t: nat)
      requires Valid() && t < |threads| && threads[t] == CLocked
      modifies this`consumed, this`threads
      ensures Valid() && threads == Move(old(threads), t)
      ensures head < tail && outPos < buffSize && consumed == old(consumed) + [storage[outPos]]
      ensures buffSize <= USHORT_RANGE ==> storage[outPos] == Item(head + 1)
    {
      hide Exclusive, Counted, Owner, MutexAfter;
      InsideStep(t, CTaken);
      consumed := consumed + [storage[outPos]];
      threads := Move(threads, t);
      if buffSize <= USHORT_RANGE {
        RingOwner(storage[..], head, tail, inPos, outPos, CLocked, CTaken);
      }
    }

    /** m_storage[out] = -1 */
    method ClearSlot(t: nat)
      requires Valid() && t < |threads| && threads[t] == CTaken
      modifies this`head, this`threads, storage
      ensures Valid() && threads == Move(old(threads), t)
      ensures head == old(head) + 1 && outPos < buffSize && storage[..] == old(storage[..])[outPos := -1]
    {
      hide Exclusive, Counted, Owner, MutexAfter;
      InsideStep(t, CCleared);
      if buffSize <= USHORT_RANGE {
        RingTake(storage[..], head, tail, inPos, outPos);
      }
      hide Ring;
      storage[outPos] := -1;
      head := head + 1;
      threads := Move(threads, t);
    }

    /** out = (out + 1) % buffSize */
    method AdvanceOut(t: nat)
      requires Valid() && t < |threads| && threads[t] == CCleared
      modifies this`outPos, this`threads
      ensures Valid() && threads == Move(old(threads), t)
      ensures buffSize > 0 && outPos == Advance(old(outPos), buffSize)
    {
      hide Ring, Exclusive, Counted, Owner, MutexAfter;
      InsideStep(t, CAdvanced);
      if buffSize <= USHORT_RANGE {
        RingAdvance(storage[..], head, tail, inPos, outPos, CCleared);
      }
      outPos := Advance(outPos, buffSize);
      threads := Move(threads, t);
    }

    /** Runs the next atomic step of thread t, or finds that it blocks.  Between store and
        take the ring is a queue, up to 65536 slots: a store appends the next product, a take
        announces the oldest one. */
    method Step(t: nat) returns (ran: bool)
      requires Valid() && t < |threads|
      modifies this, storage
      ensures Valid() && ran == old(Enabled(t))
      ensures threads == if ran then Move(old(threads), t) else old(threads)
      ensures semEmpty == old(semEmpty) + if ran then SemEmptyChange(old(threads[t])) else 0
      ensures semFull == old(semFull) + if ran then SemFullChange(old(threads[t])) else 0
      ensures tail == old(tail) + if old(threads[t]) == PNumbered then 1 else 0
      ensures head == old(head) + if old(threads[t]) == CTaken then 1 else 0
      ensures consumed == old(consumed) + if old(threads[t]) == CLocked then [old(Front())] else []
      ensures buffSize <= USHORT_RANGE && old(threads[t]) == CLocked ==> old(Front()) == Item(old(head) + 1)
      ensures storage[..] == StepStores(old(storage[..]), old(threads[t]), old(inPos), old(outPos), tail)
      ensures inPos == if old(threads[t]) == PStored && buffSize > 0 then Advance(old(inPos), buffSize) else old(inPos)
      ensures outPos == if old(threads[t]) == CCleared && buffSize > 0 then Advance(old(outPos), buffSize) else old(outPos)
    {
      hide Ring, Exclusive, Counted, Item, Items;
      if !Enabled(t) {
        return false;
      }
      match threads[t] {
        case PLocked => NumberProduct(t);
        case PNumbered => StoreProduct(t);
        case PStored => AdvanceIn(t);
        case CLocked => TakeProduct(t);
        case CTaken => ClearSlot(t);
        case CCleared => AdvanceOut(t);
        case PIdle => SemaphoreStep(t);
        case PUnlocked => SemaphoreStep(t);
        case CIdle => SemaphoreStep(t);
        case CUnlocked => SemaphoreStep(t);
        case _ => MutexStep(t);
      }
      return true;
    }

    ghost predicate AllIdle()
      reads this`threads
    {
      forall t :: 0 <= t < |threads| ==> threads[t].PIdle? || threads[t].CIdle?
    }

    lemma IdleAccounts()
      requires Valid() && AllIdle()
      ensures semEmpty + tail - head == buffSize && semFull == tail - head
    {
      NobodyInFlight(threads);
    }

    lemma NoOwner()
      requires Valid() && forall t :: 0 <= t < |threads| ==> !InCriticalSection(threads[t])
      ensures mutex.None?
    {
    }

    /** Thread t is at pc, and the others are idle. */
    ghost predicate Alone(t: nat, pc: Pc)
      reads this`threads
    {
      && t < |threads| && threads[t] == pc
      && forall u :: 0 <= u < |threads| && u != t ==> threads[u].PIdle? || threads[u].CIdle?
    }

    lemma AloneRuns(t: nat, pc: Pc)
      requires Valid() && Alone(t, pc) && (pc == PIdle ==> tail < head + buffSize) && (pc == CIdle ==> head < tail)
      ensures Enabled(t)
    {
      if pc.PIdle? || pc.CIdle? {
        IdleAccounts();
      } else if pc.PWaited? || pc.CWaited? {
        NoOwner();
      }
    }

    /** A step of the only thread that is not idle. */
    method StepAlone(t: nat, ghost pc: Pc)
      requires Valid() && Alone(t, pc) && (pc == PIdle ==> tail < head + buffSize) && (pc == CIdle ==> head < tail)
      modifies this, storage
      ensures Valid() && Alone(t, NextPc(pc)) && |threads| == |old(threads)|
      ensures forall u :: 0 <= u < |threads| && u != t ==> threads[u] == old(threads)[u]
      ensures tail == (if pc == PNumbered then old(tail) + 1 else old(tail))
      ensures head == (if pc == CTaken then old(head) + 1 else old(head))
      ensures consumed == (if pc == CLocked then old(consumed) + [old(Front())] else old(consumed))
      ensures storage[..] == StepStores(old(storage[..]), pc, old(inPos), old(outPos), tail)
      ensures inPos == if pc == PStored && buffSize > 0 then Advance(old(inPos), buffSize) else old(inPos)
      ensures outPos == if pc == CCleared && buffSize > 0 then Advance(old(outPos), buffSize) else old(outPos)
    {
      hide Valid, StepStores, Advance, SemEmptyChange, SemFullChange, Item;
      AloneRuns(t, pc);
      var _ := Step(t);
    }

    /** A producer that runs through produce while the others are idle. */
    method ProduceAlone(t: nat)
      requires Valid() && Alone(t, PIdle) && tail < head + buffSize
      modifies this, storage
      ensures Valid() && Alone(t, PIdle) && |threads| == |old(threads)|
      ensures forall u :: 0 <= u < |threads| && u != t ==> threads[u] == old(threads)[u]
      ensures head == old(head) && tail == old(tail) + 1 && outPos == old(outPos) && consumed == old(consumed)
      ensures old(inPos) < buffSize && inPos == Advance(old(inPos), buffSize)
      ensures storage[..] == old(storage[..])[old(inPos) := Item(tail)]
    {
      InPosInside();
      hide Valid, Advance, Item;
      StoreAlone(t);
      AdvanceAlone(t);
    }

    /** The second half of produce. */
    method AdvanceAlone(t: nat)
      requires Valid() && Alone(t, PStored) && buffSize > 0
      modifies this, storage
      ensures Valid() && Alone(t, PIdle) && |threads| == |old(threads)|
      ensures forall u :: 0 <= u < |threads| && u != t ==> threads[u] == old(threads)[u]
      ensures head == old(head) && tail == old(tail) && outPos == old(outPos) && consumed == old(consumed)
      ensures inPos == Advance(old(inPos), buffSize) && storage[..] == old(storage[..])
    {
      hide Valid, Advance, Item;
      StepAlone(t, PStored);
      StepAlone(t, PAdvanced);
      StepAlone(t, PUnlocked);
    }

    /** The first half of produce, up to the store. */
    method StoreAlone(t: nat)
      requires Valid() && Alone(t, PIdle) && tail < head + buffSize && inPos < storage.Length
      modifies this, storage
      ensures Valid() && Alone(t, PStored) && |threads| == |old(threads)|
      ensures forall u :: 0 <= u < |threads| && u != t ==> threads[u] == old(threads)[u]
      ensures head == old(head) && tail == old(tail) + 1 && outPos == old(outPos) && consumed == old(consumed)
      ensures inPos == old(inPos) && storage[..] == old(storage[..])[inPos := Item(tail)]
    {
      hide Valid, Advance, Item;
      StepAlone(t, PIdle);
      StepAlone(t, PWaited);
      StepAlone(t, PLocked);
      StepAlone(t, PNumbered);
    }

    /** A consumer up to its announcement while the others are idle. */
    method TakeAlone(t: nat)
      requires Valid() && Alone(t, CIdle) && head < tail
      modifies this, storage
      ensures Valid() && consumed == old(consumed) + [old(Front())]
    {
      hide Valid, Advance, Item;
      StepAlone(t, CIdle);
      StepAlone(t, CWaited);
      StepAlone(t, CLocked);
    }

    lemma InPosInside()
      requires Valid() && buffSize > 0
      ensures inPos < buffSize == storage.Length
    {
    }

    /** With a slot, a producer and a consumer there is always a thread that can go on. */
    lemma NeverDeadlocked(p: nat, c: nat)
      requires Valid() && buffSize > 0
      requires p < |threads| && IsProducer(threads[p]) && c < |threads| && !IsProducer(threads[c])
      ensures exists t :: 0 <= t < |threads| && Enabled(t)
    {
      hide Ring, Count, Items;
      if mutex.Some? {
        assert Enabled(mutex.value);
      } else if forall t :: 0 <= t < |threads| ==> !Enabled(t) {
        Stuck(p);
        Stuck(c);
        forall t | 0 <= t < |threads| ensures (threads[t].PIdle? || threads[t].CIdle?) { Stuck(t); }
        NobodyInFlight(threads);
        assert false;
      }
    }

    lemma Stuck(t: nat)
      requires t < |threads| && Exclusive(threads, mutex) && mutex.None? && !Enabled(t)
      ensures threads[t] == (if IsProducer(threads[t]) then PIdle else CIdle)
      ensures if IsProducer(threads[t]) then semEmpty == 0 else semFull == 0
    {
    }
  }

  /** With more than 65536 slots the products of a run can be lost: one producer goes through
      produce 65537 times before the consumer comes, and what this announces first is the
      last product instead of the first. */
  method Overrun(size: nat) returns (schedule: seq<nat>, consumed: seq<int>)
    requires size > USHORT_RANGE
    ensures schedule == Repeat(7 * (USHORT_RANGE + 1), 0) + Repeat(3, 1)
    ensures consumed == [USHORT_RANGE + 1] && consumed != Items(|consumed|)
  {
    hide Item, Items, Storage.Valid, Repeat, Advance;
    var s := new Storage(size, [true, false]);
    schedule := [];
    RepeatNone(0);
    var i := 0;
    while i < USHORT_RANGE + 1
      invariant i <= USHORT_RANGE + 1 && fresh(s) && fresh(s.storage) && s.Valid() && s.buffSize == size
      invariant s.Alone(0, PIdle) && |s.threads| == 2 && s.threads[1] == CIdle
      invariant s.head == 0 && s.tail == i && s.consumed == [] && s.outPos == 0
      invariant s.inPos == i % USHORT_RANGE && s.storage.Length == size
      invariant i > 0 ==> s.storage[..][0] == Item(if i <= USHORT_RANGE then 1 else i)
      invariant schedule == Repeat(7 * i, 0)
    {
      RepeatMore(7 * i, 7, 0);
      PositionAfter(i, size);
      s.ProduceAlone(0);
      schedule := schedule + Repeat(7, 0);
      i := i + 1;
    }
    s.TakeAlone(1);
    schedule := schedule + Repeat(3, 1);
    consumed := s.consumed;
    ItemRange(USHORT_RANGE + 1);
    FirstItems();
  }

  lemma FirstItems()
    ensures Items(1) == [1]
  {
  }

  lemma RepeatNone(t: nat)
    ensures Repeat(0, t) == []
  {
  }

  lemma PositionAfter(i: nat, size: nat)
    requires i <= USHORT_RANGE < size
    ensures Advance(i % USHORT_RANGE, size) == (i + 1) % USHORT_RANGE
    ensures i % USHORT_RANGE == 0 <==> i == 0 || i == USHORT_RANGE
  {
    RemainderIs(i % USHORT_RANGE + 1, size, 0, i % USHORT_RANGE + 1);
  }

  function Repeat(n: nat, t: nat): seq<nat> {
    seq(n, _ => t)
  }

  lemma RepeatMore(m: nat, n: nat, t: nat)
    ensures Repeat(m, t) + Repeat(n, t) == Repeat(m + n, t)
  {
  }

  lemma NobodyInFlight(threads: seq<Pc>)
    requires forall t :: 0 <= t < |threads| ==> (threads[t].PIdle? || threads[t].CIdle?)
    ensures PendingPuts(threads) == UnpostedPuts(threads) == PendingGets(threads) == UnpostedGets(threads) == 0
  {
  }

  // ----- the width of the positions

  /** The position after k stores or takes. */
  function Position(k: nat, n: nat): nat
    requires n > 0
  {
    if k == 0 then 0 else Advance(Position(k - 1, n), n)
  }

  lemma {:induction false} PositionIsSlot(k: nat, n: nat)
    requires n > 0 && (n <= USHORT_RANGE || k < USHORT_RANGE)
    ensures Position(k, n) == Slot(k, n)
  {
    if k > 0 {
      PositionIsSlot(k - 1, n);
      SlotAfter(k - 1, n);
      if n > USHORT_RANGE {
        RemainderIs(k, n, 0, k);
      }
    } else {
      RemainderIs(0, n, 0, 0);
    }
  }

  /** The 16-bit positions keep the products that may wait in the ring apart exactly when
      the ring has at most 65536 slots; a larger one, which the semaphore would fill,
      overwrites its first product with the 65537th. */
  lemma PositionsApartIff(n: nat)
    requires n > 0
    ensures (forall i: nat, j: nat :: i < j < i + n ==> Position(i, n) != Position(j, n)) <==> n <= USHORT_RANGE
  {
    if n <= USHORT_RANGE {
      forall i: nat, j: nat | i < j < i + n ensures Position(i, n) != Position(j, n) {
        PositionIsSlot(i, n);
        PositionIsSlot(j, n);
        SlotsDiffer(i, j, n);
      }
    } else {
      PositionWraps(n, 0, USHORT_RANGE);
    }
  }

  lemma PositionWraps(n: nat, i: nat, j: nat)
    requires n > USHORT_RANGE && i == 0 && j == USHORT_RANGE
    ensures Position(i, n) == Position(j, n)
  {
    PositionIsSlot(j - 1, n);
    RemainderIs(j - 1, n, 0, j - 1);
    RemainderIs(j, n, 0, j);
  }
}
