/** Whole runs of the producer-consumer storage, told by how many steps each thread has done. */
module BufferRuns {
  import opened BoundedBuffer

  /** Where a thread stands after n steps of its loop. */
  function PcAfter(producer: bool, n: nat): Pc {
    match n % 7
    case 0 => if producer then PIdle else CIdle
    case 1 => if producer then PWaited else CWaited
    case 2 => if producer then PLocked else CLocked
    case 3 => if producer then PNumbered else CTaken
    case 4 => if producer then PStored else CCleared
    case 5 => if producer then PAdvanced else CAdvanced
    case _ => if producer then PUnlocked else CUnlocked
  }

  /** How often the producers, or the consumers, have together done the (7 - off)-th step of
      their loops. */
  function Rounds(roles: seq<bool>, steps: seq<nat>, producer: bool, off: nat): nat
    requires |roles| == |steps|
  {
    if roles == [] then 0
    else
      var n := |roles| - 1;
      Rounds(roles[..n], steps[..n], producer, off) + if roles[n] == producer then (steps[n] + off) / 7 else 0
  }

  /** Whether thread t can do its next step.  Waits on the semaphores: more slots have been
      there and posted than waited for, or more products posted than waited for.  The mutex is
      free when nobody is between the third and the sixth step. */
  predicate CanRun(size: nat, roles: seq<bool>, steps: seq<nat>, t: nat)
    requires |roles| == |steps| && t < |steps|
  {
    match steps[t] % 7
    case 0 =>
      if roles[t] then Rounds(roles, steps, true, 6) < size + Rounds(roles, steps, false, 0)
      else Rounds(roles, steps, false, 6) < Rounds(roles, steps, true, 0)
    case 1 => forall u :: 0 <= u < |steps| ==> !(2 <= steps[u] % 7 < 6)
    case _ => true
  }

  /** The steps that the threads have done before each entry of a schedule: an entry adds one
      to its thread exactly if this can go on. */
  ghost predicate Counts(size: nat, roles: seq<bool>, schedule: seq<nat>, steps: seq<seq<nat>>) {
    && 0 < |steps| <= |schedule| + 1
    && (forall k :: 0 <= k < |steps| ==> |steps[k]| == |roles|)
    && (forall t :: 0 <= t < |roles| ==> steps[0][t] == 0)
    && forall k :: 0 <= k < |steps| - 1 ==>
         && schedule[k] < |roles|
         && var before, t := steps[k], schedule[k];
            steps[k + 1] == if CanRun(size, roles, before, t) then before[t := before[t] + 1] else before
  }

  lemma {:induction false} RoundsAfter(roles: seq<bool>, steps: seq<nat>, t: nat, producer: bool, off: nat)
    requires |roles| == |steps| && t < |steps|
    ensures Rounds(roles, steps[t := steps[t] + 1], producer, off) ==
              Rounds(roles, steps, producer, off) + if roles[t] == producer && (steps[t] + off) % 7 == 6 then 1 else 0
  {
    var n := |roles| - 1;
    if t == n {
      assert steps[t := steps[t] + 1][..n] == steps[..n];
    } else {
      RoundsAfter(roles[..n], steps[..n], t, producer, off);
      assert steps[t := steps[t] + 1][..n] == steps[..n][t := steps[t] + 1];
    }
  }

  lemma {:induction false} NoRounds(roles: seq<bool>, producer: bool, off: nat)
    requires off < 7
    ensures Rounds(roles, seq(|roles|, _ => 0), producer, off) == 0
  {
    if roles != [] {
      var n := |roles| - 1;
      NoRounds(roles[..n], producer, off);
      assert seq(|roles|, _ => 0)[..n] == seq(n, _ => 0);
    }
  }

  /** The threads, the semaphores and the number of announcements are what the steps of the
      threads make of them. */
  ghost predicate Reached(threads: seq<Pc>, semEmpty: int, semFull: int, announced: nat,
                          size: nat, roles: seq<bool>, steps: seq<nat>) {
    && |steps| == |roles| == |threads|
    && (forall t :: 0 <= t < |roles| ==> threads[t] == PcAfter(roles[t], steps[t]))
    && semEmpty == size + Rounds(roles, steps, false, 0) - Rounds(roles, steps, true, 6)
    && semFull == Rounds(roles, steps, true, 0) - Rounds(roles, steps, false, 6)
    && announced == Rounds(roles, steps, false, 4)
  }

  lemma NextReached(threads: seq<Pc>, semEmpty: int, semFull: int, announced: nat,
                    size: nat, roles: seq<bool>, steps: seq<nat>, t: nat)
    requires Reached(threads, semEmpty, semFull, announced, size, roles, steps) && t < |steps|
    ensures Reached(Move(threads, t), semEmpty + SemEmptyChange(threads[t]), semFull + SemFullChange(threads[t]),
                    if threads[t] == CLocked then announced + 1 else announced, size, roles, steps[t := steps[t] + 1])
  {
    hide Rounds, PcAfter, NextPc, SemEmptyChange, SemFullChange;
    PcNext(roles[t], steps[t]);
    NextRounds(roles, steps, t);
    assert forall u :: 0 <= u < |roles| && u != t ==> Move(threads, t)[u] == threads[u];
  }

  /** What one more step of thread t changes in the totals. */
  lemma NextRounds(roles: seq<bool>, steps: seq<nat>, t: nat)
    requires |roles| == |steps| && t < |steps|
    ensures var pc, next := PcAfter(roles[t], steps[t]), steps[t := steps[t] + 1];
            && Rounds(roles, next, false, 0) - Rounds(roles, next, true, 6) ==
                 Rounds(roles, steps, false, 0) - Rounds(roles, steps, true, 6) + SemEmptyChange(pc)
            && Rounds(roles, next, true, 0) - Rounds(roles, next, false, 6) ==
                 Rounds(roles, steps, true, 0) - Rounds(roles, steps, false, 6) + SemFullChange(pc)
            && Rounds(roles, next, false, 4) == Rounds(roles, steps, false, 4) + if pc == CLocked then 1 else 0
  {
    hide Rounds, PcAfter, SemEmptyChange, SemFullChange;
    PcNext(roles[t], steps[t]);
    RoundsAfter(roles, steps, t, false, 0);
    RoundsAfter(roles, steps, t, false, 6);
    RoundsAfter(roles, steps, t, false, 4);
    RoundsAfter(roles, steps, t, true, 0);
    RoundsAfter(roles, steps, t, true, 6);
  }

  lemma PcNext(producer: bool, n: nat)
    ensures PcAfter(producer, n + 1) == NextPc(PcAfter(producer, n))
    ensures SemEmptyChange(PcAfter(producer, n)) ==
              if producer then (if (n + 6) % 7 == 6 then -1 else 0) else if n % 7 == 6 then 1 else 0
    ensures SemFullChange(PcAfter(producer, n)) ==
              if producer then (if n % 7 == 6 then 1 else 0) else if (n + 6) % 7 == 6 then -1 else 0
    ensures PcAfter(producer, n) == CLocked <==> !producer && (n + 4) % 7 == 6
  {
  }

  lemma EnabledIff(s: Storage, size: nat, roles: seq<bool>, steps: seq<nat>, t: nat)
    requires s.Valid() && Reached(s.threads, s.semEmpty, s.semFull, |s.consumed|, size, roles, steps) && t < |steps|
    ensures s.Enabled(t) <==> CanRun(size, roles, steps, t)
  {
    hide Ring, Counted, Rounds;
    forall u | 0 <= u < |steps| ensures InCriticalSection(s.threads[u]) <==> 2 <= steps[u] % 7 < 6 {
    }
    assert s.mutex.None? <==> forall u :: 0 <= u < |steps| ==> !InCriticalSection(s.threads[u]);
  }

  /** One entry of a schedule. */
  method Entry(s: Storage, t: nat, size: nat, roles: seq<bool>, ghost steps: seq<nat>) returns (ghost next: seq<nat>)
    requires s.Valid() && t < |steps| && Reached(s.threads, s.semEmpty, s.semFull, |s.consumed|, size, roles, steps)
    modifies s, s.storage
    ensures s.Valid() && |steps| == |roles|
    ensures next == if CanRun(size, roles, steps, t) then steps[t := steps[t] + 1] else steps
    ensures Reached(s.threads, s.semEmpty, s.semFull, |s.consumed|, size, roles, next)
  {
    EnabledIff(s, size, roles, steps, t);
    NextReached(s.threads, s.semEmpty, s.semFull, |s.consumed|, size, roles, steps, t);
    SameLength(s, size, roles, steps);
    hide Reached, CanRun, Storage.Valid, StepStores, Advance, SemEmptyChange, SemFullChange, Move, Item, Rounds, PcAfter;
    ghost var takes := s.threads[t] == CLocked;
    ghost var announced := |s.consumed|;
    var ran := s.Step(t);
    assert |s.consumed| == if takes then announced + 1 else announced;
    next := if ran then steps[t := steps[t] + 1] else steps;
  }

  lemma SameLength(s: Storage, size: nat, roles: seq<bool>, steps: seq<nat>)
    requires Reached(s.threads, s.semEmpty, s.semFull, |s.consumed|, size, roles, steps)
    ensures |steps| == |roles| == |s.threads|
  {
  }

  /** Any number of producers and consumers under any schedule: which entries of the schedule
      run, and how many products are announced, is told by the steps of the threads alone.  What
      the consumers announce is the products, each once and in order.  The empty mark is not
      announced before the 32-bit counter reaches it. */
  method Run(size: nat, roles: seq<bool>, schedule: seq<nat>) returns (consumed: seq<int>, ghost steps: seq<seq<nat>>)
    requires forall k :: 0 <= k < |schedule| ==> schedule[k] < |roles|
    ensures |steps| == |schedule| + 1 && Counts(size, roles, schedule, steps)
    ensures |consumed| == Rounds(roles, steps[|schedule|], false, 4)
    ensures size <= USHORT_RANGE ==> consumed == Items(|consumed|)
    ensures size <= USHORT_RANGE && |consumed| < 0x8000_0000 ==>
              forall k :: 0 <= k < |consumed| ==> consumed[k] == k + 1
  {
    hide Storage.Valid, Reached, CanRun, Counts, Rounds, Items;
    var s := new Storage(size, roles);
    steps := [seq(|roles|, _ => 0)];
    StartReached(s, size, roles);
    StartCounts(size, roles, schedule);
    var i := 0;
    while i < |schedule|
      invariant i <= |schedule| && fresh(s) && fresh(s.storage) && s.Valid() && s.buffSize == size
      invariant |steps| == i + 1 && Counts(size, roles, schedule, steps)
      invariant Reached(s.threads, s.semEmpty, s.semFull, |s.consumed|, size, roles, steps[i])
    {
      CountsLength(size, roles, schedule, steps, i);
      ghost var next := Entry(s, schedule[i], size, roles, steps[i]);
      LongerCounts(size, roles, schedule, steps, next);
      steps := steps + [next];
      i := i + 1;
    }
    consumed := s.consumed;
    Announced(s, size, roles, steps[i]);
  }

  lemma Announced(s: Storage, size: nat, roles: seq<bool>, steps: seq<nat>)
    requires s.Valid() && Reached(s.threads, s.semEmpty, s.semFull, |s.consumed|, size, roles, steps)
    ensures |steps| == |roles| && |s.consumed| == Rounds(roles, steps, false, 4)
    ensures s.buffSize <= USHORT_RANGE ==> s.consumed == Items(|s.consumed|)
    ensures s.buffSize <= USHORT_RANGE && |s.consumed| < 0x8000_0000 ==>
              forall k :: 0 <= k < |s.consumed| ==> s.consumed[k] == k + 1
  {
    hide Ring, Counted, Exclusive, Rounds, Item;
    forall k | s.buffSize <= USHORT_RANGE && 0 <= k < |s.consumed| && k + 1 < 0x8000_0000
      ensures s.consumed[k] == k + 1
    {
      ItemRange(k + 1);
    }
  }

  lemma StartCounts(size: nat, roles: seq<bool>, schedule: seq<nat>)
    ensures Counts(size, roles, schedule, [seq(|roles|, _ => 0)])
  {
  }

  lemma CountsLength(size: nat, roles: seq<bool>, schedule: seq<nat>, steps: seq<seq<nat>>, k: nat)
    requires Counts(size, roles, schedule, steps) && k < |steps|
    ensures |steps[k]| == |roles|
  {
  }

  lemma LongerCounts(size: nat, roles: seq<bool>, schedule: seq<nat>, steps: seq<seq<nat>>, next: seq<nat>)
    requires Counts(size, roles, schedule, steps) && |steps| <= |schedule| && schedule[|steps| - 1] < |roles|
    requires var before, t := steps[|steps| - 1], schedule[|steps| - 1];
             |before| == |roles| && next == if CanRun(size, roles, before, t) then before[t := before[t] + 1] else before
    ensures Counts(size, roles, schedule, steps + [next])
  {
    hide CanRun;
  }

  lemma StartReached(s: Storage, size: nat, roles: seq<bool>)
    requires s.Valid() && s.buffSize == size && s.consumed == [] && s.head == s.tail == 0 && |s.threads| == |roles|
    requires forall t :: 0 <= t < |roles| ==> s.threads[t] == if roles[t] then PIdle else CIdle
    ensures Reached(s.threads, s.semEmpty, s.semFull, |s.consumed|, size, roles, seq(|roles|, _ => 0))
  {
    NoRounds(roles, false, 0);
    NoRounds(roles, false, 6);
    NoRounds(roles, false, 4);
    NoRounds(roles, true, 0);
    NoRounds(roles, true, 6);
    s.IdleAccounts();
  }
}
