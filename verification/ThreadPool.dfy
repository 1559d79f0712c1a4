/** The thread pool: appenders push requests on a bounded queue and post a semaphore, workers
    wait on it and pop.  Push and post, and wait and pop, are separate atomic steps, and the
    scheduler picks whose next step runs. */
module ThreadPool {
  import opened Wrappers

  /** A pointer to a request; None is the null pointer, which append accepts. */
  type Request = Option<nat>

  /** The point a thread has reached, named after the last step it did, with the request
      that it holds.  A are the threads that call append, W the workers. */
  datatype Pc =
    | AIdle | ALocked(request: Request) | ARefused | APushed | APosting
    | WIdle | WReady | WWaited | WLocked | WEmpty | WTaken(request: Request) | WUnlocked(request: Request) | WExited

  predicate InCriticalSection(pc: Pc) {
    pc.ALocked? || pc.ARefused? || pc.APushed? || pc.WLocked? || pc.WEmpty? || pc.WTaken?
  }

  predicate IsAppender(pc: Pc) {
    pc.AIdle? || pc.ALocked? || pc.ARefused? || pc.APushed? || pc.APosting?
  }

  /** A push that is not posted yet, or a wait that has not popped yet. */
  function Outstanding(pc: Pc): nat {
    if pc.APushed? || pc.APosting? || pc.WWaited? || pc.WLocked? then 1 else 0
  }

  /** The request that a worker has popped and not finished. */
  function Held(pc: Pc): multiset<Request> {
    if pc.WTaken? || pc.WUnlocked? then multiset{pc.request} else multiset{}
  }

  ghost function OutstandingCount(threads: seq<Pc>): nat {
    if threads == [] then 0
    else OutstandingCount(threads[..|threads| - 1]) + Outstanding(threads[|threads| - 1])
  }

  ghost function InFlight(threads: seq<Pc>): multiset<Request> {
    if threads == [] then multiset{} else InFlight(threads[..|threads| - 1]) + Held(threads[|threads| - 1])
  }

  /** Changing one thread changes the two totals by that thread. */
  lemma {:induction false} OutstandingAfter(threads: seq<Pc>, t: nat, pc: Pc)
    requires t < |threads|
    ensures OutstandingCount(threads[t := pc]) == OutstandingCount(threads) - Outstanding(threads[t]) + Outstanding(pc)
    ensures OutstandingCount(threads) >= Outstanding(threads[t])
  {
    var n := |threads| - 1;
    if t == n {
      assert threads[t := pc][..n] == threads[..n];
    } else {
      OutstandingAfter(threads[..n], t, pc);
      assert threads[t := pc][..n] == threads[..n][t := pc];
    }
  }

  lemma {:induction false} InFlightAfter(threads: seq<Pc>, t: nat, pc: Pc)
    requires t < |threads|
    ensures InFlight(threads[t := pc]) == InFlight(threads) - Held(threads[t]) + Held(pc)
    ensures Held(threads[t]) <= InFlight(threads)
  {
    hide Held;
    var n := |threads| - 1;
    if t == n {
      assert threads[t := pc][..n] == threads[..n];
    } else {
      InFlightAfter(threads[..n], t, pc);
      assert threads[t := pc][..n] == threads[..n][t := pc];
      Rebalance(InFlight(threads[..n]), Held(threads[t]), Held(pc), Held(threads[n]));
    }
  }

  lemma Rebalance<T>(a: multiset<T>, out: multiset<T>, in_: multiset<T>, rest: multiset<T>)
    requires out <= a
    ensures a - out + in_ + rest == a + rest - out + in_
  {
  }

  /** Threads that hold nothing. */
  lemma {:induction false} NoTotals(threads: seq<Pc>)
    requires forall t :: 0 <= t < |threads| ==> Outstanding(threads[t]) == 0 && Held(threads[t]) == multiset{}
    ensures OutstandingCount(threads) == 0 && InFlight(threads) == multiset{}
  {
    if threads != [] {
      NoTotals(threads[..|threads| - 1]);
    }
  }

  lemma NobodyAtWork(threads: seq<Pc>)
    requires forall t :: 0 <= t < |threads| ==> threads[t].WIdle? || threads[t].AIdle?
    ensures OutstandingCount(threads) == 0 && InFlight(threads) == multiset{}
  {
    NoTotals(threads);
  }

  /** The requests that are processed: the null ones are skipped. */
  function Processed(finished: seq<Request>): seq<nat> {
    if finished == [] then []
    else
      var last := finished[|finished| - 1];
      Processed(finished[..|finished| - 1]) + if last.Some? then [last.value] else []
  }

  lemma ProcessedAfter(finished: seq<Request>, request: Request)
    ensures Processed(finished + [request]) == Processed(finished) + if request.Some? then [request.value] else []
  {
    assert (finished + [request])[..|finished|] == finished;
  }

  /** A request is processed as often as it was finished. */
  lemma {:induction false} ProcessedOccurrences(finished: seq<Request>, r: nat)
    ensures multiset(Processed(finished))[r] == multiset(finished)[Some(r)]
  {
    if finished != [] {
      var n := |finished| - 1;
      ProcessedOccurrences(finished[..n], r);
      assert finished == finished[..n] + [finished[n]];
    }
  }

  /** The mutex is held by the one thread in the critical section. */
  ghost predicate Exclusive(threads: seq<Pc>, mutex: Option<nat>) {
    && (mutex.Some? ==> mutex.value < |threads|)
    && forall t :: 0 <= t < |threads| ==> (InCriticalSection(threads[t]) <==> mutex == Some(t))
  }

  /** The queue holds exactly the requests of the posted units and of the pushes and waits on
      their way, so the branch for an empty queue is never taken. */
  ghost predicate Counted(queue: seq<Request>, queuestat: nat, maxRequests: nat, threads: seq<Pc>) {
    && |queue| == queuestat + OutstandingCount(threads)
    && |queue| <= maxRequests + 1
    && forall t :: 0 <= t < |threads| ==> threads[t] != WEmpty
  }

  /** Requests leave the queue in the order of arrival, and each that has left is either
      finished or with a worker. */
  ghost predicate Conserved(accepted: seq<Request>, queue: seq<Request>, popped: seq<Request>,
                            finished: seq<Request>, threads: seq<Pc>)
  {
    && accepted == popped + queue
    && multiset(popped) == multiset(finished) + InFlight(threads)
  }

  lemma ConservedControl(accepted: seq<Request>, queue: seq<Request>, popped: seq<Request>, finished: seq<Request>,
                         threads: seq<Pc>, t: nat, pc: Pc)
    requires Conserved(accepted, queue, popped, finished, threads)
    requires t < |threads| && Held(pc) == Held(threads[t])
    ensures Conserved(accepted, queue, popped, finished, threads[t := pc])
  {
    hide Held, InFlight;
    InFlightAfter(threads, t, pc);
  }

  lemma ConservedPop(accepted: seq<Request>, queue: seq<Request>, popped: seq<Request>, finished: seq<Request>,
                     threads: seq<Pc>, t: nat)
    requires Conserved(accepted, queue, popped, finished, threads)
    requires t < |threads| && Held(threads[t]) == multiset{} && queue != []
    ensures Conserved(accepted, queue[1..], popped + [queue[0]], finished, threads[t := WTaken(queue[0])])
    ensures |popped| < |accepted| && accepted[|popped|] == queue[0]
  {
    hide InFlight;
    InFlightAfter(threads, t, WTaken(queue[0]));
    assert popped + queue == popped + [queue[0]] + queue[1..];
  }

  lemma ConservedFinish(accepted: seq<Request>, queue: seq<Request>, popped: seq<Request>, finished: seq<Request>,
                        threads: seq<Pc>, t: nat)
    requires Conserved(accepted, queue, popped, finished, threads)
    requires t < |threads| && threads[t].WUnlocked?
    ensures Conserved(accepted, queue, popped, finished + [threads[t].request], threads[t := WIdle])
  {
    hide InFlight;
    InFlightAfter(threads, t, WIdle);
  }

  lemma FinishKeeps(queue: seq<Request>, queuestat: nat, maxRequests: nat, threads: seq<Pc>, mutex: Option<nat>, t: nat)
    requires Counted(queue, queuestat, maxRequests, threads) && Exclusive(threads, mutex)
    requires t < |threads| && threads[t].WUnlocked?
    ensures Counted(queue, queuestat, maxRequests, threads[t := WIdle]) && Exclusive(threads[t := WIdle], mutex)
  {
    hide OutstandingCount;
    OutstandingAfter(threads, t, WIdle);
  }

  lemma AfterControlHolds(pc: Pc, request: Request, stop: bool)
    requires AfterControl(pc, request, stop) != pc
    ensures Held(AfterControl(pc, request, stop)) == Held(pc)
    ensures Outstanding(AfterControl(pc, request, stop)) == Outstanding(pc)
    ensures AfterControl(pc, request, stop) != WEmpty
  {
  }

  /** What the thread does at a lock, an unlock or a test of m_stop. */
  function AfterControl(pc: Pc, request: Request, stop: bool): Pc {
    match pc
    case AIdle => ALocked(request)
    case ARefused => AIdle
    case APushed => APosting
    case WIdle => if stop then WExited else WReady
    case WWaited => WLocked
    case WEmpty => WIdle
    case WTaken(r) => WUnlocked(r)
    case _ => pc
  }

  class Pool {
    const maxRequests: nat
    var workqueue: seq<Request>
    var queuestat: nat
    var mutex: Option<nat>
    var stop: bool
    var threads: seq<Pc>
    /** The requests that workers have processed. */
    var processed: seq<nat>
    /** The requests accepted by append, popped by a worker, and done with by a worker. */
    ghost var accepted: seq<Request>
    ghost var popped: seq<Request>
    ghost var finished: seq<Request>
    /** The steps that were asked for so far. */
    ghost var history: seq<(nat, Request)>

    ghost predicate Valid()
      reads this
    {
      && Counted(workqueue, queuestat, maxRequests, threads)
      && Conserved(accepted, workqueue, popped, finished, threads)
      && Exclusive(threads, mutex)
      && processed == Processed(finished)
    }

    constructor (threadNumber: nat, maxRequests: nat, appenders: nat)
      requires threadNumber > 0 && maxRequests > 0
      ensures Valid() && this.maxRequests == maxRequests && !stop
      ensures |threads| == threadNumber + appenders && accepted == [] && processed == [] && history == []
      ensures forall t :: 0 <= t < |threads| ==> threads[t] == if t < threadNumber then WIdle else AIdle
    {
      this.maxRequests := maxRequests;
      workqueue, queuestat, mutex, stop := [], 0, None, false;
      threads := seq(threadNumber + appenders, t => if t < threadNumber then WIdle else AIdle);
      processed, accepted, popped, finished, history := [], [], [], [], [];
      new;
      hide Held, Outstanding, InFlight;
      NobodyAtWork(threads);
    }

    predicate Enabled(t: nat)
      requires t < |threads|
      reads this`threads, this`mutex, this`queuestat
    {
      match threads[t]
      case AIdle => mutex.None?
      case WWaited => mutex.None?
      case WReady => queuestat > 0
      case WExited => false
      case _ => true
    }

    /** Locking and unlocking, and the test of m_stop: nothing but the thread moves. */
    method ControlStep(t: nat, request: Request)
      requires Valid() && t < |threads| && Enabled(t)
      requires AfterControl(threads[t], request, stop) != threads[t]
      modifies this`mutex, this`threads
      ensures Valid() && threads == old(threads)[t := AfterControl(old(threads[t]), request, stop)]
      ensures mutex == if old(threads[t]).AIdle? || old(threads[t]).WWaited? then Some(t)
                       else if old(threads[t]).WIdle? then old(mutex) else None
    {
      hide OutstandingCount, Conserved, Held, Outstanding;
      var next := AfterControl(threads[t], request, stop);
      AfterControlHolds(threads[t], request, stop);
      OutstandingAfter(threads, t, next);
      ConservedControl(accepted, workqueue, popped, finished, threads, t, next);
      if InCriticalSection(next) {
        mutex := Some(t);
      } else if InCriticalSection(threads[t]) {
        mutex := None;
      }
      threads := threads[t := next];
    }

    /** The size test of append and the push that follows it. */
    method Push(t: nat)
      requires Valid() && t < |threads| && threads[t].ALocked?
      modifies this`workqueue, this`threads, this`accepted
      ensures Valid()
      ensures var request := old(threads[t].request);
              if old(|workqueue|) > maxRequests
              then threads == old(threads)[t := ARefused] && workqueue == old(workqueue) && accepted == old(accepted)
              else threads == old(threads)[t := APushed] && workqueue == old(workqueue) + [request]
                   && accepted == old(accepted) + [request]
    {
      hide OutstandingCount, InFlight;
      var next := if |workqueue| > maxRequests then ARefused else APushed;
      OutstandingAfter(threads, t, next);
      ConservedControl(accepted, workqueue, popped, finished, threads, t, next);
      if |workqueue| <= maxRequests {
        workqueue := workqueue + [threads[t].request];
        accepted := accepted + [threads[t].request];
      }
      threads := threads[t := next];
    }

    /** sem_post and sem_wait. */
    method SemaphoreStep(t: nat)
      requires Valid() && t < |threads| && Enabled(t) && (threads[t].APosting? || threads[t].WReady?)
      modifies this`queuestat, this`threads
      ensures Valid()
      ensures threads == old(threads)[t := if old(threads[t]).APosting? then AIdle else WWaited]
      ensures queuestat == if old(threads[t]).APosting? then old(queuestat) + 1 else old(queuestat) - 1
    {
      hide OutstandingCount, Conserved;
      var next := if threads[t].APosting? then AIdle else WWaited;
      OutstandingAfter(threads, t, next);
      ConservedControl(accepted, workqueue, popped, finished, threads, t, next);
      if threads[t].APosting? {
        queuestat := queuestat + 1;
      } else {
        queuestat := queuestat - 1;
      }
      threads := threads[t := next];
    }

    /** A worker that has waited finds a request, and it is the oldest one. */
    lemma QueueNotEmpty(t: nat)
      requires Valid() && t < |threads| && (threads[t].WWaited? || threads[t].WLocked?)
      ensures workqueue != [] && |popped| < |accepted| && accepted[|popped|] == workqueue[0]
    {
      OutstandingAfter(threads, t, WIdle);
    }

    /** The test for an empty queue, and the pop of the front. */
    method Pop(t: nat)
      requires Valid() && t < |threads| && threads[t].WLocked?
      modifies this`workqueue, this`threads, this`popped
      ensures Valid() && |old(popped)| < |accepted|
      ensures threads == old(threads)[t := WTaken(accepted[|old(popped)|])]
      ensures popped == old(popped) + [accepted[|old(popped)|]]
      ensures old(workqueue) != [] && workqueue == old(workqueue)[1..]
      ensures accepted[|old(popped)|] == old(workqueue)[0]
    {
      hide OutstandingCount, Conserved;
      QueueNotEmpty(t);
      if workqueue == [] {
        assert false;
      }
      var request := workqueue[0];
      OutstandingAfter(threads, t, WTaken(request));
      ConservedPop(accepted, workqueue, popped, finished, threads, t);
      workqueue := workqueue[1..];
      popped := popped + [request];
      threads := threads[t := WTaken(request)];
    }

    /** The test for a null request, and process. */
    method Process(t: nat)
      requires Valid() && t < |threads| && threads[t].WUnlocked?
      modifies this`threads, this`processed, this`finished
      ensures Valid() && threads == old(threads)[t := WIdle]
      ensures finished == old(finished) + [old(threads[t].request)]
      ensures var request := old(threads[t].request);
              processed == old(processed) + if request.Some? then [request.value] else []
    {
      var request := threads[t].request;
      hide Counted, Exclusive, Conserved, Processed;
      FinishKeeps(workqueue, queuestat, maxRequests, threads, mutex, t);
      ConservedFinish(accepted, workqueue, popped, finished, threads, t);
      ProcessedAfter(finished, request);
      if request.Some? {
        processed := processed + [request.value];
      }
      finished := finished + [request];
      threads := threads[t := WIdle];
    }

    /** A step of append. */
    method AppenderStep(t: nat, request: Request)
      requires Valid() && t < |threads| && Enabled(t) && IsAppender(threads[t])
      modifies this`workqueue, this`queuestat, this`mutex, this`threads, this`accepted
      ensures Valid() && |threads| == |old(threads)| && threads == old(threads)[t := threads[t]] && IsAppender(threads[t])
      ensures threads[t] == match old(threads[t])
                            case AIdle => ALocked(request)
                            case ALocked(_) => if old(|workqueue|) > maxRequests then ARefused else APushed
                            case APushed => APosting
                            case _ => AIdle
      ensures accepted == old(accepted) + if threads[t].APushed? then [old(threads[t]).request] else []
      ensures queuestat == if old(threads[t]).APosting? then old(queuestat) + 1 else old(queuestat)
      ensures mutex == if threads[t].ALocked? then Some(t)
                       else if old(threads[t]).ARefused? || old(threads[t]).APushed? then None else old(mutex)
    {
      hide Counted, Conserved, Exclusive;
      if threads[t].ALocked? {
        Push(t);
      } else if threads[t].APosting? {
        SemaphoreStep(t);
      } else {
        ControlStep(t, request);
      }
    }

    /** A step of run. */
    method WorkerStep(t: nat)
      requires Valid() && t < |threads| && Enabled(t) && !IsAppender(threads[t])
      modifies this`workqueue, this`queuestat, this`mutex, this`threads, this`popped, this`finished, this`processed
      ensures Valid() && |threads| == |old(threads)| && threads == old(threads)[t := threads[t]] && !IsAppender(threads[t])
      ensures old(threads[t]).WLocked? ==> |old(popped)| < |accepted| && threads[t] == WTaken(accepted[|old(popped)|])
      ensures !old(threads[t]).WLocked? ==>
                threads[t] == match old(threads[t])
                              case WIdle => if stop then WExited else WReady
                              case WReady => WWaited
                              case WWaited => WLocked
                              case WTaken(request) => WUnlocked(request)
                              case _ => WIdle
      ensures popped == old(popped) + if threads[t].WTaken? then [threads[t].request] else []
      ensures finished == old(finished) + if old(threads[t]).WUnlocked? then [old(threads[t]).request] else []
      ensures processed == old(processed) + if old(threads[t]).WUnlocked? && old(threads[t]).request.Some?
                                            then [old(threads[t]).request.value] else []
      ensures queuestat == old(queuestat) - if old(threads[t]).WReady? then 1 else 0
      ensures mutex == if threads[t].WLocked? then Some(t)
                       else if old(threads[t]).WTaken? || old(threads[t]).WEmpty? then None else old(mutex)
    {
      hide Counted, Conserved, Exclusive;
      if threads[t].WReady? {
        SemaphoreStep(t);
      } else if threads[t].WLocked? {
        Pop(t);
      } else if threads[t].WUnlocked? {
        Process(t);
      } else {
        ControlStep(t, None);
      }
    }

    /** Runs the next atomic step of thread t, or finds that it blocks; `request` is what an
        idle appender is called with.  Requests are popped in the order in which they were
        accepted, each once, and what a worker has popped it processes. */
    method Step(t: nat, request: Request) returns (ran: bool)
      requires Valid() && t < |threads|
      modifies this
      ensures Valid() && ran == old(Enabled(t)) && stop == old(stop) && |threads| == old(|threads|)
      ensures threads == old(threads)[t := threads[t]] && (ran <==> threads[t] != old(threads[t]))
      ensures history == old(history) + [(t, request)]
      // what thread t does
      ensures old(threads[t]).WLocked? ==> |old(popped)| < |accepted| && threads[t] == WTaken(accepted[|old(popped)|])
      ensures ran && !old(threads[t]).WLocked? ==>
                threads[t] == match old(threads[t])
                              case AIdle => ALocked(request)
                              case ALocked(_) => if old(|workqueue|) > maxRequests then ARefused else APushed
                              case ARefused => AIdle
                              case APushed => APosting
                              case APosting => AIdle
                              case WIdle => if stop then WExited else WReady
                              case WReady => WWaited
                              case WWaited => WLocked
                              case WTaken(taken) => WUnlocked(taken)
                              case _ => WIdle
      // the semaphore, the mutex and the queue
      ensures queuestat == old(queuestat) + if !ran then 0 else
                             if old(threads[t]).APosting? then 1 else if old(threads[t]).WReady? then -1 else 0
      ensures mutex == if !ran then old(mutex) else if threads[t].ALocked? || threads[t].WLocked? then Some(t)
                       else if InCriticalSection(threads[t]) || !InCriticalSection(old(threads[t])) then old(mutex) else None
      ensures accepted == old(accepted) + if threads[t].APushed? then [old(threads[t]).request] else []
      ensures popped == old(popped) + if threads[t].WTaken? then [threads[t].request] else []
      ensures |popped| <= |accepted| && workqueue == accepted[|popped|..]
      // what becomes of a request
      ensures finished == old(finished) + if old(threads[t]).WUnlocked? then [old(threads[t]).request] else []
      ensures processed == old(processed) + if old(threads[t]).WUnlocked? && old(threads[t]).request.Some?
                                            then [old(threads[t]).request.value] else []
    {
      hide Counted, Conserved, Exclusive, Processed, Held, Outstanding;
      QueueIs();
      history := history + [(t, request)];
      if !Enabled(t) {
        return false;
      }
      if IsAppender(threads[t]) {
        AppenderStep(t, request);
      } else {
        WorkerStep(t);
      }
      QueueIs();
      return true;
    }

    /** The queue holds what was accepted and not popped yet. */
    lemma QueueIs()
      requires Valid()
      ensures |popped| <= |accepted| && workqueue == accepted[|popped|..]
    {
    }

    /** A thread that stands still for good: an appender with nothing to append, or a worker
        that waits for a unit or has left. */
    ghost predicate Resting(t: nat)
      requires t < |threads|
      reads this`threads, this`queuestat
    {
      threads[t].AIdle? || threads[t].WExited? || (threads[t].WReady? && queuestat == 0)
    }

    /** Some thread can go on, without a new call of append, unless all of them rest. */
    lemma SomeoneCanStep(t: nat)
      requires Valid() && t < |threads| && !Resting(t)
      ensures exists u :: 0 <= u < |threads| && Enabled(u) && !threads[u].AIdle?
    {
      assert mutex.None? || (Enabled(mutex.value) && !threads[mutex.value].AIdle?);
      assert mutex.None? ==> Enabled(t);
    }

    /** No wakeup is lost: when all threads rest and some worker is still waiting, the queue
        is empty and every accepted request has been finished exactly as often as it was
        accepted. */
    lemma NoLostWakeup(w: nat)
      requires Valid() && w < |threads| && threads[w].WReady?
      requires forall t :: 0 <= t < |threads| ==> Resting(t)
      ensures workqueue == [] && multiset(finished) == multiset(accepted)
      ensures forall r :: multiset(processed)[r] == multiset(accepted)[Some(r)]
    {
      assert Resting(w);
      forall t | 0 <= t < |threads|
        ensures Outstanding(threads[t]) == 0 && Held(threads[t]) == multiset{}
      {
        assert Resting(t);
      }
      NoTotals(threads);
      assert popped == accepted;
      forall r ensures multiset(processed)[r] == multiset(accepted)[Some(r)] {
        ProcessedOccurrences(finished, r);
      }
    }
  }

  /** How many steps a thread does at most before it rests, and what it sets off with a post. */
  function Weight(pc: Pc): nat {
    match pc
    case AIdle => 0
    case ALocked(_) => 9
    case ARefused => 1
    case APushed => 8
    case APosting => 7
    case WIdle => 1
    case WReady => 0
    case WWaited => 5
    case WLocked => 4
    case WEmpty => 2
    case WTaken(_) => 3
    case WUnlocked(_) => 2
    case WExited => 0
  }

  ghost function Work(threads: seq<Pc>): nat {
    if threads == [] then 0 else Work(threads[..|threads| - 1]) + Weight(threads[|threads| - 1])
  }

  lemma {:induction false} WorkAfter(threads: seq<Pc>, t: nat, pc: Pc)
    requires t < |threads|
    ensures Work(threads[t := pc]) == Work(threads) - Weight(threads[t]) + Weight(pc)
  {
    hide Weight;
    var n := |threads| - 1;
    if t == n {
      assert threads[t := pc][..n] == threads[..n];
    } else {
      WorkAfter(threads[..n], t, pc);
      assert threads[t := pc][..n] == threads[..n][t := pc];
    }
  }

  /** Lets the threads of a pool run, without new calls of append, as long as one can.  Whichever
      is picked each time, the pool comes to rest, and then every accepted request has been
      processed as often as it was accepted. */
  method Settle(pool: Pool, worker: nat)
    requires pool.Valid() && !pool.stop
    requires worker < |pool.threads| && !IsAppender(pool.threads[worker]) && !pool.threads[worker].WExited?
    modifies pool
    ensures pool.Valid() && old(pool.accepted) <= pool.accepted && old(pool.history) <= pool.history
    ensures forall t :: 0 <= t < |pool.threads| ==> pool.Resting(t)
    ensures pool.workqueue == [] && multiset(pool.finished) == multiset(pool.accepted)
    ensures forall r :: multiset(pool.processed)[r] == multiset(pool.accepted)[Some(r)]
  {
    hide Pool.Valid, Work;
    while exists t :: 0 <= t < |pool.threads| && pool.Enabled(t) && !pool.threads[t].AIdle?
      invariant pool.Valid() && !pool.stop && worker < |pool.threads|
      invariant old(pool.accepted) <= pool.accepted && old(pool.history) <= pool.history
      invariant !IsAppender(pool.threads[worker]) && !pool.threads[worker].WExited?
      decreases Work(pool.threads) + 6 * pool.queuestat
    {
      var t :| 0 <= t < |pool.threads| && pool.Enabled(t) && !pool.threads[t].AIdle?;
      ghost var threads := pool.threads;
      var _ := pool.Step(t, None);
      WorkAfter(threads, t, pool.threads[t]);
    }
    forall t: nat | t < |pool.threads| ensures pool.Resting(t) {
      if !pool.Resting(t) {
        pool.SomeoneCanStep(t);
      }
    }
    assert pool.Resting(worker);
    pool.NoLostWakeup(worker);
  }

  /** The first n threads are workers that have not left. */
  ghost predicate AtWork(threads: seq<Pc>, n: nat) {
    n <= |threads| && forall t :: 0 <= t < n ==> !IsAppender(threads[t]) && !threads[t].WExited?
  }

  lemma StillAtWork(threads: seq<Pc>, t: nat, pc: Pc, n: nat)
    requires AtWork(threads, n) && t < |threads|
    requires !IsAppender(threads[t]) && !threads[t].WExited? ==> !IsAppender(pc) && !pc.WExited?
    ensures AtWork(threads[t := pc], n)
  {
  }

  /** One entry of a schedule. */
  method Turn(pool: Pool, t: nat, request: Request, ghost workers: nat)
    requires pool.Valid() && !pool.stop && t < |pool.threads| && AtWork(pool.threads, workers)
    modifies pool
    ensures pool.Valid() && !pool.stop && |pool.threads| == |old(pool.threads)| && AtWork(pool.threads, workers)
    ensures pool.history == old(pool.history) + [(t, request)]
  {
    hide Pool.Valid, Processed, AtWork;
    ghost var before := pool.threads;
    var _ := pool.Step(t, request);
    StillAtWork(before, t, pool.threads[t], workers);
  }

  lemma NextEntry(schedule: seq<(nat, Request)>, i: nat)
    requires i < |schedule|
    ensures schedule[..i + 1] == schedule[..i] + [(schedule[i].0, schedule[i].1)]
  {
  }

  /** Any number of workers and appenders under any schedule, where the k-th entry is a
      thread and what it is called with: no request is processed more often than it was
      accepted, and the queue never holds more than one request above the limit. */
  method Run(threadNumber: int, maxRequests: int, appenders: nat, schedule: seq<(nat, Request)>)
    returns (pool: Pool?)
    requires threadNumber > 0 ==> forall k :: 0 <= k < |schedule| ==> schedule[k].0 < threadNumber + appenders
    ensures pool == null <==> threadNumber <= 0 || maxRequests <= 0
    ensures pool != null ==> fresh(pool) && pool.Valid() && |pool.workqueue| <= maxRequests + 1
    ensures pool != null ==> forall r :: multiset(pool.processed)[r] <= multiset(pool.accepted)[Some(r)]
    ensures pool != null ==> pool.history == schedule && !pool.stop && |pool.threads| == threadNumber + appenders
    ensures pool != null ==> AtWork(pool.threads, threadNumber)
  {
    if threadNumber <= 0 || maxRequests <= 0 {
      return null;
    }
    var p := new Pool(threadNumber, maxRequests, appenders);
    var i := 0;
    assert schedule[..0] == [];
    while i < |schedule|
      invariant i <= |schedule| && fresh(p) && p.Valid() && |p.threads| == threadNumber + appenders
      invariant p.history == schedule[..i] && !p.stop
      invariant AtWork(p.threads, threadNumber)
    {
      hide Pool.Valid, Processed, AtWork;
      Turn(p, schedule[i].0, schedule[i].1, threadNumber);
      NextEntry(schedule, i);
      i := i + 1;
    }
    assert schedule[..i] == schedule;
    forall r ensures multiset(p.processed)[r] <= multiset(p.accepted)[Some(r)] {
      ProcessedOccurrences(p.finished, r);
    }
    return p;
  }

  /** After any schedule, once append is not called any more, the pool comes to rest with every
      accepted request processed. */
  method RunToRest(threadNumber: nat, maxRequests: nat, appenders: nat, schedule: seq<(nat, Request)>)
    returns (pool: Pool)
    requires threadNumber > 0 && maxRequests > 0
    requires forall k :: 0 <= k < |schedule| ==> schedule[k].0 < threadNumber + appenders
    ensures fresh(pool) && schedule <= pool.history
    ensures pool.workqueue == [] && forall r :: multiset(pool.processed)[r] == multiset(pool.accepted)[Some(r)]
  {
    var p := Run(threadNumber, maxRequests, appenders, schedule);
    pool := p;
    Settle(pool, 0);
  }
}
