/** The connection counts of the ftp server: how many children there are, and how many for
    each client address. */
module Accounting {
  /** A client has connected from `ip`, its child is `pid`, and the signal handler has reaped
      `meanwhile` before the entry of the child was added; or waitpid has answered these
      between two turns of the accept loop. */
  datatype Event = Connected(ip: int, pid: int, meanwhile: seq<int>) | Exited(pids: seq<int>)

  /** The children of one address. */
  function Of(pidIp: map<int, int>, ip: int): set<int> {
    set pid | pid in pidIp && pidIp[pid] == ip
  }

  /** Every count is the number of children with that address, and none is zero. */
  ghost predicate Counted(ipCount: map<int, nat>, pidIp: map<int, int>) {
    forall ip :: |Of(pidIp, ip)| == if ip in ipCount then ipCount[ip] else 0
  }

  ghost predicate NoZero(ipCount: map<int, nat>) {
    forall ip :: ip in ipCount ==> ipCount[ip] > 0
  }

  lemma OfAfterAdd(pidIp: map<int, int>, pid: int, ip: int, other: int)
    requires pid !in pidIp
    ensures |Of(pidIp[pid := ip], other)| == |Of(pidIp, other)| + if other == ip then 1 else 0
  {
    if other == ip {
      assert Of(pidIp[pid := ip], ip) == Of(pidIp, ip) + {pid};
    } else {
      assert Of(pidIp[pid := ip], other) == Of(pidIp, other);
    }
  }

  lemma OfAfterRemove(pidIp: map<int, int>, pid: int, other: int)
    requires pid in pidIp
    ensures |Of(pidIp, other)| == |Of(pidIp - {pid}, other)| + if other == pidIp[pid] then 1 else 0
  {
    assert pidIp == (pidIp - {pid})[pid := pidIp[pid]];
    OfAfterAdd(pidIp - {pid}, pid, pidIp[pid], other);
  }

  function Members(pids: seq<int>): set<int> {
    set pid | pid in pids
  }

  /** The children left when some have exited. */
  function Left(pidIp: map<int, int>, pids: seq<int>): map<int, int> {
    pidIp - Members(pids)
  }

  lemma LeftNext(pidIp: map<int, int>, pids: seq<int>, i: nat)
    requires i < |pids|
    ensures Left(pidIp, pids[..i + 1]) == Left(pidIp, pids[..i]) - {pids[i]}
  {
    assert pids[..i + 1] == pids[..i] + [pids[i]];
    assert Members(pids[..i + 1]) == Members(pids[..i]) + {pids[i]};
  }

  ghost predicate Distinct(pids: seq<int>) {
    forall i, j :: 0 <= i < j < |pids| ==> pids[i] != pids[j]
  }

  lemma {:induction false} LeftSize(live: map<int, int>, pids: seq<int>)
    requires Distinct(pids) && forall i :: 0 <= i < |pids| ==> pids[i] in live
    ensures |Left(live, pids)| == |live| - |pids|
  {
    if pids == [] {
      assert Left(live, pids) == live;
    } else {
      var n := |pids| - 1;
      LeftSize(live, pids[..n]);
      LeftNext(live, pids, n);
      assert pids[..n + 1] == pids;
      var rest := Left(live, pids[..n]);
      assert pids[n] in rest;
      assert (rest - {pids[n]}).Keys == rest.Keys - {pids[n]};
    }
  }

  /** The entries of children that are gone stay on top of those of the live ones. */
  lemma LeftUnion(live: map<int, int>, stale: map<int, int>, pids: seq<int>)
    requires live.Keys !! stale.Keys && forall i :: 0 <= i < |pids| ==> pids[i] !in stale
    ensures Left(live + stale, pids) == Left(live, pids) + stale
    ensures Left(live, pids).Keys !! stale.Keys
  {
  }

  /** The children and the stale entries after a turn of the accept loop. */
  function LiveWith(live: map<int, int>, ip: int, pid: int, meanwhile: seq<int>): map<int, int> {
    Left(live[pid := ip], meanwhile)
  }

  function StaleWith(stale: map<int, int>, ip: int, pid: int, meanwhile: seq<int>): map<int, int> {
    if pid in meanwhile then stale[pid := ip] else stale
  }

  lemma EntriesWith(live: map<int, int>, stale: map<int, int>, ip: int, pid: int, meanwhile: seq<int>)
    requires live.Keys !! stale.Keys && pid !in live && pid !in stale
    requires Distinct(meanwhile) && forall i :: 0 <= i < |meanwhile| ==> meanwhile[i] in live || meanwhile[i] == pid
    ensures LiveWith(live, ip, pid, meanwhile).Keys !! StaleWith(stale, ip, pid, meanwhile).Keys
    ensures LiveWith(live, ip, pid, meanwhile) + StaleWith(stale, ip, pid, meanwhile)
              == Left(live + stale, meanwhile)[pid := ip]
  {
  }

  lemma TurnSizes(live: map<int, int>, stale: map<int, int>, ip: int, pid: int, meanwhile: seq<int>)
    requires pid !in live && Distinct(meanwhile)
    requires forall i :: 0 <= i < |meanwhile| ==> meanwhile[i] in live || meanwhile[i] == pid
    ensures |LiveWith(live, ip, pid, meanwhile)| == |live| + 1 - |meanwhile|
    ensures StaleWith(stale, ip, pid, meanwhile) == map[] <==> stale == map[] && pid !in meanwhile
  {
    LeftSize(live[pid := ip], meanwhile);
    assert pid in meanwhile ==> pid in StaleWith(stale, ip, pid, meanwhile);
  }

  class Server {
    const maxClients: nat
    const maxPerIp: nat
    var children: int
    var ipCount: map<int, nat>
    var pidIp: map<int, int>

    /** The tables agree with the live children, apart from stale entries of children that
        are gone. */
    ghost predicate Agrees(live: map<int, int>, stale: map<int, int>)
      reads this
    {
      && live.Keys !! stale.Keys && pidIp == live + stale && children == |live|
      && Counted(ipCount, pidIp) && NoZero(ipCount)
    }

    /** The three tables agree with each other. */
    ghost predicate Valid()
      reads this
    {
      children == |pidIp| && Counted(ipCount, pidIp) && NoZero(ipCount)
    }

    lemma ValidIff(live: map<int, int>, stale: map<int, int>)
      requires Agrees(live, stale)
      ensures Valid() <==> stale == map[]
      ensures Valid() ==> pidIp == live
    {
      assert (live + stale).Keys == live.Keys + stale.Keys;
      assert |live.Keys + stale.Keys| == |live.Keys| + |stale.Keys|;
      if stale != map[] {
        assert stale.Keys != {};
      } else {
        assert live + stale == live;
      }
    }

    /** The count of an address is that of its live children and of its stale entries. */
    lemma CountIs(live: map<int, int>, stale: map<int, int>, ip: int)
      requires Agrees(live, stale)
      ensures (if ip in ipCount then ipCount[ip] else 0) == |Of(live, ip)| + |Of(stale, ip)|
    {
      assert Of(live + stale, ip) == Of(live, ip) + Of(stale, ip);
    }

    lemma NotFiled(live: map<int, int>, stale: map<int, int>, pid: int)
      requires Agrees(live, stale) && pid !in live && pid !in stale
      ensures pid !in pidIp
    {
    }

    /** A limit of 0 is no limit. */
    constructor (maxClients: nat, maxPerIp: nat)
      ensures Agrees(map[], map[]) && this.maxClients == maxClients && this.maxPerIp == maxPerIp
    {
      this.maxClients, this.maxPerIp := maxClients, maxPerIp;
      children, ipCount, pidIp := 0, map[], map[];
    }

    method HandleIpCount(ip: int) returns (count: nat)
      modifies this`ipCount
      ensures count == (if ip in old(ipCount) then old(ipCount)[ip] else 0) + 1
      ensures ipCount == old(ipCount)[ip := count]
    {
      if ip !in ipCount {
        count := 1;
      } else {
        count := ipCount[ip];
        count := count + 1;
      }
      ipCount := ipCount[ip := count];
    }

    method DropIpCount(ip: int)
      modifies this`ipCount
      ensures ip !in old(ipCount) || old(ipCount)[ip] == 0 ==> ipCount == old(ipCount)
      ensures ip in old(ipCount) && old(ipCount)[ip] > 0 ==>
                ipCount == if old(ipCount)[ip] == 1 then old(ipCount) - {ip}
                           else old(ipCount)[ip := old(ipCount)[ip] - 1]
    {
      if ip !in ipCount {
        return;
      }
      var count := ipCount[ip];
      if count <= 0 {
        return;
      }
      count := count - 1;
      ipCount := ipCount[ip := count];
      if count == 0 {
        ipCount := ipCount - {ip};
      }
    }

    /** The part of the accept loop before the fork: what the child will see. */
    method CountClient(ip: int) returns (numClients: int, numThisIp: nat)
      modifies this`children, this`ipCount
      ensures children == old(children) + 1 == numClients
      ensures numThisIp == (if ip in old(ipCount) then old(ipCount)[ip] else 0) + 1
      ensures ipCount == old(ipCount)[ip := numThisIp]
    {
      children := children + 1;
      numClients := children;
      numThisIp := HandleIpCount(ip);
    }

    /** check_limits, in the child. */
    predicate WithinLimits(numClients: int, numThisIp: nat) {
      && !(maxClients > 0 && numClients > maxClients)
      && !(maxPerIp > 0 && numThisIp > maxPerIp)
    }

    /** One turn of the accept loop, in which the signal handler reaps `meanwhile` between the
        count and the entry.  The tables stay in agreement apart from one more stale entry,
        which there is exactly when the new child is among those reaped. */
    method Accept(ip: int, pid: int, meanwhile: seq<int>, ghost live: map<int, int>, ghost stale: map<int, int>)
      returns (admitted: bool)
      requires Agrees(live, stale) && pid !in pidIp
      requires Distinct(meanwhile) && forall i :: 0 <= i < |meanwhile| ==> meanwhile[i] in live || meanwhile[i] == pid
      modifies this
      ensures Agrees(LiveWith(live, ip, pid, meanwhile), StaleWith(stale, ip, pid, meanwhile))
      ensures Valid() <==> stale == map[] && pid !in meanwhile
      ensures admitted <==> (maxClients == 0 || |live| + 1 <= maxClients)
                            && (maxPerIp == 0 || |Of(live, ip)| + |Of(stale, ip)| + 1 <= maxPerIp)
    {
      EntriesWith(live, stale, ip, pid, meanwhile);
      TurnSizes(live, stale, ip, pid, meanwhile);
      var numClients, numThisIp := CountForked(ip, pid, live, stale);
      admitted := WithinLimits(numClients, numThisIp);
      hide Left, LiveWith, StaleWith, Counted, Of, Distinct;
      ReapMeanwhile(ip, pid, meanwhile);
      pidIp := pidIp[pid := ip];
      ValidIff(LiveWith(live, ip, pid, meanwhile), StaleWith(stale, ip, pid, meanwhile));
    }

    /** The counts are already those with the new child. */
    method CountForked(ip: int, ghost pid: int, ghost live: map<int, int>, ghost stale: map<int, int>)
      returns (numClients: int, numThisIp: nat)
      requires Agrees(live, stale) && pid !in pidIp
      modifies this`children, this`ipCount
      ensures children == numClients == |live| + 1
      ensures numThisIp == |Of(live, ip)| + |Of(stale, ip)| + 1
      ensures Counted(ipCount, pidIp[pid := ip]) && NoZero(ipCount)
    {
      forall other ensures |Of(pidIp[pid := ip], other)| == |Of(pidIp, other)| + if other == ip then 1 else 0 {
        OfAfterAdd(pidIp, pid, ip, other);
      }
      CountIs(live, stale, ip);
      hide Of;
      numClients, numThisIp := CountClient(ip);
    }

    /** The signal handler between the count and the entry of the child `pid`. */
    method ReapMeanwhile(ip: int, pid: int, meanwhile: seq<int>)
      requires Counted(ipCount, pidIp[pid := ip]) && NoZero(ipCount) && pid !in pidIp && Distinct(meanwhile)
      requires forall i :: 0 <= i < |meanwhile| ==> meanwhile[i] in pidIp || meanwhile[i] == pid
      modifies this
      ensures children == old(children) - |meanwhile| && pidIp == Left(old(pidIp), meanwhile)
      ensures Counted(ipCount, pidIp[pid := ip]) && NoZero(ipCount) && pid !in pidIp
    {
      hide Counted, NoZero, Left;
      ghost var entries := pidIp;
      var i := 0;
      StartLeft(entries, meanwhile);
      while i < |meanwhile|
        invariant i <= |meanwhile| && children == old(children) - i && pidIp == Left(entries, meanwhile[..i])
        invariant Counted(ipCount, pidIp[pid := ip]) && NoZero(ipCount) && pid !in pidIp
        invariant forall k :: i <= k < |meanwhile| ==> meanwhile[k] in pidIp || meanwhile[k] == pid
      {
        LeftNext(entries, meanwhile, i);
        ghost var r := meanwhile[i];
        assert r != pid ==> (pidIp - {r})[pid := ip] == pidIp[pid := ip] - {r};
        assert r == pid ==> pidIp - {r} == pidIp;
        ReapOne(meanwhile[i], pidIp[pid := ip]);
        i := i + 1;
      }
      assert meanwhile[..i] == meanwhile;
    }

    lemma StartLeft(entries: map<int, int>, pids: seq<int>)
      ensures Left(entries, pids[..0]) == entries
    {
    }

    /** One pid that waitpid has answered; `counted` are the children that the address counts
        are about. */
    method ReapOne(pid: int, ghost counted: map<int, int>)
      modifies this
      ensures children == old(children) - 1 && pidIp == old(pidIp) - {pid}
      ensures pid !in old(pidIp) ==> ipCount == old(ipCount)
      ensures pid in old(pidIp) && pid in counted && counted[pid] == old(pidIp)[pid]
              && Counted(old(ipCount), counted) && NoZero(old(ipCount)) ==>
                Counted(ipCount, counted - {pid}) && NoZero(ipCount)
    {
      if pid in counted {
        forall other
          ensures |Of(counted, other)| == |Of(counted - {pid}, other)| + if other == counted[pid] then 1 else 0
        {
          OfAfterRemove(counted, pid, other);
        }
      }
      hide Of;
      children := children - 1;
      if pid !in pidIp {
        return;
      }
      DropIpCount(pidIp[pid]);
      pidIp := pidIp - {pid};
    }

    /** handle_sigchld, between two turns of the accept loop. */
    method HandleSigchld(pids: seq<int>, ghost live: map<int, int>, ghost stale: map<int, int>)
      requires Agrees(live, stale) && Distinct(pids) && forall i :: 0 <= i < |pids| ==> pids[i] in live
      modifies this
      ensures Agrees(Left(live, pids), stale)
    {
      ghost var entries := pidIp;
      var i := 0;
      StartLeft(entries, pids);
      while i < |pids|
        invariant i <= |pids| && children == |live| - i && pidIp == Left(entries, pids[..i])
        invariant Counted(ipCount, pidIp) && NoZero(ipCount)
        invariant forall k :: i <= k < |pids| ==> pids[k] in pidIp
      {
        LeftNext(entries, pids, i);
        hide Left, Counted, NoZero;
        ReapOne(pids[i], pidIp);
        i := i + 1;
      }
      assert pids[..i] == pids;
      LeftSize(live, pids);
      LeftUnion(live, stale, pids);
    }
  }

  /** The children that are live after a run, and the entries of children that are gone. */
  function LiveAfter(events: seq<Event>): map<int, int> {
    if events == [] then map[]
    else
      var live := LiveAfter(events[..|events| - 1]);
      match events[|events| - 1]
      case Connected(ip, pid, meanwhile) => LiveWith(live, ip, pid, meanwhile)
      case Exited(pids) => Left(live, pids)
  }

  function StaleAfter(events: seq<Event>): map<int, int> {
    if events == [] then map[]
    else
      var stale := StaleAfter(events[..|events| - 1]);
      match events[|events| - 1]
      case Connected(ip, pid, meanwhile) => StaleWith(stale, ip, pid, meanwhile)
      case Exited(_) => stale
  }

  /** waitpid answers this process number during the event. */
  predicate Reaps(event: Event, pid: int) {
    match event
    case Connected(_, _, meanwhile) => pid in meanwhile
    case Exited(pids) => pid in pids
  }

  /** Event k has forked this child, which is neither reaped then nor later. */
  ghost predicate LiveSince(events: seq<Event>, k: nat, pid: int) {
    && k < |events| && events[k].Connected? && events[k].pid == pid && !Reaps(events[k], pid)
    && forall j :: k < j < |events| ==> !Reaps(events[j], pid) && !(events[j].Connected? && events[j].pid == pid)
  }

  /** Event k has forked this child, and reaped it too early. */
  ghost predicate StaleSince(events: seq<Event>, k: nat, pid: int) {
    k < |events| && events[k].Connected? && events[k].pid == pid && Reaps(events[k], pid)
  }

  /** The live children are those forked and not reaped, each with its address; the stale entries
      are those of children reaped too early. */
  lemma {:induction false} LiveIff(events: seq<Event>, pid: int)
    ensures pid in LiveAfter(events) <==> exists k: nat :: LiveSince(events, k, pid)
    ensures forall k: nat :: LiveSince(events, k, pid) ==> pid in LiveAfter(events) && LiveAfter(events)[pid] == events[k].ip
  {
    if events != [] {
      var n := |events| - 1;
      var before, last := events[..n], events[n];
      LiveIff(before, pid);
      if pid in LiveAfter(events) {
        if last.Connected? && last.pid == pid {
          assert LiveSince(events, n, pid);
        } else {
          var k: nat :| LiveSince(before, k, pid);
          assert LiveSince(events, k, pid);
        }
      }
      forall k: nat | LiveSince(events, k, pid)
        ensures pid in LiveAfter(events) && LiveAfter(events)[pid] == events[k].ip
      {
        if k < n { assert LiveSince(before, k, pid); }
      }
    }
  }

  lemma {:induction false} StaleIff(events: seq<Event>, pid: int)
    ensures pid in StaleAfter(events) <==> exists k: nat :: StaleSince(events, k, pid)
  {
    if events != [] {
      var n := |events| - 1;
      var before, last := events[..n], events[n];
      StaleIff(before, pid);
      if pid in StaleAfter(events) {
        if last.Connected? && last.pid == pid && pid in last.meanwhile {
          assert StaleSince(events, n, pid);
        } else {
          var k: nat :| StaleSince(before, k, pid);
          assert StaleSince(events, k, pid);
        }
      }
      forall k: nat | StaleSince(events, k, pid) ensures pid in StaleAfter(events) {
        if k < n { assert StaleSince(before, k, pid); }
      }
    }
  }

  /** The system gives new numbers to new processes and reports each child once; a number that
      still has a stale entry is not given again. */
  ghost predicate Possible(events: seq<Event>) {
    forall k :: 0 <= k < |events| ==> PossibleNext(LiveAfter(events[..k]), StaleAfter(events[..k]), events[k])
  }

  ghost predicate PossibleNext(live: map<int, int>, stale: map<int, int>, event: Event) {
    match event
    case Connected(_, pid, meanwhile) =>
      && pid !in live && pid !in stale && Distinct(meanwhile)
      && forall i :: 0 <= i < |meanwhile| ==> meanwhile[i] in live || meanwhile[i] == pid
    case Exited(pids) =>
      Distinct(pids) && forall i :: 0 <= i < |pids| ==> pids[i] in live
  }

  /** Event k is a turn of the accept loop in which the new child is reaped too early. */
  predicate ReapedEarly(event: Event) {
    event.Connected? && event.pid in event.meanwhile
  }

  /** A stale entry stays for good, and there is one for every child reaped too early. */
  lemma {:induction false} StaleStays(events: seq<Event>, k: nat)
    requires k < |events| && Possible(events) && ReapedEarly(events[k])
    ensures events[k].pid in StaleAfter(events) && StaleAfter(events)[events[k].pid] == events[k].ip
  {
    var n := |events| - 1;
    var before := events[..n];
    if k < n {
      PossiblePrefix(events, n);
      StaleStays(before, k);
      assert PossibleNext(LiveAfter(before), StaleAfter(before), events[n]);
    }
  }

  lemma PossiblePrefix(events: seq<Event>, n: nat)
    requires Possible(events) && n <= |events|
    ensures Possible(events[..n])
  {
    forall k | 0 <= k < n
      ensures PossibleNext(LiveAfter(events[..n][..k]), StaleAfter(events[..n][..k]), events[..n][k])
    {
      assert events[..n][..k] == events[..k];
      assert PossibleNext(LiveAfter(events[..k]), StaleAfter(events[..k]), events[k]);
    }
  }

  lemma {:induction false} NoStale(events: seq<Event>)
    ensures StaleAfter(events) != map[] ==> exists k :: 0 <= k < |events| && ReapedEarly(events[k])
  {
    if events != [] {
      var n := |events| - 1;
      NoStale(events[..n]);
      if StaleAfter(events[..n]) != map[] {
        var k :| 0 <= k < n && ReapedEarly(events[..n][k]);
        assert ReapedEarly(events[k]);
      } else if StaleAfter(events) != map[] {
        assert ReapedEarly(events[n]);
      }
    }
  }

  /** Over every run the tables are those of the live children and of the children that were
      reaped too early; they agree with each other exactly when no child ever was. */
  method Run(maxClients: nat, maxPerIp: nat, events: seq<Event>) returns (server: Server)
    requires Possible(events)
    ensures fresh(server) && server.Agrees(LiveAfter(events), StaleAfter(events))
    ensures server.Valid() <==> forall k :: 0 <= k < |events| ==> !ReapedEarly(events[k])
    ensures server.Valid() ==> server.pidIp == LiveAfter(events)
    ensures forall pid :: pid in server.pidIp <==>
              (exists k: nat :: LiveSince(events, k, pid)) || (exists k: nat :: StaleSince(events, k, pid))
  {
    server := new Server(maxClients, maxPerIp);
    hide LiveAfter, StaleAfter, LiveWith, StaleWith, Left;
    var i := 0;
    RunStarts(events);
    while i < |events|
      invariant i <= |events| && fresh(server)
      invariant server.Agrees(LiveAfter(events[..i]), StaleAfter(events[..i]))
    {
      hide Server.Agrees;
      RunStep(events, i);
      ghost var live, stale := LiveAfter(events[..i]), StaleAfter(events[..i]);
      match events[i] {
        case Connected(ip, pid, meanwhile) =>
          server.NotFiled(live, stale, pid);
          var _ := server.Accept(ip, pid, meanwhile, live, stale);
        case Exited(pids) =>
          server.HandleSigchld(pids, live, stale);
      }
      i := i + 1;
    }
    assert events[..i] == events;
    server.ValidIff(LiveAfter(events), StaleAfter(events));
    NoStale(events);
    forall pid
      ensures pid in server.pidIp <==>
                (exists k: nat :: LiveSince(events, k, pid)) || (exists k: nat :: StaleSince(events, k, pid))
    {
      hide LiveSince, StaleSince;
      LiveIff(events, pid);
      StaleIff(events, pid);
    }
    forall k | 0 <= k < |events| && ReapedEarly(events[k]) ensures StaleAfter(events) != map[] {
      StaleStays(events, k);
    }
  }

  lemma RunStarts(events: seq<Event>)
    ensures LiveAfter(events[..0]) == map[] && StaleAfter(events[..0]) == map[]
  {
  }

  lemma RunStep(events: seq<Event>, i: nat)
    requires Possible(events) && i < |events|
    ensures PossibleNext(LiveAfter(events[..i]), StaleAfter(events[..i]), events[i])
    ensures LiveAfter(events[..i + 1]) ==
              match events[i]
              case Connected(ip, pid, meanwhile) => LiveWith(LiveAfter(events[..i]), ip, pid, meanwhile)
              case Exited(pids) => Left(LiveAfter(events[..i]), pids)
    ensures StaleAfter(events[..i + 1]) ==
              match events[i]
              case Connected(ip, pid, meanwhile) => StaleWith(StaleAfter(events[..i]), ip, pid, meanwhile)
              case Exited(pids) => StaleAfter(events[..i])
  {
    assert events[..i + 1][..i] == events[..i];
  }
}
