/** Whole runs of the connection manager, told by descriptors alone. */
module ConnRuns {
  import opened ConnPool

  /** A client with a new descriptor, an event, or the reconnects with what they give. */
  datatype Event = Client(fd: int) | Ready(fd: int, type_: OpType, res: RetCode) | Recycle(fds: map<int, int>)

  /** The idle server descriptors, the server of every bound client, the clients whose server has
      failed, and the old descriptors of the broken connections. */
  datatype Pool = Pool(idle: set<int>, pairs: map<int, int>, failed: set<int>, broken: set<int>)
  {
    ghost predicate IsOpen(fd: int) {
      fd in idle || fd in pairs || fd in pairs.Values
    }
  }

  ghost function Least(s: set<int>): (least: int)
    requires s != {}
    ensures least in s && forall x :: x in s ==> least <= x
  {
    Smallest(s);
    var least :| IsLeast(least, s);
    least
  }

  /** What an event makes of the pool.  Events that the system cannot produce change nothing: a
      new client with a descriptor that is open, an event for one that is not registered, and
      reconnects that give a descriptor that is open or give one twice. */
  ghost function Next(p: Pool, event: Event): Pool {
    match event
    case Client(fd) =>
      if fd < 0 || p.IsOpen(fd) || p.idle == {} then p
      else p.(idle := p.idle - {Least(p.idle)}, pairs := p.pairs[fd := Least(p.idle)])
    case Ready(fd, type_, res) =>
      var failed := type_ != ERROR && (res == IOERR || res == CLOSED);
      if fd in p.pairs then
        if type_ != ERROR && (failed || fd in p.failed) then
          p.(pairs := p.pairs - {fd}, failed := p.failed - {fd}, broken := p.broken + {p.pairs[fd]})
        else p
      else p.(failed := p.failed + set c | c in p.pairs && p.pairs[c] == fd && failed)
    case Recycle(fds) =>
      if CanReconnect(p, fds) then p.(idle := p.idle + set k | k in p.broken && fds[k] >= 0 :: fds[k], broken := {})
      else p
  }

  /** The system gives out descriptors that are not open, each once. */
  ghost predicate CanReconnect(p: Pool, fds: map<int, int>) {
    && p.broken <= fds.Keys
    && (forall k :: k in p.broken && fds[k] >= 0 ==> !p.IsOpen(fds[k]))
    && (forall j, k :: j in p.broken && k in p.broken && j != k && fds[j] >= 0 ==> fds[j] != fds[k])
  }

  ghost function After(p: Pool, events: seq<Event>): Pool {
    if events == [] then p else Next(After(p, events[..|events| - 1]), events[|events| - 1])
  }

  /** Connections only go from one place to another: no server descriptor comes or goes, but
      with a reconnect the broken ones are exchanged for those that the system has given. */
  lemma ServersKept(p: Pool, event: Event)
    requires Sound(p)
    ensures var q := Next(p, event);
            if event.Recycle? && CanReconnect(p, event.fds) then
              && q.broken == {} && q.pairs == p.pairs
              && forall s :: s in q.idle <==> s in p.idle || exists k :: k in p.broken && event.fds[k] == s >= 0
            else
              forall s :: s in q.idle || s in q.broken || Serves(q, s) <==> s in p.idle || s in p.broken || Serves(p, s)
  {
    var q := Next(p, event);
    if event.Client? {
      if !p.IsOpen(event.fd) { NotOpen(p, event.fd); }
      if q != p {
        assert q.pairs[event.fd] == Least(p.idle);
      }
      forall s | Serves(p, s) ensures Serves(q, s) {
        var c :| c in p.pairs && p.pairs[c] == s;
        assert q.pairs[c] == s;
      }
    } else if event.Ready? && q.pairs != p.pairs {
      forall s | Serves(p, s) ensures s in q.broken || Serves(q, s) {
        var c :| c in p.pairs && p.pairs[c] == s;
        assert c != event.fd ==> q.pairs[c] == s;
      }
      assert Serves(p, p.pairs[event.fd]);
    }
  }

  ghost predicate Serves(p: Pool, s: int) {
    exists c :: c in p.pairs && p.pairs[c] == s
  }

  // ----- what a run means for a client, told by the positions of the events

  /** A read or write at this descriptor that fails. */
  ghost predicate FailsAt(event: Event, fd: int) {
    event.Ready? && event.fd == fd && event.type_ != ERROR && (event.res == IOERR || event.res == CLOSED)
  }

  /** Event k gives client c a connection, to server s. */
  ghost predicate Connects(p: Pool, events: seq<Event>, k: nat, c: int, s: int) {
    && k < |events| && events[k] == Client(c)
    && c !in After(p, events[..k]).pairs
    && c in After(p, events[..k + 1]).pairs && After(p, events[..k + 1]).pairs[c] == s
  }

  /** Between the events k and n something fails at the server. */
  ghost predicate ServerFailed(events: seq<Event>, k: nat, n: nat, s: int) {
    exists i :: k < i < n <= |events| && FailsAt(events[i], s)
  }

  /** Event j ends the connection: a read or write at the client that fails, or any one after
      the server has failed. */
  ghost predicate EndsAt(events: seq<Event>, k: nat, j: nat, c: int, s: int)
    requires j < |events|
  {
    FailsAt(events[j], c) || (events[j].Ready? && events[j].fd == c && events[j].type_ != ERROR && ServerFailed(events, k, j, s))
  }

  ghost predicate BoundSince(p: Pool, events: seq<Event>, k: nat, c: int, s: int) {
    Connects(p, events, k, c, s) && forall j :: k < j < |events| ==> !EndsAt(events, k, j, c, s)
  }

  /** No descriptor stands for two ends, and none that is in use is idle. */
  ghost predicate Sound(p: Pool) {
    && p.failed <= p.pairs.Keys
    && (forall c :: c in p.pairs ==> c !in p.idle && p.pairs[c] !in p.idle && p.pairs[c] !in p.pairs)
    && forall j, k :: j in p.pairs && k in p.pairs && j != k ==> p.pairs[j] != p.pairs[k]
  }

  lemma NotOpen(p: Pool, fd: int)
    requires !p.IsOpen(fd)
    ensures fd !in p.idle && fd !in p.pairs && forall c :: c in p.pairs ==> p.pairs[c] != fd
  {
    forall c | c in p.pairs ensures p.pairs[c] != fd { ValueIn(p.pairs, c); }
  }

  lemma SoundNext(p: Pool, event: Event)
    requires Sound(p)
    ensures Sound(Next(p, event))
  {
    match event
    case Client(fd) =>
      if !p.IsOpen(fd) { NotOpen(p, fd); }
    case Ready(_, _, _) =>
    case Recycle(fds) =>
      if CanReconnect(p, fds) {
        forall k | k in p.broken && fds[k] >= 0
          ensures fds[k] !in p.pairs && forall c :: c in p.pairs ==> p.pairs[c] != fds[k]
        {
          NotOpen(p, fds[k]);
        }
      }
  }

  lemma {:induction false} SoundAfter(p: Pool, events: seq<Event>)
    requires Sound(p)
    ensures Sound(After(p, events))
  {
    if events != [] {
      SoundAfter(p, events[..|events| - 1]);
      SoundNext(After(p, events[..|events| - 1]), events[|events| - 1]);
    }
  }

  /** What an event means for client c. */
  lemma NextFor(p: Pool, event: Event, c: int)
    requires Sound(p)
    ensures var q := Next(p, event);
            var ends := FailsAt(event, c) || (event.Ready? && event.fd == c && event.type_ != ERROR && c in p.failed);
            if c in p.pairs then
              && (c in q.pairs <==> !ends)
              && (!ends ==> q.pairs[c] == p.pairs[c] && (c in q.failed <==> c in p.failed || FailsAt(event, p.pairs[c])))
            else c !in q.failed && (c in q.pairs ==> event == Client(c))
  {
    if event.Client? && !p.IsOpen(event.fd) { NotOpen(p, event.fd); }
  }

  lemma SamePrefix(p: Pool, events: seq<Event>, n: nat, k: nat, c: int, s: int)
    requires k < n <= |events|
    ensures Connects(p, events[..n], k, c, s) <==> Connects(p, events, k, c, s)
    ensures forall j :: k < j <= n ==> (ServerFailed(events[..n], k, j, s) <==> ServerFailed(events, k, j, s))
    ensures forall j :: k < j < n ==> (EndsAt(events[..n], k, j, c, s) <==> EndsAt(events, k, j, c, s))
  {
    hide After;
    assert events[..n][..k] == events[..k] && events[..n][..k + 1] == events[..k + 1];
    forall j | k < j <= n ensures ServerFailed(events[..n], k, j, s) <==> ServerFailed(events, k, j, s) {
      if ServerFailed(events, k, j, s) {
        var i :| k < i < j && FailsAt(events[i], s);
        assert FailsAt(events[..n][i], s);
      }
      if ServerFailed(events[..n], k, j, s) {
        var i :| k < i < j && FailsAt(events[..n][i], s);
        assert FailsAt(events[i], s);
      }
    }
  }

  /** Client c is bound exactly if some event has given it a connection, to the server that this
      event says, and no later one has ended it; and its server counts as failed exactly if
      something has failed there since. */
  ghost predicate BoundExactly(p: Pool, events: seq<Event>, c: int) {
    && (c in After(p, events).pairs <==> exists k: nat, s :: BoundSince(p, events, k, c, s))
    && forall k: nat, s :: BoundSince(p, events, k, c, s) ==>
         && c in After(p, events).pairs && After(p, events).pairs[c] == s
         && (c in After(p, events).failed <==> ServerFailed(events, k, |events|, s))
  }

  /** Every client is bound exactly from the event that gave it a connection until one that ends
      it. */
  lemma {:induction false} BoundIff(p: Pool, events: seq<Event>, c: int)
    requires p.pairs == map[] && p.failed == {}
    ensures BoundExactly(p, events, c)
  {
    if events != [] {
      BoundIff(p, events[..|events| - 1], c);
      if c in After(p, events).pairs {
        IsBoundSince(p, events, c);
      }
      forall k: nat, s | BoundSince(p, events, k, c, s)
        ensures c in After(p, events).pairs && After(p, events).pairs[c] == s
        ensures c in After(p, events).failed <==> ServerFailed(events, k, |events|, s)
      {
        hide BoundExactly;
        StaysBound(p, events, k, c, s);
      }
    }
  }

  lemma AfterLast(p: Pool, events: seq<Event>, c: int)
    requires events != [] && p.pairs == map[] && p.failed == {}
    ensures After(p, events) == Next(After(p, events[..|events| - 1]), events[|events| - 1])
    ensures Sound(After(p, events[..|events| - 1]))
  {
    SoundAfter(p, events[..|events| - 1]);
  }

  lemma IsBoundSince(p: Pool, events: seq<Event>, c: int)
    requires events != [] && p.pairs == map[] && p.failed == {} && c in After(p, events).pairs
    requires BoundExactly(p, events[..|events| - 1], c)
    ensures exists k: nat, s :: BoundSince(p, events, k, c, s)
  {
    var n := |events| - 1;
    var q := After(p, events[..n]);
    AfterLast(p, events, c);
    NextFor(q, events[n], c);
    assert events[..n + 1] == events;
    hide After, Next, Sound;
    if c in q.pairs {
      var k: nat, s :| BoundSince(p, events[..n], k, c, s);
      SamePrefix(p, events, n, k, c, s);
      assert !EndsAt(events, k, n, c, s) && Connects(p, events, k, c, s);
      forall j | k < j < n ensures !EndsAt(events, k, j, c, s) {
        assert !EndsAt(events[..n], k, j, c, s);
      }
      hide EndsAt, Connects, BoundExactly;
      LongerBound(p, events, k, c, s);
    } else {
      assert Connects(p, events, n, c, After(p, events).pairs[c]);
      assert BoundSince(p, events, n, c, After(p, events).pairs[c]);
    }
  }

  lemma LongerBound(p: Pool, events: seq<Event>, k: nat, c: int, s: int)
    requires events != [] && Connects(p, events, k, c, s)
    requires forall j :: k < j < |events| - 1 ==> !EndsAt(events, k, j, c, s)
    requires k < |events| - 1 ==> !EndsAt(events, k, |events| - 1, c, s)
    ensures BoundSince(p, events, k, c, s)
  {
    hide EndsAt, Connects;
  }

  lemma StaysBound(p: Pool, events: seq<Event>, k: nat, c: int, s: int)
    requires events != [] && p.pairs == map[] && p.failed == {} && BoundSince(p, events, k, c, s)
    requires BoundExactly(p, events[..|events| - 1], c)
    ensures c in After(p, events).pairs && After(p, events).pairs[c] == s
    ensures c in After(p, events).failed <==> ServerFailed(events, k, |events|, s)
  {
    var n := |events| - 1;
    var q := After(p, events[..n]);
    AfterLast(p, events, c);
    NextFor(q, events[n], c);
    assert events[..n + 1] == events;
    hide After, Next, Sound;
    if k < n {
      SamePrefix(p, events, n, k, c, s);
      assert BoundSince(p, events[..n], k, c, s);
      FailedNext(events, k, n, s);
      assert !EndsAt(events, k, n, c, s);
    }
  }

  lemma FailedNext(events: seq<Event>, k: nat, n: nat, s: int)
    requires k < n < |events|
    ensures ServerFailed(events, k, n + 1, s) <==> ServerFailed(events, k, n, s) || FailsAt(events[n], s)
  {
    if ServerFailed(events, k, n, s) {
      var i :| k < i < n && FailsAt(events[i], s);
    }
  }

  /** A new client is turned away exactly if its descriptor cannot be new or nothing is idle, and
      otherwise gets the idle server with the smallest descriptor. */
  lemma ConnectsIff(p: Pool, events: seq<Event>, k: nat, c: int)
    requires k < |events| && events[k] == Client(c)
    ensures var before := After(p, events[..k]);
            (exists s :: Connects(p, events, k, c, s)) <==> c >= 0 && !before.IsOpen(c) && before.idle != {}
    ensures var before := After(p, events[..k]);
            forall s :: Connects(p, events, k, c, s) ==> s in before.idle && forall t :: t in before.idle ==> s <= t
  {
    var before := After(p, events[..k]);
    assert events[..k + 1][..k] == events[..k];
    assert After(p, events[..k + 1]) == Next(before, Client(c));
    hide After;
    if c >= 0 && !before.IsOpen(c) && before.idle != {} {
      assert Connects(p, events, k, c, Least(before.idle));
    }
  }

  /** The manager holds exactly this. */
  ghost predicate Represents(m: Mgr, p: Pool)
    reads m, m.all
  {
    && m.Valid() && SameDescriptors(m.conns.Keys, m.used.Keys, m.freed.Keys, m.open, p)
    && forall c :: c in p.pairs ==> Bound(m, c, p.pairs[c], c in p.failed)
  }

  ghost predicate SameDescriptors(conns: set<int>, used: set<int>, freed: set<int>, open: set<int>, p: Pool) {
    && p.failed <= p.pairs.Keys && conns == p.idle && freed == p.broken
    && used == p.pairs.Keys + p.pairs.Values && open == conns + used
  }

  /** A client and its server. */
  ghost predicate Bound(m: Mgr, cltfd: int, srvfd: int, failed: bool)
    reads m, m.all
  {
    && cltfd in m.used && m.used[cltfd] in m.all
    && var c: Conn := m.used[cltfd];
       c.cltfd == cltfd && c.srvfd == srvfd && (c.srvClosed <==> failed)
  }

  lemma SomeKey<K, V>(m: map<K, V>, v: V) returns (k: K)
    requires v in m.Values
    ensures k in m && m[k] == v
  {
    k :| k in m && m[k] == v;
  }

  lemma ValuesAfterAdd(pairs: map<int, int>, c: int, s: int)
    requires c !in pairs
    ensures pairs[c := s].Keys == pairs.Keys + {c} && pairs[c := s].Values == pairs.Values + {s}
  {
    var after := pairs[c := s];
    assert c in after && after[c] == s;
    forall x | x in pairs.Values ensures x in after.Values {
      KeyOf(pairs, after, x);
    }
  }

  lemma KeyOf<K, V>(m: map<K, V>, n: map<K, V>, x: V)
    requires x in m.Values && forall k :: k in m ==> k in n && n[k] == m[k]
    ensures x in n.Values
  {
  }

  /** An idle connection is not one of those that are bound. */
  lemma IdleIsNotUsed(m: Mgr, srvfd: int)
    requires m.Valid() && srvfd in m.conns
    ensures srvfd !in m.used && m.conns[srvfd] in m.all
    ensures forall fd :: fd in m.used ==> m.used[fd] != m.conns[srvfd]
  {
  }

  /** The descriptors after an idle connection has been bound. */
  lemma AfterAdd(conns: set<int>, used: set<int>, freed: set<int>, open: set<int>, p: Pool, fd: int, srvfd: int)
    requires SameDescriptors(conns, used, freed, open, p) && fd !in p.pairs && srvfd in conns
    ensures SameDescriptors(conns - {srvfd}, used + {fd, srvfd}, freed, open + {fd},
                            p.(idle := p.idle - {srvfd}, pairs := p.pairs[fd := srvfd]))
  {
    ValuesAfterAdd(p.pairs, fd, srvfd);
  }

  /** A new client. */
  method ServeClient(m: Mgr, fd: int, ghost p: Pool)
    requires Represents(m, p) && fd >= 0 && fd !in m.open
    modifies m, m.all
    ensures Represents(m, Next(p, Client(fd))) && m.all == old(m.all)
  {
    m.IdleIsAllFiled();
    assert !p.IsOpen(fd) && (p.idle == {} <==> m.conns == map[]);
    if m.conns == map[] {
      var _ := m.PickConn(fd);
      return;
    }
    BindClient(m, fd, p);
  }

  method BindClient(m: Mgr, fd: int, ghost p: Pool)
    requires Represents(m, p) && fd >= 0 && fd !in m.open && !p.IsOpen(fd) && p.idle != {} && m.IdleFiled()
    modifies m, m.all
    ensures Represents(m, Next(p, Client(fd))) && m.all == old(m.all)
  {
    ghost var srvfd := Least(p.idle);
    IdleIsNotUsed(m, srvfd);
    AfterAdd(m.conns.Keys, m.used.Keys, m.freed.Keys, m.open, p, fd, srvfd);
    ghost var q := p.(idle := p.idle - {srvfd}, pairs := p.pairs[fd := srvfd]);
    assert q == Next(p, Client(fd));
    assert fd !in p.pairs && fd !in p.failed;
    hide Mgr.Valid, Mgr.IdleFiled, Next, SameDescriptors, Least;
    ghost var used := m.used;
    var c := Pick(m, fd, srvfd);
    forall k | k in p.pairs ensures Bound(m, k, p.pairs[k], k in p.failed) {
      assert old(Bound(m, k, p.pairs[k], k in p.failed));
      assert m.used[k] == used[k] != c;
    }
    IsBound(m, c, fd, srvfd);
  }

  /** Taking the idle connection with the smallest descriptor. */
  method Pick(m: Mgr, fd: int, ghost srvfd: int) returns (c: Conn)
    requires m.Valid() && m.IdleFiled() && fd >= 0 && fd !in m.open && fd !in m.used && srvfd !in m.used
    requires srvfd in m.conns && m.conns[srvfd] in m.all && forall s :: s in m.conns ==> srvfd <= s
    modifies m, m.all
    ensures m.Valid() && m.all == old(m.all) && c in m.all && c == old(m.conns)[srvfd]
    ensures m.conns.Keys == old(m.conns).Keys - {srvfd} && m.freed == old(m.freed) && m.open == old(m.open) + {fd}
    ensures m.used == old(m.used)[fd := c][srvfd := c] && m.used.Keys == old(m.used).Keys + {fd, srvfd}
    ensures c.cltfd == fd && c.srvfd == srvfd && !c.srvClosed
    ensures forall d :: d in m.all ==>
              d.srvfd == old(d.srvfd) && d.srvClosed == old(d.srvClosed) && (d != c ==> d.cltfd == old(d.cltfd))
  {
    hide Mgr.Valid, Mgr.IdleFiled;
    var picked := m.PickConn(fd);
    assert picked != null;
    c := picked;
  }

  lemma IsBound(m: Mgr, c: Conn, fd: int, srvfd: int)
    requires fd in m.used && m.used[fd] == c && c in m.all && c.cltfd == fd && c.srvfd == srvfd && !c.srvClosed
    ensures Bound(m, fd, srvfd, false)
  {
  }

  /** No descriptor stands for two ends. */
  ghost predicate OneEnd(pairs: map<int, int>) {
    && pairs.Keys !! pairs.Values
    && forall j, k :: j in pairs && k in pairs && j != k ==> pairs[j] != pairs[k]
  }

  lemma EndsAreDistinct(m: Mgr, p: Pool)
    requires Represents(m, p)
    ensures OneEnd(p.pairs)
  {
    forall k | k in p.pairs ensures m.used[p.pairs[k]] == m.used[k] && p.pairs[k] !in p.pairs {
      assert Bound(m, k, p.pairs[k], k in p.failed);
      var s := p.pairs[k];
      assert s in p.pairs ==> Bound(m, s, p.pairs[s], s in p.failed);
    }
    forall j, k | j in p.pairs && k in p.pairs && p.pairs[j] == p.pairs[k] ensures j == k {
      assert Bound(m, j, p.pairs[j], j in p.failed) && Bound(m, k, p.pairs[k], k in p.failed);
    }
  }

  /** The connection of a registered descriptor, seen from the client and from the server. */
  lemma WhichEnd(m: Mgr, p: Pool, fd: int)
    requires Represents(m, p) && fd in m.used
    ensures m.used[fd] != null && m.used[fd] in m.all
    ensures var c: Conn := m.used[fd];
            && c.cltfd in p.pairs && p.pairs[c.cltfd] == c.srvfd && m.used[c.cltfd] == c
            && (c.srvClosed <==> c.cltfd in p.failed)
            && (fd in p.pairs <==> fd == c.cltfd) && (fd !in p.pairs ==> fd == c.srvfd)
  {
    EndsAreDistinct(m, p);
    if fd in p.pairs {
      assert Bound(m, fd, p.pairs[fd], fd in p.failed);
    } else {
      assert fd in p.pairs.Values;
      var k := SomeKey(p.pairs, fd);
      assert Bound(m, k, p.pairs[k], k in p.failed);
    }
  }

  /** The descriptors after a client has left. */
  lemma AfterFree(conns: set<int>, used: set<int>, freed: set<int>, open: set<int>, p: Pool, fd: int)
    requires SameDescriptors(conns, used, freed, open, p) && OneEnd(p.pairs) && fd in p.pairs && conns !! used
    ensures SameDescriptors(conns, used - {fd, p.pairs[fd]}, freed + {p.pairs[fd]}, open - {fd, p.pairs[fd]},
                            p.(pairs := p.pairs - {fd}, failed := p.failed - {fd}, broken := p.broken + {p.pairs[fd]}))
  {
    var rest := p.pairs - {fd};
    forall s | s in p.pairs.Values && s != p.pairs[fd] ensures s in rest.Values {
      var k := SomeKey(p.pairs, s);
      assert k in rest && rest[k] == s;
    }
    forall s | s in rest.Values ensures s in p.pairs.Values && s != p.pairs[fd] {
      var k := SomeKey(rest, s);
      assert k in p.pairs && p.pairs[k] == s;
    }
    assert rest.Values == p.pairs.Values - {p.pairs[fd]};
    assert rest.Keys == p.pairs.Keys - {fd};
  }

  lemma ManagerSets(m: Mgr)
    requires m.Valid()
    ensures m.conns.Keys !! m.used.Keys
  {
  }

  /** What an event at a client, or at a server, makes of the pool. */
  lemma NextAtClient(p: Pool, fd: int, type_: OpType, res: RetCode)
    requires fd in p.pairs
    ensures Next(p, Ready(fd, type_, res)) ==
              if type_ != ERROR && (res == IOERR || res == CLOSED || fd in p.failed)
              then p.(pairs := p.pairs - {fd}, failed := p.failed - {fd}, broken := p.broken + {p.pairs[fd]})
              else p
  {
  }

  lemma NextAtServer(p: Pool, fd: int, type_: OpType, res: RetCode, clt: int)
    requires fd !in p.pairs && clt in p.pairs && p.pairs[clt] == fd && OneEnd(p.pairs)
    ensures Next(p, Ready(fd, type_, res)) ==
              if type_ != ERROR && (res == IOERR || res == CLOSED) then p.(failed := p.failed + {clt}) else p
  {
    var failed := type_ != ERROR && (res == IOERR || res == CLOSED);
    var more := set c | c in p.pairs && p.pairs[c] == fd && failed;
    if failed {
      forall c | c in more ensures c == clt {
      }
      assert clt in more;
      assert more == {clt};
    } else {
      assert more == {};
    }
  }

  lemma FailedIsBound(conns: set<int>, used: set<int>, freed: set<int>, open: set<int>, p: Pool, clt: int)
    requires SameDescriptors(conns, used, freed, open, p) && clt in p.pairs
    ensures SameDescriptors(conns, used, freed, open, p.(failed := p.failed + {clt}))
  {
  }

  /** An event for the descriptor of a client. */
  method ServeClientEvent(m: Mgr, fd: int, type_: OpType, res: RetCode, ghost p: Pool)
    requires Represents(m, p) && fd in p.pairs && fd in m.used
    modifies m, m.all
    ensures Represents(m, Next(p, Ready(fd, type_, res))) && m.all == old(m.all)
  {
    EndsAreDistinct(m, p);
    WhichEnd(m, p, fd);
    ManagerSets(m);
    AfterFree(m.conns.Keys, m.used.Keys, m.freed.Keys, m.open, p, fd);
    OthersDiffer(m, p, fd);
    NextAtClient(p, fd, type_, res);
    ghost var used, freed, srvfd := m.used, m.freed.Keys, p.pairs[fd];
    hide Mgr.Valid, SameDescriptors, OneEnd, Next;
    var ret := ProcessClient(m, fd, type_, res, m.used[fd]);
    assert m.used.Keys == if ret == CLOSED then used.Keys - {fd, srvfd} else used.Keys;
    forall k | k in p.pairs && (k != fd || ret != CLOSED) ensures Bound(m, k, p.pairs[k], k in p.failed) {
      assert old(Bound(m, k, p.pairs[k], k in p.failed));
    }
  }

  /** An event for a client: it is freed, or nothing changes. */
  method ProcessClient(m: Mgr, fd: int, type_: OpType, res: RetCode, ghost c: Conn) returns (ret: RetCode)
    requires m.Valid() && fd in m.used && m.used[fd] == c && c in m.all && fd == c.cltfd && fd != c.srvfd
    modifies m, m.all
    ensures m.Valid() && m.all == old(m.all) && m.conns == old(m.conns)
    ensures ret == CLOSED <==> type_ != ERROR && (res == IOERR || res == CLOSED || old(c.srvClosed))
    ensures ret == CLOSED ==> m.used == old(m.used) - {fd, c.srvfd} && m.open == old(m.open) - {fd, c.srvfd}
                              && m.freed.Keys == old(m.freed).Keys + {c.srvfd}
    ensures ret != CLOSED ==> m.used == old(m.used) && m.open == old(m.open) && m.freed == old(m.freed)
                              && c.cltfd == old(c.cltfd) && c.srvClosed == old(c.srvClosed)
    ensures forall d :: d in m.all ==>
              d.srvfd == old(d.srvfd) && (d != c ==> d.cltfd == old(d.cltfd) && d.srvClosed == old(d.srvClosed))
  {
    hide Mgr.Valid;
    ret := m.Process(fd, type_, res);
  }

  lemma OthersDiffer(m: Mgr, p: Pool, clt: int)
    requires Represents(m, p) && clt in p.pairs && clt in m.used
    ensures forall k :: k in p.pairs && k != clt ==>
              k in m.used && m.used[k] != m.used[clt] && p.pairs[k] != p.pairs[clt] && k != p.pairs[clt]
  {
    EndsAreDistinct(m, p);
    assert Bound(m, clt, p.pairs[clt], clt in p.failed);
    forall k | k in p.pairs && k != clt ensures k in m.used && m.used[k] != m.used[clt] {
      assert Bound(m, k, p.pairs[k], k in p.failed);
    }
  }

  /** An event for the descriptor of a server. */
  method ServeServerEvent(m: Mgr, fd: int, type_: OpType, res: RetCode, ghost p: Pool)
    requires Represents(m, p) && fd !in p.pairs && fd in m.used
    modifies m, m.all
    ensures Represents(m, Next(p, Ready(fd, type_, res))) && m.all == old(m.all)
  {
    WhichEnd(m, p, fd);
    ghost var x: Conn := m.used[fd];
    ghost var clt := x.cltfd;
    EndsAreDistinct(m, p);
    OthersDiffer(m, p, clt);
    NextAtServer(p, fd, type_, res, clt);
    FailedIsBound(m.conns.Keys, m.used.Keys, m.freed.Keys, m.open, p, clt);
    ghost var q := Next(p, Ready(fd, type_, res));
    hide Mgr.Valid, SameDescriptors, OneEnd, Next;
    var _ := m.Process(fd, type_, res);
    forall k | k in p.pairs ensures Bound(m, k, p.pairs[k], k in q.failed) {
      assert old(Bound(m, k, p.pairs[k], k in p.failed));
    }
  }

  /** The reconnects of all broken connections. */
  method Reconnect(m: Mgr, fds: map<int, int>, ghost p: Pool)
    requires Represents(m, p) && CanReconnect(p, fds)
    modifies m, m.all
    ensures Represents(m, Next(p, Recycle(fds))) && m.all <= old(m.all)
  {
    EndsAreDistinct(m, p);
    ghost var q, used := Next(p, Recycle(fds)), m.used;
    assert Given(m.freed, fds, map[]) == set k | k in p.broken && fds[k] >= 0 :: fds[k];
    m.RecycleConns(fds);
    forall k | k in p.pairs ensures Bound(m, k, p.pairs[k], k in p.failed) {
      assert old(Bound(m, k, p.pairs[k], k in p.failed));
      StillBound(m, k, p.pairs[k]);
    }
  }

  /** The other descriptor under which a connection is registered is that of its server. */
  lemma StillBound(m: Mgr, cltfd: int, srvfd: int)
    requires m.Valid() && cltfd in m.used && srvfd in m.used && m.used[cltfd] == m.used[srvfd] && cltfd != srvfd
    requires m.used[cltfd] != null && m.used[cltfd].cltfd == cltfd
    ensures m.used[cltfd] in m.all && m.used[cltfd].srvfd == srvfd
  {
  }

  ghost function Start(fds: seq<int>): Pool {
    Pool(set i | 0 <= i < |fds| && fds[i] >= 0 :: fds[i], map[], {}, {})
  }

  lemma RepresentsStart(m: Mgr, fds: seq<int>)
    requires m.Valid() && m.used == map[] && m.freed == map[] && m.open == m.conns.Keys
    requires forall fd :: fd in m.conns <==> fd >= 0 && fd in fds
    ensures Represents(m, Start(fds))
  {
    var p := Start(fds);
    forall fd | fd in m.conns ensures fd in p.idle {
      var i :| 0 <= i < |fds| && fds[i] == fd;
    }
    assert p.pairs.Values == {};
  }

  /** One event, unless the system cannot produce it. */
  method Serve(m: Mgr, event: Event, ghost p: Pool)
    requires Represents(m, p)
    modifies m, m.all
    ensures Represents(m, Next(p, event)) && m.all <= old(m.all)
  {
    Possible(m, p, event);
    match event {
      case Client(fd) =>
        if fd >= 0 && fd !in m.open {
          ServeClient(m, fd, p);
        }
      case Ready(fd, type_, res) =>
        if fd in m.used {
          WhichEnd(m, p, fd);
          var c: Conn := m.used[fd];
          hide Represents, Next;
          if c.cltfd == fd {
            ServeClientEvent(m, fd, type_, res, p);
          } else {
            ServeServerEvent(m, fd, type_, res, p);
          }
        }
      case Recycle(fds) =>
        if Reconnects(m, fds) {
          Reconnect(m, fds, p);
        }
    }
  }

  /** The system gives out descriptors that are not open, each once. */
  predicate Reconnects(m: Mgr, fds: map<int, int>)
    reads m
  {
    && m.freed.Keys <= fds.Keys
    && (forall k :: k in m.freed ==> fds[k] >= 0 ==> fds[k] !in m.open)
    && (forall j, k :: j in m.freed && k in m.freed && j != k && fds[j] >= 0 ==> fds[j] != fds[k])
  }

  /** The manager and the pool agree on which events are possible. */
  lemma Possible(m: Mgr, p: Pool, event: Event)
    requires Represents(m, p)
    ensures event.Client? ==> (event.fd in m.open <==> p.IsOpen(event.fd))
    ensures event.Client? && event.fd in m.open ==> Next(p, event) == p
    ensures event.Client? && event.fd < 0 ==> Next(p, event) == p
    ensures event.Ready? && event.fd !in m.used ==> Next(p, event) == p
    ensures event.Recycle? ==> (Reconnects(m, event.fds) <==> CanReconnect(p, event.fds))
  {
    if event.Ready? && event.fd !in m.used {
      assert event.fd !in p.pairs && event.fd !in p.pairs.Values;
      forall c | c in p.pairs ensures p.pairs[c] != event.fd {
        ValueIn(p.pairs, c);
      }
      assert Next(p, event).failed == p.failed;
    }
  }

  lemma ValueIn<K, V>(m: map<K, V>, k: K)
    requires k in m
    ensures m[k] in m.Values
  {
  }

  /** Over any run of new clients, events and reconnects the manager holds what the pool says,
      where events that the system cannot produce are passed over.  So every connection is in
      one place, exactly the clients of the pool are bound, each to its server, and the count
      of used descriptors is right. */
  method Run(fds: seq<int>, events: seq<Event>) returns (m: Mgr)
    requires forall i, j :: 0 <= i < j < |fds| && fds[i] >= 0 ==> fds[i] != fds[j]
    ensures fresh(m) && Represents(m, After(Start(fds), events))
    ensures forall c :: c in m.all ==>
              (if m.Idle(c) then 1 else 0) + (if m.Active(c) then 1 else 0) + (if m.Broken(c) then 1 else 0) == 1
    ensures |m.used| == 2 * |set c | c in m.all && m.Active(c)|
  {
    m := new Mgr(fds);
    RepresentsStart(m, fds);
    hide Start, Next, Mgr.Valid, SameDescriptors;
    var i := 0;
    while i < |events|
      invariant i <= |events| && fresh(m) && fresh(m.all)
      invariant Represents(m, After(Start(fds), events[..i]))
    {
      assert events[..i + 1][..i] == events[..i];
      Serve(m, events[i], After(Start(fds), events[..i]));
      i := i + 1;
    }
    assert events[..i] == events;
    forall c | c in m.all
      ensures (if m.Idle(c) then 1 else 0) + (if m.Active(c) then 1 else 0) + (if m.Broken(c) then 1 else 0) == 1
    {
      m.ExactlyOnePlace(c);
    }
    m.UsedConnCount();
  }
}
