/** The connection manager of the load balancer: server connections are idle, bound to a
    client, or waiting to be reconnected, each in its own map. */
module ConnPool {
  import opened Wrappers

  datatype RetCode = OK | NOTHING | IOERR | CLOSED | BUFFER_FULL | BUFFER_EMPTY | TRY_AGAIN
  datatype OpType = READ | WRITE | ERROR

  /** The part of a connection that the manager looks at; -1 is no descriptor. */
  class Conn {
    var cltfd: int
    var srvfd: int
    var srvClosed: bool

    constructor (srvfd: int)
      ensures this.srvfd == srvfd && cltfd == -1 && !srvClosed
    {
      this.srvfd, cltfd, srvClosed := srvfd, -1, false;
    }
  }

  /** insert of a map leaves an entry that is already there alone. */
  function Insert<V>(m: map<int, V>, key: int, value: V): map<int, V> {
    if key in m then m else m[key := value]
  }

  lemma SomeElement<T>(s: set<T>) returns (x: T)
    requires s != {}
    ensures x in s
  {
    x :| x in s;
  }

  lemma {:induction false} InjectiveSize<K, V>(m: map<K, V>)
    requires forall j, k :: j in m && k in m && j != k ==> m[j] != m[k]
    ensures |m.Values| == |m|
    decreases |m.Keys|
  {
    if m.Keys != {} {
      var k := SomeElement(m.Keys);
      var rest := m - {k};
      assert rest.Keys == m.Keys - {k};
      InjectiveSize(rest);
      assert m == rest[k := m[k]];
      assert m.Values == rest.Values + {m[k]};
    }
  }

  ghost predicate IsLeast(m: int, s: set<int>) {
    m in s && forall x :: x in s ==> m <= x
  }

  lemma Smallest(s: set<int>)
    requires s != {}
    ensures exists m :: IsLeast(m, s)
    decreases |s|
  {
    var x := SomeElement(s);
    if s == {x} {
      assert IsLeast(x, s);
    } else {
      Smallest(s - {x});
      var m :| IsLeast(m, s - {x});
      var least := if m < x then m else x;
      assert forall y :: y in s ==> y == x || y in s - {x};
      assert IsLeast(least, s);
    }
  }

  /** The key of begin(). */
  method FirstKey(m: map<int, Conn>) returns (key: int)
    requires m != map[]
    ensures key in m && forall k :: k in m ==> key <= k
  {
    assert m.Keys == {} ==> m == map[];
    Smallest(m.Keys);
    assert exists k :: IsLeast(k, m.Keys);
    key :| key in m.Keys && forall k :: k in m.Keys ==> key <= k;
  }

  ghost predicate Extends(was: map<int, Conn>, now: map<int, Conn>) {
    forall fd :: fd in was ==> fd in now && now[fd] == was[fd]
  }

  lemma ExtendsMore(was: map<int, Conn>, now: map<int, Conn>, fd: int, c: Conn)
    requires Extends(was, now) && fd !in now
    ensures Extends(was, now[fd := c])
  {
  }

  ghost predicate AllUnbound(m: map<int, Conn>)
    reads m.Values`cltfd, m.Values`srvClosed
  {
    forall k :: k in m ==> m[k].cltfd == -1 && !m[k].srvClosed
  }

  lemma Shrinks(m: map<int, Conn>, key: int)
    requires key in m
    ensures |m - {key}| < |m| && (m - {key}).Values <= m.Values && m[key] in m.Values
  {
    assert (m - {key}).Keys == m.Keys - {key};
    assert |m.Keys - {key}| == |m.Keys| - 1;
  }

  lemma OneUnbound(m: map<int, Conn>, key: int)
    requires AllUnbound(m) && key in m
    ensures m[key].cltfd == -1 && !m[key].srvClosed && AllUnbound(m - {key})
  {
  }

  /** The reconnects of the broken connections `f` have been done except for `todo`, and none
      of the rest is in `all` or under an open descriptor. */
  ghost predicate Recycling(f: map<int, Conn>, fds: map<int, int>, todo: map<int, Conn>,
                            all: set<Conn>, open: set<int>, conns: map<int, Conn>)
  {
    && f.Keys <= fds.Keys && todo.Keys <= f.Keys
    && (forall k :: k in todo ==> todo[k] == f[k] && f[k] !in all && (fds[k] >= 0 ==> fds[k] !in open))
    && (forall k :: k in f && k !in todo ==>
          (f[k] in all <==> fds[k] >= 0) && (fds[k] >= 0 ==> fds[k] in conns && conns[fds[k]] == f[k]))
    && (forall j, k :: j in f && k in f && j != k ==> f[j] != f[k] && (fds[j] >= 0 ==> fds[j] != fds[k]))
  }

  lemma RecyclingStep(f: map<int, Conn>, fds: map<int, int>, todo: map<int, Conn>,
                      all: set<Conn>, open: set<int>, conns: map<int, Conn>, key: int)
    requires Recycling(f, fds, todo, all, open, conns) && key in todo
    ensures key in f && key in fds && todo[key] == f[key] && f[key] !in all
    ensures fds[key] >= 0 ==>
              && fds[key] !in open
              && Recycling(f, fds, todo - {key}, all + {f[key]}, open + {fds[key]}, conns[fds[key] := f[key]])
    ensures fds[key] < 0 ==> Recycling(f, fds, todo - {key}, all, open, conns)
  {
    assert (todo - {key}).Keys == todo.Keys - {key};
  }

  /** The descriptors that the reconnects done so far have given. */
  ghost function Given(f: map<int, Conn>, fds: map<int, int>, todo: map<int, Conn>): set<int>
    requires f.Keys <= fds.Keys
  {
    set k | k in f && k !in todo && fds[k] >= 0 :: fds[k]
  }

  lemma GivenNext(f: map<int, Conn>, fds: map<int, int>, todo: map<int, Conn>, key: int)
    requires f.Keys <= fds.Keys && key in todo && todo.Keys <= f.Keys
    ensures Given(f, fds, todo - {key}) == Given(f, fds, todo) + if fds[key] >= 0 then {fds[key]} else {}
  {
    var after := Given(f, fds, todo - {key});
    forall fd | fd in after ensures fd in Given(f, fds, todo) + if fds[key] >= 0 then {fds[key]} else {} {
      var k :| k in f && k !in todo - {key} && fds[k] >= 0 && fds[k] == fd;
      assert k == key || k !in todo;
    }
    forall fd | fd in Given(f, fds, todo) ensures fd in after {
      var k :| k in f && k !in todo && fds[k] >= 0 && fds[k] == fd;
      assert k !in todo - {key};
    }
    if fds[key] >= 0 {
      assert key !in todo - {key};
    }
  }

  /** The idle connections and the open descriptors are those of before, and the given ones. */
  ghost predicate GivenOut(f: map<int, Conn>, fds: map<int, int>, todo: map<int, Conn>, before: map<int, Conn>,
                           wasOpen: set<int>, conns: map<int, Conn>, open: set<int>) {
    && f.Keys <= fds.Keys
    && conns.Keys == before.Keys + Given(f, fds, todo) && open == wasOpen + Given(f, fds, todo)
  }

  lemma GivenOutNext(f: map<int, Conn>, fds: map<int, int>, todo: map<int, Conn>, before: map<int, Conn>,
                     wasOpen: set<int>, conns: map<int, Conn>, open: set<int>, key: int, c: Conn)
    requires GivenOut(f, fds, todo, before, wasOpen, conns, open) && key in todo && todo.Keys <= f.Keys
    ensures key in fds
    ensures fds[key] >= 0 ==> GivenOut(f, fds, todo - {key}, before, wasOpen, conns[fds[key] := c], open + {fds[key]})
    ensures fds[key] < 0 ==> GivenOut(f, fds, todo - {key}, before, wasOpen, conns, open)
  {
    GivenNext(f, fds, todo, key);
  }

  class Mgr {
    var conns: map<int, Conn>
    var used: map<int, Conn?>
    var freed: map<int, Conn>
    /** The connections that a failed reconnect has not dropped, and the descriptors that the
        system has given out. */
    ghost var all: set<Conn>
    var open: set<int>

    /** `c` is idle. */
    ghost predicate Idle(c: Conn)
      reads this, c
    {
      c.srvfd in conns && conns[c.srvfd] == c
    }

    /** `c` is bound to a client. */
    ghost predicate Active(c: Conn)
      reads this, c
    {
      c.cltfd in used && used[c.cltfd] == c
    }

    /** `c` waits for a reconnect. */
    ghost predicate Broken(c: Conn)
      reads this, c
    {
      c.srvfd in freed && freed[c.srvfd] == c
    }

    /** Every entry of the three maps is a known connection under its own descriptor. */
    ghost predicate Filed()
      reads this, all
    {
      && (forall fd :: fd in conns ==> conns[fd] in all && conns[fd].srvfd == fd)
      && (forall fd :: fd in freed ==> freed[fd] in all && freed[fd].srvfd == fd)
      && (forall fd :: fd in used ==>
            var c := used[fd];
            c != null && c in all && (fd == c.cltfd || fd == c.srvfd) && Active(c))
    }

    /** Every connection is in a map, in `used` under exactly its two descriptors. */
    ghost predicate Partitioned()
      reads this, all
    {
      && (forall c :: c in all ==> Idle(c) || Active(c) || Broken(c))
      && (forall c :: c in all && Active(c) ==> c.srvfd in used && used[c.srvfd] == c && c.cltfd != c.srvfd)
    }

    /** Idle and active descriptors are open, and no server descriptor of these is the key
        of a broken connection. */
    ghost predicate Descriptors()
      reads this, all
    {
      && conns.Keys <= open && used.Keys <= open && conns.Keys !! used.Keys
      && (forall c :: c in all && (Idle(c) || Active(c)) ==> c.srvfd !in freed)
    }

    /** An idle or broken connection has nothing left of its last client. */
    ghost predicate Unbound()
      reads this, all
    {
      && (forall fd :: fd in conns && conns[fd] in all ==> conns[fd].cltfd == -1 && !conns[fd].srvClosed)
      && (forall fd :: fd in freed && freed[fd] in all ==> freed[fd].cltfd == -1 && !freed[fd].srvClosed)
    }

    ghost predicate Valid()
      reads this, all
    {
      Filed() && Partitioned() && Descriptors() && Unbound()
    }

    /** No connection is in two maps. */
    lemma ExactlyOnePlace(c: Conn)
      requires Valid() && c in all
      ensures (if Idle(c) then 1 else 0) + (if Active(c) then 1 else 0) + (if Broken(c) then 1 else 0) == 1
    {
    }

    /** What get_used_conn_cnt answers: two entries for every active connection. */
    lemma UsedConnCount()
      requires Valid()
      ensures |used| == 2 * |set c | c in all && Active(c)|
    {
      var active := set c | c in all && Active(c);
      var client := map c | c in active :: c.cltfd;
      var server := map c | c in active :: c.srvfd;
      InjectiveSize(client);
      InjectiveSize(server);
      assert client.Keys == active && server.Keys == active;
      forall fd | fd in used.Keys
        ensures fd in client.Values + server.Values
      {
        var c: Conn := used[fd];
        assert c in active && (fd == client[c] || fd == server[c]);
      }
      assert used.Keys == client.Values + server.Values;
    }

    /** The i-th connect gives descriptor fds[i], which is negative when it fails. */
    constructor (fds: seq<int>)
      requires forall i, j :: 0 <= i < j < |fds| && fds[i] >= 0 ==> fds[i] != fds[j]
      ensures Valid() && fresh(all) && used == map[] && freed == map[]
      ensures (forall fd :: fd in conns <==> fd >= 0 && fd in fds) && open == conns.Keys
    {
      conns, used, freed := map[], map[], map[];
      all, open := {}, {};
      new;
      var i := 0;
      while i < |fds|
        invariant i <= |fds| && Valid() && fresh(all)
        invariant used == map[] && freed == map[]
        invariant forall fd :: fd in conns <==> fd >= 0 && fd in fds[..i]
        invariant open == conns.Keys
      {
        hide Filed, Partitioned;
        if fds[i] >= 0 {
          var c := new Conn(fds[i]);
          AddIdle(c, fds[i]);
        }
        i := i + 1;
      }
      assert fds[..i] == fds;
    }

    /** Files a connection under its new server descriptor. */
    method AddIdle(c: Conn, fd: int)
      requires Valid() && c !in all && fd !in open && fd !in freed && c.cltfd == -1 && !c.srvClosed
      modifies this`conns, this`all, this`open, c`srvfd
      ensures Valid() && all == old(all) + {c}
      ensures open == old(open) + {fd} && conns == old(conns)[fd := c]
    {
      assert forall k :: k in used ==> used[k] != c;
      c.srvfd := fd;
      open := open + {fd};
      conns := Insert(conns, fd, c);
      all := all + {c};
    }

    /** The active `c` has become broken, and nothing else has changed. */
    twostate predicate Breaks(c: Conn)
      reads this, c, all
    {
      && c in all && old(Active(c))
      && all == old(all) && conns == old(conns) && freed == old(freed)[c.srvfd := c]
      && used == old(used) - {old(c.cltfd), c.srvfd} && open == old(open) - {old(c.cltfd), c.srvfd}
      && c.cltfd == -1 && !c.srvClosed
      && forall d :: d in all ==>
           d.srvfd == old(d.srvfd) && (d != c ==> d.cltfd == old(d.cltfd) && d.srvClosed == old(d.srvClosed))
    }

    twostate lemma BreaksValid(c: Conn)
      requires old(Valid()) && Breaks(c)
      ensures Valid()
    {
    }

    /** A new client gets the idle connection with the smallest descriptor: pick_conn and the
        init_clt that follows it. */
    method PickConn(cltfd: int) returns (c: Conn?)
      requires IdleFiled() && cltfd !in open && cltfd != -1
      modifies this`conns, this`used, this`open, all`cltfd
      ensures old(Valid()) ==> Valid()
      ensures c == null <==> old(conns) == map[]
      ensures c == null ==> conns == old(conns) && used == old(used) && open == old(open)
      ensures c != null ==>
                && c.srvfd in old(conns) && old(conns)[c.srvfd] == c
                && (forall fd :: fd in old(conns) ==> c.srvfd <= fd)
                && c.cltfd == cltfd && open == old(open) + {cltfd}
                && (old(Valid()) ==> !c.srvClosed)
                && conns == old(conns) - {c.srvfd}
                && used == Insert<Conn?>(Insert<Conn?>(old(used), cltfd, c), c.srvfd, c)
      ensures forall d :: d in all && d != c ==> d.cltfd == old(d.cltfd)
    {
      hide Filed, Partitioned, Descriptors;
      if conns == map[] {
        return null;
      }
      var srvfd := FirstKey(conns);
      var tmp := conns[srvfd];
      if Valid() {
        IdleIsFiled(srvfd);
      }
      Bind(tmp, cltfd);
      return tmp;
    }

    ghost predicate IdleFiled()
      reads this, all
    {
      forall fd :: fd in conns ==> conns[fd] in all && conns[fd].srvfd == fd
    }

    lemma IdleIsAllFiled()
      requires Valid()
      ensures IdleFiled()
    {
    }

    /** Moves an idle connection to its client. */
    method Bind(c: Conn, cltfd: int)
      requires c in all && Idle(c) && cltfd !in open
      modifies this`conns, this`used, this`open, c`cltfd
      ensures old(Valid()) ==> Valid()
      ensures c.cltfd == cltfd && open == old(open) + {cltfd} && conns == old(conns) - {c.srvfd}
      ensures used == Insert<Conn?>(Insert<Conn?>(old(used), cltfd, c), c.srvfd, c)
    {
      hide Unbound;
      ghost var valid := Valid();
      var srvfd := c.srvfd;
      assert valid ==> cltfd !in used && srvfd !in used && cltfd != srvfd;
      conns := conns - {srvfd};
      used := Insert<Conn?>(Insert<Conn?>(used, cltfd, c), srvfd, c);
      c.cltfd := cltfd;
      open := open + {cltfd};
      if valid {
        StillUnbound(c);
      }
    }

    twostate lemma StillUnbound(c: Conn)
      requires old(Valid()) && old(Idle(c)) && c.srvfd == old(c.srvfd)
      requires all == old(all) && conns == old(conns) - {c.srvfd} && freed == old(freed)
      requires forall d :: d in all && d != c ==> d.cltfd == old(d.cltfd) && d.srvClosed == old(d.srvClosed)
      ensures Unbound()
    {
    }

    /** Unbinds an active connection. */
    method FreeConn(c: Conn)
      requires Valid() && c in all && Active(c)
      modifies this`used, this`freed, this`open, c`cltfd, c`srvClosed
      ensures Valid() && Broken(c) && c.cltfd == -1 && !c.srvClosed
      ensures used == old(used) - {old(c.cltfd), c.srvfd}
      ensures c.srvfd !in old(freed) && freed == old(freed)[c.srvfd := c]
      ensures open == old(open) - {old(c.cltfd), c.srvfd}
    {
      ActiveIsNotBroken(c);
      var cltfd, srvfd := c.cltfd, c.srvfd;
      open := open - {cltfd, srvfd};
      used := used - {cltfd};
      used := used - {srvfd};
      c.cltfd := -1;
      c.srvClosed := false;
      freed := Insert(freed, srvfd, c);
      assert Breaks(c);
      BreaksValid(c);
    }

    /** One readiness event, when the read or write that it leads to answers `res`.  The
        manager stays consistent exactly when the descriptor is registered; otherwise the
        lookup leaves an empty entry behind. */
    method Process(fd: int, type_: OpType, res: RetCode) returns (ret: RetCode)
      requires Valid() || (fd in used && used[fd] == null)
      modifies this`used, this`freed, this`open, all`cltfd, all`srvClosed
      ensures Valid() <==> fd in old(used) && old(used)[fd] != null
      ensures fd !in old(used) || old(used)[fd] == null ==> ret == NOTHING && used == old(used)[fd := null]
      ensures fd !in old(used) || old(used)[fd] == null ==>
                conns == old(conns) && freed == old(freed) && open == old(open)
                && forall d :: d in all ==> d.cltfd == old(d.cltfd) && d.srvClosed == old(d.srvClosed)
      ensures fd in old(used) && old(used)[fd] != null ==>
                var c: Conn := old(used[fd]);
                var failed := type_ != ERROR && (res == IOERR || res == CLOSED);
                var frees := fd == old(c.cltfd) && type_ != ERROR && (failed || old(c.srvClosed));
                && (ret == CLOSED <==> frees)
                && (frees ==> Broken(c) && c.cltfd == -1 && !c.srvClosed && used == old(used) - {fd, c.srvfd}
                              && freed == old(freed)[c.srvfd := c] && open == old(open) - {fd, c.srvfd})
                && (!frees ==> ret == OK && used == old(used) && freed == old(freed) && open == old(open)
                               && c.cltfd == old(c.cltfd)
                               && c.srvClosed == (old(c.srvClosed) || (fd == c.srvfd && failed)))
                && forall d :: d in all && d != c ==> d.cltfd == old(d.cltfd) && d.srvClosed == old(d.srvClosed)
    {
      if fd !in used {
        used := used[fd := null];
      }
      var c := used[fd];
      if c == null {
        return NOTHING;
      }
      if c.cltfd == fd {
        match type_ {
          case READ =>
            if res == IOERR || res == CLOSED {
              FreeConn(c);
              return CLOSED;
            }
            if c.srvClosed {
              FreeConn(c);
              return CLOSED;
            }
          case WRITE =>
            if res == IOERR || res == CLOSED {
              FreeConn(c);
              return CLOSED;
            }
            if c.srvClosed {
              FreeConn(c);
              return CLOSED;
            }
          case ERROR =>
        }
      } else if c.srvfd == fd {
        match type_ {
          case READ =>
            if res == IOERR || res == CLOSED {
              c.srvClosed := true;
            }
          case WRITE =>
            if res == IOERR || res == CLOSED {
              c.srvClosed := true;
            }
          case ERROR =>
        }
      } else {
        return NOTHING;
      }
      return OK;
    }

    /** Reconnects every broken connection; fds[k] is what connecting again gives for the one
        with the old descriptor k, negative when it fails, which drops the connection. */
    method RecycleConns(fds: map<int, int>)
      requires Valid() && freed.Keys <= fds.Keys
      requires forall k :: k in freed && fds[k] >= 0 ==> fds[k] !in open
      requires forall j, k :: j in freed && k in freed && j != k && fds[j] >= 0 ==> fds[j] != fds[k]
      modifies this`conns, this`freed, this`open, this`all, all`srvfd
      ensures Valid() && freed == map[] && used == old(used)
      ensures forall k :: k in old(freed) && fds[k] >= 0 ==> fds[k] in conns && conns[fds[k]] == old(freed)[k]
      ensures forall fd :: fd in old(conns) ==> fd in conns && conns[fd] == old(conns)[fd]
      ensures forall k :: k in old(freed) ==> (old(freed)[k] in all <==> fds[k] >= 0)
      ensures forall c :: c in old(all) && !old(Broken(c)) ==> c in all
      ensures all <= old(all)
      ensures conns.Keys == old(conns).Keys + Given(old(freed), fds, map[])
      ensures open == old(open) + Given(old(freed), fds, map[])
    {
      var f := freed;
      ghost var before, wasOpen := conns, open;
      TakeBroken();
      ghost var kept := all;
      StartRecycling(f, fds, before);
      hide Filed, Partitioned, Descriptors, Unbound, Reconnecting;
      ReconnectAll(f, fds, before, kept, wasOpen);
      EndRecycling(f, fds, before, kept);
    }

    /** The loop over the broken connections `f`. */
    method ReconnectAll(f: map<int, Conn>, fds: map<int, int>, ghost before: map<int, Conn>, ghost kept: set<Conn>,
                        ghost wasOpen: set<int>)
      requires Reconnecting(f, fds, f, before, kept) && GivenOut(f, fds, f, before, wasOpen, conns, open)
      modifies this`conns, this`open, this`all, f.Values`srvfd
      ensures Reconnecting(f, fds, map[], before, kept) && all <= old(all) + f.Values
      ensures GivenOut(f, fds, map[], before, wasOpen, conns, open)
    {
      hide Filed, Partitioned, Descriptors, Unbound, Reconnecting, GivenOut;
      var todo := f;
      while todo != map[]
        invariant Reconnecting(f, fds, todo, before, kept) && GivenOut(f, fds, todo, before, wasOpen, conns, open)
        invariant all <= old(all) + f.Values && todo.Values <= f.Values
        decreases |todo|
      {
        var key := FirstKey(todo);
        Shrinks(todo, key);
        TodoKeys(f, fds, todo, before, kept);
        GivenOutNext(f, fds, todo, before, wasOpen, conns, open, key, todo[key]);
        Reconnect(key, fds, todo, f, before, kept);
        todo := todo - {key};
      }
    }

    /** The connections in `todo` are still to be reconnected, those of `kept` are filed. */
    ghost predicate Reconnecting(f: map<int, Conn>, fds: map<int, int>, todo: map<int, Conn>,
                                 before: map<int, Conn>, kept: set<Conn>)
      reads this, all, todo.Values`cltfd, todo.Values`srvClosed
    {
      && Valid() && freed == map[] && kept <= all
      && Recycling(f, fds, todo, all, open, conns) && Extends(before, conns) && AllUnbound(todo)
    }

    lemma StartRecycling(f: map<int, Conn>, fds: map<int, int>, before: map<int, Conn>)
      requires Valid() && freed == map[] && conns == before && f.Keys <= fds.Keys
      requires forall k :: k in f ==> f[k] !in all && (fds[k] >= 0 ==> fds[k] !in open)
      requires forall k :: k in f ==> f[k].cltfd == -1 && !f[k].srvClosed
      requires forall j, k :: j in f && k in f && j != k ==> f[j] != f[k] && (fds[j] >= 0 ==> fds[j] != fds[k])
      ensures Reconnecting(f, fds, f, before, all)
    {
      hide Filed, Partitioned, Descriptors, Unbound;
    }

    lemma EndRecycling(f: map<int, Conn>, fds: map<int, int>, before: map<int, Conn>, kept: set<Conn>)
      requires Reconnecting(f, fds, map[], before, kept)
      ensures Valid() && freed == map[] && kept <= all && f.Keys <= fds.Keys
      ensures forall fd :: fd in before ==> fd in conns && conns[fd] == before[fd]
      ensures forall k :: k in f ==>
                (f[k] in all <==> fds[k] >= 0) && (fds[k] >= 0 ==> fds[k] in conns && conns[fds[k]] == f[k])
    {
      hide Filed, Partitioned, Descriptors, Unbound;
    }

    lemma TodoKeys(f: map<int, Conn>, fds: map<int, int>, todo: map<int, Conn>, before: map<int, Conn>, kept: set<Conn>)
      requires Reconnecting(f, fds, todo, before, kept)
      ensures todo.Keys <= f.Keys <= fds.Keys
    {
    }

    /** One turn of the loop. */
    method Reconnect(key: int, fds: map<int, int>, todo: map<int, Conn>,
                     ghost f: map<int, Conn>, ghost before: map<int, Conn>, ghost kept: set<Conn>)
      requires Reconnecting(f, fds, todo, before, kept) && key in todo && key in fds
      modifies this`conns, this`open, this`all, {todo[key]}`srvfd
      ensures Reconnecting(f, fds, todo - {key}, before, kept)
      ensures conns == if fds[key] >= 0 then old(conns)[fds[key] := todo[key]] else old(conns)
      ensures open == old(open) + if fds[key] >= 0 then {fds[key]} else {}
      ensures all <= old(all) + {todo[key]}
    {
      hide Filed, Partitioned, Descriptors, Unbound, Recycling, Extends, AllUnbound;
      var tmp := todo[key];
      RecyclingStep(f, fds, todo, all, open, conns, key);
      OneUnbound(todo, key);
      var srvfd := fds[key];
      if srvfd >= 0 {
        IdleIsOpen();
        ExtendsMore(before, conns, srvfd, tmp);
        AddIdle(tmp, srvfd);
      }
    }

    /** The broken connections leave the manager; clearing the map at once instead of after
        the loop is not observable. */
    method TakeBroken()
      requires Valid()
      modifies this`freed, this`all
      ensures Valid() && freed == map[] && all <= old(all)
      ensures forall k :: k in old(freed) ==>
                var c := old(freed)[k];
                c in old(all) && c !in all && c.cltfd == -1 && !c.srvClosed
      ensures forall c :: c in old(all) ==> (c in all <==> !old(Broken(c)))
      ensures forall j, k :: j in old(freed) && k in old(freed) && j != k ==> old(freed)[j] != old(freed)[k]
    {
      all := all - set c | c in all && Broken(c);
      freed := map[];
    }

    lemma IdleIsFiled(fd: int)
      requires Valid() && fd in conns
      ensures conns[fd] in all && conns[fd].srvfd == fd && !conns[fd].srvClosed
    {
    }

    lemma ActiveIsNotBroken(c: Conn)
      requires Valid() && c in all && Active(c)
      ensures c.srvfd !in freed
    {
    }

    lemma IdleIsOpen()
      requires Valid()
      ensures conns.Keys <= open
    {
    }
  }

  /** An event for a descriptor that is not registered, before that descriptor is given to a
      new client: the empty entry stays, the client is bound without an entry of its own, and
      its events lead to nothing. */
  method StrayEvent(m: Mgr, fd: int, stray: OpType, type_: OpType, res: RetCode) returns (c: Conn?, ret: RetCode)
    requires m.Valid() && fd !in m.used && fd !in m.open && fd != -1 && m.conns != map[]
    modifies m, m.all
    ensures c != null && c.cltfd == fd && ret == NOTHING
    ensures fd in m.used && m.used[fd] == null && !m.Valid()
  {
    var _ := m.Process(fd, stray, res);
    c := m.PickConn(fd);
    ret := m.Process(fd, type_, res);
  }
}
