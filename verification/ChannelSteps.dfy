/** The channel to the privileged process, with both processes running at once: a message is
    written and read in pieces of any size, and reading may start before it is complete. */
module ChannelSteps {
  import opened FtpTransfer
  import opened PrivChannel
  import opened Wrappers

  /** A command of the ftp process with its arguments. */
  datatype Call = GetDataSock(port: nat, ip: seq<Item>) | PasvActive | PasvListen | PasvAccept
  {
    ghost predicate Valid() {
      GetDataSock? ==> port < 0x1_0000 && |ip| <= IP_BUFFER
    }

    function Cmd(): nat {
      match this
      case GetDataSock(_, _) => PRIV_SOCK_GET_DATA_SOCK
      case PasvActive => PRIV_SOCK_PASV_ACTIVE
      case PasvListen => PRIV_SOCK_PASV_LISTEN
      case PasvAccept => PRIV_SOCK_PASV_ACCEPT
    }

    /** What the ftp process writes. */
    function Request(): seq<Item> {
      [Byte(Cmd())] + if GetDataSock? then EncodeInt(port) + (EncodeInt(|ip|) + ip) else []
    }
  }

  /** How many bytes the privileged process still wants with its current readn, after `got`; 0
      when it has the whole command, or a length that does not fit. */
  function Wanted(got: seq<Item>): nat {
    if got == [] then 1
    else if Value(got[0]) != PRIV_SOCK_GET_DATA_SOCK then 0
    else if |got| < 5 then 5 - |got|
    else if |got| < 9 then 9 - |got|
    else
      var len := DecodeInt(got[5..9]);
      if 0 <= len <= IP_BUFFER && |got| < 9 + len then 9 + len - |got| else 0
  }

  /** How many items the ftp process still wants of the answer to `cmd`. */
  function Needed(cmd: nat, inbox: seq<Item>): nat {
    if cmd == PRIV_SOCK_PASV_ACTIVE || cmd == PRIV_SOCK_PASV_LISTEN then
      if |inbox| < 4 then 4 - |inbox| else 0
    else if inbox == [] then 1
    else if Value(inbox[0]) == PRIV_SOCK_RESULT_OK && |inbox| < 2 then 1
    else 0
  }

  lemma RequestParts(call: Call)
    requires call.Valid() && call.GetDataSock?
    ensures var all := call.Request();
            |all| == 9 + |call.ip| && all[1..5] == EncodeInt(call.port)
            && all[5..9] == EncodeInt(|call.ip|) && all[9..] == call.ip
  {
  }

  /** Reading a command piece by piece stops at its end, neither before nor behind it. */
  lemma WantedIsRequest(call: Call, got: seq<Item>, rest: seq<Item>)
    requires call.Valid() && got + rest == call.Request()
    ensures Wanted(got) <= |rest|
    ensures Wanted(got) == 0 <==> rest == []
  {
    var all := call.Request();
    assert got != [] ==> got[0] == all[0];
    if call.GetDataSock? {
      var ip := call.ip;
      RequestParts(call);
      IntRoundTrip(|ip|);
      if |got| >= 9 {
        assert got[5..9] == all[5..9];
      }
    }
  }

  /** The same for an answer. */
  lemma NeededIsReply(cmd: nat, listenFd: int, os: Os, inbox: seq<Item>, rest: seq<Item>)
    requires cmd in {PRIV_SOCK_GET_DATA_SOCK, PRIV_SOCK_PASV_ACTIVE, PRIV_SOCK_PASV_LISTEN, PRIV_SOCK_PASV_ACCEPT}
    requires inbox + rest == ReplyTo(cmd, listenFd, os)
    ensures Needed(cmd, inbox) <= |rest|
    ensures Needed(cmd, inbox) == 0 <==> rest == []
  {
    assert inbox != [] ==> inbox[0] == ReplyTo(cmd, listenFd, os)[0];
  }

  // ----- what a run of calls amounts to

  function ListenFdBefore(calls: seq<Call>, os: nat -> Os, i: nat): int
    requires i <= |calls|
  {
    if i == 0 then -1 else ListenFdAfter(calls[i - 1].Cmd(), ListenFdBefore(calls, os, i - 1), os(i - 1))
  }

  function ConnectsBefore(calls: seq<Call>, os: nat -> Os, i: nat): seq<(seq<Item>, nat)>
    requires i <= |calls|
  {
    if i == 0 then []
    else
      var call := calls[i - 1];
      ConnectsBefore(calls, os, i - 1) +
      if call.GetDataSock? && os(i - 1).socketFd != -1 then [(call.ip, call.port)] else []
  }

  function Reply(calls: seq<Call>, os: nat -> Os, i: nat): seq<Item>
    requires i < |calls|
  {
    ReplyTo(calls[i].Cmd(), ListenFdBefore(calls, os, i), os(i))
  }

  lemma NextBefore(calls: seq<Call>, os: nat -> Os, i: nat)
    requires i < |calls|
    ensures ListenFdBefore(calls, os, i + 1) == ListenFdAfter(calls[i].Cmd(), ListenFdBefore(calls, os, i), os(i))
    ensures ConnectsBefore(calls, os, i + 1) == ConnectsBefore(calls, os, i) +
              if calls[i].GetDataSock? && os(i).socketFd != -1 then [(calls[i].ip, calls[i].port)] else []
  {
  }

  /** Call p opens the listener, and no other call up to call i opens one or takes it. */
  ghost predicate ListensSince(calls: seq<Call>, p: nat, i: nat) {
    p < i <= |calls| && calls[p].PasvListen? && forall k :: p < k < i ==> !calls[k].PasvListen? && !calls[k].PasvAccept?
  }

  /** The listener is that of the last PASV without an accept behind it. */
  lemma {:induction false} ListenFdIs(calls: seq<Call>, os: nat -> Os, i: nat)
    requires i <= |calls|
    ensures forall p: nat :: ListensSince(calls, p, i) ==> ListenFdBefore(calls, os, i) == os(p).listenFd
    ensures ListenFdBefore(calls, os, i) == -1 || exists p: nat :: ListensSince(calls, p, i)
  {
    if i > 0 {
      ListenFdIs(calls, os, i - 1);
      forall p: nat | ListensSince(calls, p, i) ensures ListenFdBefore(calls, os, i) == os(p).listenFd {
        assert p < i - 1 ==> ListensSince(calls, p, i - 1);
      }
      if calls[i - 1].PasvListen? {
        assert ListensSince(calls, i - 1, i);
      } else if !calls[i - 1].PasvAccept? && ListenFdBefore(calls, os, i - 1) != -1 {
        var p: nat :| ListensSince(calls, p, i - 1);
        assert ListensSince(calls, p, i);
      }
    }
  }

  /** Every connection that is tried is noted in its turn, with the address and the port of its
      call, and nothing else is. */
  lemma {:induction false} ConnectsAre(calls: seq<Call>, os: nat -> Os, j: nat, i: nat)
    requires j < i <= |calls|
    ensures var n := |ConnectsBefore(calls, os, j)|;
            if calls[j].GetDataSock? && os(j).socketFd != -1 then
              && n < |ConnectsBefore(calls, os, j + 1)| == n + 1 <= |ConnectsBefore(calls, os, i)|
              && ConnectsBefore(calls, os, i)[n] == (calls[j].ip, calls[j].port)
            else ConnectsBefore(calls, os, j + 1) == ConnectsBefore(calls, os, j)
  {
    if j + 1 < i {
      ConnectsAre(calls, os, j, i - 1);
    }
  }

  /** The steps of the two processes; the number is that of the items moved at most. */
  datatype Action = Send(n: nat) | Take(n: nat) | Handle | Answer(n: nat) | Receive(n: nat) | Finish

  class Channel {
    const calls: seq<Call>
    const os: nat -> Os
    var up: seq<Item>
    var down: seq<Item>
    // the ftp process: its current call, what is left to write, and what it has read
    var current: nat
    var outbox: seq<Item>
    var inbox: seq<Item>
    var answers: seq<seq<Item>>
    // the privileged process: what it has read, what is left to write, and its state
    var got: seq<Item>
    var reply: seq<Item>
    var pasvListenFd: int
    var connects: seq<(seq<Item>, nat)>
    /** The steps that were asked for so far. */
    ghost var history: seq<Action>

    /** The command is on its way: read, in the channel, or still to be written. */
    ghost predicate Requesting()
      reads this
    {
      && current < |calls| && got + up + outbox == calls[current].Request()
      && reply == [] && down == [] && inbox == []
      && pasvListenFd == ListenFdBefore(calls, os, current) && connects == ConnectsBefore(calls, os, current)
    }

    /** The answer is on its way. */
    ghost predicate Replying()
      reads this
    {
      && current < |calls| && inbox + down + reply == Reply(calls, os, current)
      && got == [] && up == [] && outbox == []
      && pasvListenFd == ListenFdBefore(calls, os, current + 1) && connects == ConnectsBefore(calls, os, current + 1)
    }

    /** Nothing is in flight in either direction, or in either process. */
    ghost predicate Idle()
      reads this
    {
      && current == |calls| && up == down == outbox == inbox == got == reply == []
      && pasvListenFd == ListenFdBefore(calls, os, current) && connects == ConnectsBefore(calls, os, current)
    }

    ghost predicate Valid()
      reads this
    {
      && (forall i :: 0 <= i < |calls| ==> calls[i].Valid())
      && |answers| == current <= |calls|
      && (forall i :: 0 <= i < current ==> answers[i] == Reply(calls, os, i))
      && (Requesting() || Replying() || Idle())
    }

    constructor (calls: seq<Call>, os: nat -> Os)
      requires forall i :: 0 <= i < |calls| ==> calls[i].Valid()
      ensures Valid() && this.calls == calls && this.os == os && current == 0 && history == []
    {
      this.calls, this.os, current := calls, os, 0;
      up, down, inbox, got, reply, answers := [], [], [], [], [], [];
      outbox := if calls == [] then [] else calls[0].Request();
      pasvListenFd, connects, history := -1, [], [];
    }

    predicate Enabled(action: Action)
      reads this
    {
      match action
      case Send(n) => n > 0 && outbox != []
      case Take(n) => n > 0 && reply == [] && up != [] && Wanted(got) > 0
      case Handle => reply == [] && got != [] && Wanted(got) == 0
      case Answer(n) => n > 0 && reply != []
      case Receive(n) => n > 0 && outbox == [] && current < |calls| && down != []
                         && Needed(calls[current].Cmd(), inbox) > 0
      case Finish => outbox == [] && current < |calls| && inbox != [] && Needed(calls[current].Cmd(), inbox) == 0
    }

    /** A write or a read of some of the items in transit. */
    method Move(action: Action)
      requires Valid() && Enabled(action) && !action.Handle? && !action.Finish?
      modifies this`up, this`down, this`outbox, this`inbox, this`got, this`reply
      ensures Valid() && Left() < old(Left()) && |got| + |up| + |outbox| == old(|got| + |up| + |outbox|)
    {
      if action.Send? || action.Take? {
        MoveRequest(action);
      } else {
        MoveReply(action);
      }
    }

    method MoveRequest(action: Action)
      requires Valid() && Enabled(action) && (action.Send? || action.Take?)
      modifies this`up, this`outbox, this`got
      ensures Valid() && Left() < old(Left()) && |got| + |up| + |outbox| == old(|got| + |up| + |outbox|)
    {
      hide ListenFdBefore, ConnectsBefore, Reply, Wanted, Needed, Call.Request, Call.Valid;
      if action.Send? {
        var k := Min(action.n, |outbox|);
        Shift(got + up, outbox, k);
        up, outbox := up + outbox[..k], outbox[k..];
      } else {
        var k := Min(action.n, Min(Wanted(got), |up|));
        Shift(got, up, k);
        got, up := got + up[..k], up[k..];
      }
    }

    method MoveReply(action: Action)
      requires Valid() && Enabled(action) && (action.Answer? || action.Receive?)
      modifies this`down, this`inbox, this`reply
      ensures Valid() && Left() < old(Left())
    {
      hide ListenFdBefore, ConnectsBefore, Reply, Wanted, Needed, Call.Request, Call.Valid;
      if action.Answer? {
        var k := Min(action.n, |reply|);
        Shift(inbox + down, reply, k);
        down, reply := down + reply[..k], reply[k..];
      } else {
        var k := Min(action.n, Min(Needed(calls[current].Cmd(), inbox), |down|));
        Shift(inbox, down, k);
        inbox, down := inbox + down[..k], down[k..];
      }
    }

    static lemma Shift<T>(a: seq<T>, b: seq<T>, k: nat)
      requires k <= |b|
      ensures a + b[..k] + b[k..] == a + b
    {
    }

    /** The handler of a command, once it is read. */
    method HandleCommand()
      requires Valid() && Enabled(Handle)
      modifies this`got, this`reply, this`pasvListenFd, this`connects
      ensures Valid() && Replying() && old(|got|) > 0
    {
      Complete();
      NextBefore(calls, os, current);
      hide ListenFdBefore, ConnectsBefore, ReplyTo, ListenFdAfter, Wanted, Needed, Call.Request, Call.Valid,
           Requesting, Idle;
      var cmd := Value(got[0]);
      var answer := os(current);
      reply := ReplyTo(cmd, pasvListenFd, answer);
      pasvListenFd := ListenFdAfter(cmd, pasvListenFd, answer);
      Connect(answer, calls[current]);
      got := [];
    }

    /** The connection for the address and the port that were read. */
    method Connect(answer: Os, ghost call: Call)
      requires got != [] && Value(got[0]) == call.Cmd()
      requires call.GetDataSock? ==>
                 |got| >= 9 && got[9..] == call.ip && DecodeInt(got[1..5]) == call.port < 0x1_0000
      modifies this`connects
      ensures connects == old(connects) +
                if call.GetDataSock? && answer.socketFd != -1 then [(call.ip, call.port)] else []
    {
      if Value(got[0]) == PRIV_SOCK_GET_DATA_SOCK && answer.socketFd != -1 {
        connects := connects + [(got[9..], DecodeInt(got[1..5]) % 0x1_0000)];
      }
    }

    /** A command is handled only when exactly that has been read. */
    lemma Complete()
      requires Valid() && Enabled(Handle)
      ensures Requesting() && got == calls[current].Request()
      ensures up == [] && outbox == [] && down == [] && inbox == []
      ensures pasvListenFd == ListenFdBefore(calls, os, current) && connects == ConnectsBefore(calls, os, current)
      ensures Value(got[0]) == calls[current].Cmd()
      ensures calls[current].GetDataSock? ==>
                && |got| >= 9 && got[9..] == calls[current].ip
                && DecodeInt(got[1..5]) == calls[current].port < 0x1_0000
    {
      hide ListenFdBefore, ConnectsBefore, Reply;
      var call := calls[current];
      assert got + (up + outbox) == call.Request();
      WantedIsRequest(call, got, up + outbox);
      if call.GetDataSock? {
        RequestParts(call);
        IntRoundTrip(call.port);
      }
    }

    /** The ftp process has its answer and goes on with the next call. */
    method FinishCall()
      requires Valid() && Enabled(Finish)
      modifies this`current, this`answers, this`inbox, this`outbox
      ensures Valid() && current == old(current) + 1
      ensures answers == old(answers) + [Reply(calls, os, old(current))]
      ensures old(up == [] && down == [] && got == [] && reply == [])
    {
      Answered();
      answers := answers + [inbox];
      inbox := [];
      current := current + 1;
      outbox := if current < |calls| then calls[current].Request() else [];
    }

    lemma Answered()
      requires Valid() && Enabled(Finish)
      ensures Replying() && inbox == Reply(calls, os, current) && down == [] && reply == []
    {
      hide ListenFdBefore, ConnectsBefore;
      assert inbox + (down + reply) == Reply(calls, os, current);
      NeededIsReply(calls[current].Cmd(), ListenFdBefore(calls, os, current), os(current), inbox, down + reply);
    }

    /** How many steps of the current call are left at most. */
    ghost function Left(): nat
      reads this
    {
      2 * |outbox| + |up| + 2 * |reply| + |down|
    }

    /** Some step is possible until every call has its answer. */
    lemma NeverStuck()
      requires Valid() && current < |calls|
      ensures exists action :: Enabled(action)
    {
      hide ListenFdBefore, ConnectsBefore, ReplyTo;
      var cmd := calls[current].Cmd();
      if Requesting() {
        WantedIsRequest(calls[current], got, up + outbox);
        assert got + (up + outbox) == calls[current].Request();
        assert Enabled(Send(1)) || Enabled(Take(1)) || Enabled(Handle);
      } else {
        NeededIsReply(cmd, ListenFdBefore(calls, os, current), os(current), inbox, down + reply);
        assert inbox + (down + reply) == Reply(calls, os, current);
        assert Enabled(Answer(1)) || Enabled(Receive(1)) || Enabled(Finish);
      }
    }

    /** One step, or nothing if it is not possible.  It brings the run forward. */
    method Step(action: Action) returns (ran: bool)
      requires Valid()
      modifies this
      ensures Valid() && ran == old(Enabled(action)) && history == old(history) + [action]
      ensures !ran ==> current == old(current) && Replied() == old(Replied()) && Left() == old(Left())
      ensures ran ==> current == old(current) + (if action.Finish? then 1 else 0)
      ensures ran && !action.Finish? ==> Replied() == old(Replied()) || (Replied() && !old(Replied()))
      ensures ran && !action.Finish? && Replied() == old(Replied()) ==> Left() < old(Left())
    {
      history := history + [action];
      assert Valid();
      hide Valid, Requesting, Replying, Idle;
      ran := Enabled(action);
      if ran {
        if action.Handle? {
          HandleCommand();
          ReplyingMeans();
        } else if action.Finish? {
          FinishCall();
        } else {
          Move(action);
        }
      }
    }

    /** Nothing of the command is left on its way. */
    ghost predicate Replied()
      reads this
    {
      |got| + |up| + |outbox| == 0
    }

    lemma ReplyingMeans()
      requires Replying()
      ensures Replied()
    {
    }
  }

  /** Any sequence of calls under any schedule of the two processes and any sizes of reads and
      writes: every answer is that of the complete command, commands are taken one by one, and
      when the last is answered nothing is left in either direction. */
  method Run(calls: seq<Call>, os: nat -> Os, schedule: seq<Action>) returns (c: Channel)
    requires forall i :: 0 <= i < |calls| ==> calls[i].Valid()
    ensures fresh(c) && c.calls == calls && c.os == os && c.Valid() && c.history == schedule
    ensures |c.answers| <= |calls| && forall i :: 0 <= i < |c.answers| ==> c.answers[i] == Reply(calls, os, i)
    ensures |c.answers| == |calls| ==> c.up == [] && c.down == [] && c.connects == ConnectsBefore(calls, os, |calls|)
  {
    c := new Channel(calls, os);
    var i := 0;
    while i < |schedule|
      invariant i <= |schedule| && fresh(c) && c.Valid() && c.calls == calls && c.os == os
      invariant c.history == schedule[..i]
    {
      hide Channel.Valid;
      var _ := c.Step(schedule[i]);
      i := i + 1;
    }
    assert schedule[..i] == schedule;
  }

  /** And then, whichever possible step is taken each time, every call gets its answer. */
  method RunToEnd(calls: seq<Call>, os: nat -> Os, schedule: seq<Action>) returns (c: Channel)
    requires forall i :: 0 <= i < |calls| ==> calls[i].Valid()
    ensures fresh(c) && c.calls == calls && c.os == os && c.Valid() && schedule <= c.history
    ensures |c.answers| == |calls| && forall i :: 0 <= i < |calls| ==> c.answers[i] == Reply(calls, os, i)
    ensures c.up == [] && c.down == [] && c.connects == ConnectsBefore(calls, os, |calls|)
  {
    c := Run(calls, os, schedule);
    while c.current < |calls|
      invariant fresh(c) && c.Valid() && c.calls == calls && c.os == os && schedule <= c.history
      decreases |calls| - c.current, !c.Replied(), c.Left()
    {
      hide Channel.Valid, Channel.Left, Channel.Replied;
      c.NeverStuck();
      var action :| c.Enabled(action);
      var _ := c.Step(action);
    }
  }
}
