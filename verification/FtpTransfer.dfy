/** Setting up data connections: PORT, PASV and get_transfer_fd in the ftp process, and the
    command handlers of the privileged process that it talks to. */
module FtpTransfer {
  import opened Wrappers
  import opened PrivChannel

  const PRIV_SOCK_GET_DATA_SOCK: nat := 1
  const PRIV_SOCK_PASV_ACTIVE: nat := 2
  const PRIV_SOCK_PASV_LISTEN: nat := 3
  const PRIV_SOCK_PASV_ACCEPT: nat := 4
  const PRIV_SOCK_RESULT_OK: nat := 1
  const PRIV_SOCK_RESULT_BAD: nat := 2
  const IP_BUFFER: nat := 16

  datatype Addr = Addr(a: nat, b: nat, c: nat, d: nat, port: nat) {
    ghost predicate Valid() { a < 256 && b < 256 && c < 256 && d < 256 && port < 0x1_0000 }
  }

  function Decimal(n: nat): (s: seq<Item>)
    ensures s != []
    ensures n < 10 ==> |s| == 1
    ensures n < 100 ==> |s| <= 2
    ensures n < 1000 ==> |s| <= 3
  {
    if n < 10 then [Byte(48 + n)] else Decimal(n / 10) + [Byte(48 + n % 10)]
  }

  /** inet_ntoa */
  function Dotted(addr: Addr): (s: seq<Item>)
    ensures addr.Valid() ==> |s| < IP_BUFFER
  {
    var dot := [Byte(46)];
    Decimal(addr.a) + dot + Decimal(addr.b) + dot + Decimal(addr.c) + dot + Decimal(addr.d)
  }

  /** Reading numbers with dots between them: those that are complete, and the one being read;
      None for any other text. */
  function ReadNumbers(s: seq<Item>): Option<seq<nat>> {
    if s == [] then Some([0]) else ReadItem(ReadNumbers(s[..|s| - 1]), s[|s| - 1])
  }

  function ReadItem(before: Option<seq<nat>>, item: Item): Option<seq<nat>> {
    if before.None? || before.value == [] || item.Fd? then None
    else if item.b == 46 then Some(before.value + [0])
    else if 48 <= item.b < 58 then
      var n := |before.value| - 1;
      Some(before.value[..n] + [10 * before.value[n] + (item.b - 48)])
    else None
  }

  lemma ReadNext(s: seq<Item>, item: Item)
    ensures ReadNumbers(s + [item]) == ReadItem(ReadNumbers(s), item)
  {
    hide ReadItem;
    assert (s + [item])[..|s|] == s;
  }

  lemma ReadDigit(s: seq<Item>, done: seq<nat>, m: nat, d: nat)
    requires ReadNumbers(s) == Some(done + [m]) && d < 10
    ensures ReadNumbers(s + [Byte(48 + d)]) == Some(done + [10 * m + d])
  {
    hide ReadNumbers;
    ReadNext(s, Byte(48 + d));
    assert (done + [m])[..|done|] == done && (done + [m])[|done|] == m;
  }

  lemma {:induction false} ReadDecimal(s: seq<Item>, done: seq<nat>, n: nat)
    requires ReadNumbers(s) == Some(done + [0])
    ensures ReadNumbers(s + Decimal(n)) == Some(done + [n])
  {
    hide ReadNumbers;
    if n < 10 {
      ReadDigit(s, done, 0, n);
    } else {
      ReadDecimal(s, done, n / 10);
      ReadDigit(s + Decimal(n / 10), done, n / 10, n % 10);
      assert s + Decimal(n) == s + Decimal(n / 10) + [Byte(48 + n % 10)];
    }
  }

  lemma ReadDot(s: seq<Item>, numbers: seq<nat>)
    requires ReadNumbers(s) == Some(numbers) && numbers != []
    ensures ReadNumbers(s + [Byte(46)]) == Some(numbers + [0])
  {
    hide ReadNumbers;
    ReadNext(s, Byte(46));
  }

  /** The text of an address is read back to its four numbers, in this order, and no number has
      a leading zero. */
  lemma DottedReadsBack(addr: Addr)
    ensures ReadNumbers(Dotted(addr)) == Some([addr.a, addr.b, addr.c, addr.d])
    ensures forall n: nat :: Decimal(n)[0] == Byte(48) ==> n == 0
  {
    hide ReadNumbers, Decimal;
    var dot := [Byte(46)];
    NothingRead();
    var a := Decimal(addr.a);
    ReadDecimal([], [], addr.a);
    assert [] + a == a && [] + [addr.a] == [addr.a];
    ReadDot(a, [addr.a]);
    var b := a + dot + Decimal(addr.b);
    ReadDecimal(a + dot, [addr.a], addr.b);
    ReadDot(b, [addr.a] + [addr.b]);
    var c := b + dot + Decimal(addr.c);
    ReadDecimal(b + dot, [addr.a] + [addr.b], addr.c);
    ReadDot(c, [addr.a] + [addr.b] + [addr.c]);
    ReadDecimal(c + dot, [addr.a] + [addr.b] + [addr.c], addr.d);
    assert Dotted(addr) == c + dot + Decimal(addr.d);
    assert [addr.a] + [addr.b] + [addr.c] + [addr.d] == [addr.a, addr.b, addr.c, addr.d];
    forall n: nat | Decimal(n)[0] == Byte(48) ensures n == 0 {
      NoLeadingZero(n);
    }
  }

  lemma NothingRead()
    ensures ReadNumbers([]) == Some([] + [0])
  {
    var none: seq<nat> := [];
    assert none + [0] == [0];
  }

  lemma {:induction false} NoLeadingZero(n: nat)
    ensures Decimal(n)[0] == Byte(48) ==> n == 0
  {
    if n >= 10 {
      NoLeadingZero(n / 10);
    }
  }

  /** What the system calls of one privileged command answer. */
  datatype Os = Os(socketFd: int, connectOk: bool, listenFd: nat, listenPort: nat, acceptFd: int)

  /** A session between two commands. */
  datatype State = State(portAddr: Option<Addr>, pasvListenFd: int, dataFd: int, connects: seq<(seq<Item>, nat)>)

  const START: State := State(None, -1, -1, [])

  ghost predicate BothArmed(s: State) {
    s.portAddr.Some? && s.pasvListenFd != -1
  }

  /** What a transfer is answered: 1 exactly when the armed kind of connection comes about. */
  ghost function ResultOf(s: State, os: nat -> Os): TransferResult {
    if BothArmed(s) then Crashed
    else if s.portAddr.Some? then Returned(os(1).socketFd != -1 && os(1).connectOk)
    else Returned(s.pasvListenFd != -1 && os(2).acceptFd != -1)
  }

  /** Afterwards neither is armed, and the data descriptor is the new one exactly on success. */
  ghost function AfterTransfer(s: State, os: nat -> Os): State {
    if BothArmed(s) then s
    else
      var fd := if s.portAddr.Some? then os(1).socketFd else os(2).acceptFd;
      State(None, -1, if ResultOf(s, os) == Returned(true) then fd else s.dataFd,
            if s.portAddr.Some? && os(1).socketFd != -1
            then s.connects + [(Dotted(s.portAddr.value), s.portAddr.value.port)] else s.connects)
  }

  // ----- the mutual recursion

  /** How a call of port_active or pasv_active ends: at the end of the stack, in its exit, or
      with an answer. */
  datatype Answer = Overflow | Exit | Active(yes: bool)

  /** port_active and pasv_active when at most `stack` nested calls fit on the stack. */
  function PortActiveIn(stack: nat, port: bool, pasv: bool): Answer
    decreases stack, 1
  {
    if !port then Active(false)
    else match PasvActiveIn(stack, port, pasv)
      case Active(yes) => if yes then Exit else Active(true)
      case other => other
  }

  function PasvActiveIn(stack: nat, port: bool, pasv: bool): Answer
    decreases stack, 0
  {
    if !pasv then Active(false)
    else if stack == 0 then Overflow
    else match PortActiveIn(stack - 1, port, pasv)
      case Active(yes) => if yes then Exit else Active(true)
      case other => other
  }

  /** The mutual recursion comes to an answer, which is then the right one, exactly when not
      both are armed; the exit meant for that case is never reached. */
  lemma ActiveAnswersIff(port: bool, pasv: bool)
    ensures (exists stack :: PortActiveIn(stack, port, pasv) != Overflow) <==> !(port && pasv)
    ensures forall stack: nat :: PortActiveIn(stack, port, pasv) in {Overflow, Active(port)}
    ensures forall stack: nat :: PasvActiveIn(stack, port, pasv) in {Overflow, Active(pasv)}
  {
    forall stack: nat
      ensures port && pasv ==> PortActiveIn(stack, port, pasv) == PasvActiveIn(stack, port, pasv) == Overflow
      ensures PortActiveIn(stack, port, pasv) in {Overflow, Active(port)}
      ensures PasvActiveIn(stack, port, pasv) in {Overflow, Active(pasv)}
    {
      if port && pasv { NeverAnswers(stack); }
    }
    if !(port && pasv) {
      var stack: nat := 1;
      assert PortActiveIn(stack, port, pasv) != Overflow;
    }
  }

  lemma {:induction false} NeverAnswers(stack: nat)
    ensures PasvActiveIn(stack, true, true) == PortActiveIn(stack, true, true) == Overflow
  {
    if stack > 0 { NeverAnswers(stack - 1); }
  }

  /** With room for one nested call, the answer depends only on what is armed. */
  lemma AnswersWithin(stack: nat, port: bool, pasv: bool)
    requires stack > 0
    ensures PortActiveIn(stack, port, pasv) == if port && pasv then Overflow else Active(port)
    ensures PasvActiveIn(stack, port, pasv) == if port && pasv then Overflow else Active(pasv)
  {
    if port && pasv { NeverAnswers(stack); }
  }

  /** How get_transfer_fd ends: in the recursion, in its exit, or with its result. */
  datatype TransferResult = Crashed | Exited | Returned(ok: bool)

  // ----- the privileged commands

  /** What the privileged process answers to a command, and what becomes of its listener. */
  function ReplyTo(cmd: nat, listenFd: int, os: Os): seq<Item> {
    if cmd == PRIV_SOCK_GET_DATA_SOCK then
      if os.socketFd == -1 || !os.connectOk then [Byte(PRIV_SOCK_RESULT_BAD)]
      else [Byte(PRIV_SOCK_RESULT_OK), Fd(os.socketFd)]
    else if cmd == PRIV_SOCK_PASV_ACTIVE then EncodeInt(if listenFd != -1 then 1 else 0)
    else if cmd == PRIV_SOCK_PASV_LISTEN then EncodeInt(os.listenPort)
    else if cmd == PRIV_SOCK_PASV_ACCEPT then
      if os.acceptFd == -1 then [Byte(PRIV_SOCK_RESULT_BAD)] else [Byte(PRIV_SOCK_RESULT_OK), Fd(os.acceptFd)]
    else []
  }

  function ListenFdAfter(cmd: nat, listenFd: int, os: Os): int {
    if cmd == PRIV_SOCK_PASV_LISTEN then os.listenFd
    else if cmd == PRIV_SOCK_PASV_ACCEPT then -1
    else listenFd
  }

  class Session {
    const up: Pipe
    const down: Pipe
    // the ftp process
    var portAddr: Option<Addr>
    var dataFd: int
    // the privileged process
    var pasvListenFd: int
    /** The addresses the privileged process connected to. */
    var connects: seq<(seq<Item>, nat)>

    /** A command boundary: nothing is in flight in either direction. */
    ghost predicate Idle()
      reads this, up, down
    {
      && up != down && up.data == [] && down.data == []
      && (portAddr.Some? ==> portAddr.value.Valid())
    }

    constructor ()
      ensures Idle() && fresh(up) && fresh(down)
      ensures portAddr.None? && dataFd == -1 && pasvListenFd == -1 && connects == []
    {
      up := new Pipe();
      down := new Pipe();
      portAddr, dataFd, pasvListenFd, connects := None, -1, -1, [];
    }

    // ----- the privileged process

    method PrivopGetDataSock(os: Os, sizes: nat -> nat, ghost port: nat, ghost ip: seq<Item>)
      requires up != down && port < 0x1_0000 && |ip| <= IP_BUFFER
      requires up.data == EncodeInt(port) + (EncodeInt(|ip|) + ip)
      modifies this`connects, up, down
      ensures up.data == []
      ensures connects == if os.socketFd == -1 then old(connects) else old(connects) + [(ip, port)]
      ensures down.data == old(down.data) + if os.socketFd == -1 || !os.connectOk then [Byte(PRIV_SOCK_RESULT_BAD)]
                                            else [Byte(PRIV_SOCK_RESULT_OK), Fd(os.socketFd)]
    {
      IntRoundTrip(port);
      assert up.data[..4] == EncodeInt(port) && up.data[4..] == EncodeInt(|ip|) + ip + [];
      var p := up.GetInt(sizes);
      var text := up.RecvBuf(IP_BUFFER, sizes);
      if p.None? || text.None? {
        assert false;
      }
      if os.socketFd == -1 {
        down.SendByte(PRIV_SOCK_RESULT_BAD, sizes);
        return;
      }
      connects := connects + [(text.value, p.value % 0x1_0000)];
      if !os.connectOk {
        down.SendByte(PRIV_SOCK_RESULT_BAD, sizes);
        return;
      }
      down.SendByte(PRIV_SOCK_RESULT_OK, sizes);
      down.SendFd(os.socketFd);
    }

    method PrivopPasvActive(sizes: nat -> nat)
      modifies down
      ensures down.data == old(down.data) + EncodeInt(if pasvListenFd != -1 then 1 else 0)
    {
      var active;
      if pasvListenFd != -1 {
        active := 1;
      } else {
        active := 0;
      }
      down.SendInt(active, sizes);
    }

    method PrivopPasvListen(os: Os, sizes: nat -> nat)
      modifies this`pasvListenFd, down
      ensures pasvListenFd == os.listenFd
      ensures down.data == old(down.data) + EncodeInt(os.listenPort)
    {
      pasvListenFd := os.listenFd;
      down.SendInt(os.listenPort, sizes);
    }

    method PrivopPasvAccept(os: Os, sizes: nat -> nat)
      modifies this`pasvListenFd, down
      ensures pasvListenFd == -1
      ensures down.data == old(down.data) + if os.acceptFd == -1 then [Byte(PRIV_SOCK_RESULT_BAD)]
                                            else [Byte(PRIV_SOCK_RESULT_OK), Fd(os.acceptFd)]
    {
      pasvListenFd := -1;
      if os.acceptFd == -1 {
        down.SendByte(PRIV_SOCK_RESULT_BAD, sizes);
        return;
      }
      down.SendByte(PRIV_SOCK_RESULT_OK, sizes);
      down.SendFd(os.acceptFd);
    }

    /** What the ftp process has sent for one command. */
    ghost function Sent(cmd: nat, args: seq<Item>): seq<Item> {
      [Byte(cmd)] + args
    }

    ghost predicate ArgsOf(cmd: nat, args: seq<Item>, port: nat, ip: seq<Item>) {
      if cmd == PRIV_SOCK_GET_DATA_SOCK then
        port < 0x1_0000 && |ip| <= IP_BUFFER && args == EncodeInt(port) + (EncodeInt(|ip|) + ip)
      else cmd in {PRIV_SOCK_PASV_ACTIVE, PRIV_SOCK_PASV_LISTEN, PRIV_SOCK_PASV_ACCEPT} && args == []
    }

    /** One turn of the command loop consumes exactly one command with its arguments, and
        sends exactly its answer. */
    method HandleParent(os: Os, sizes: nat -> nat, ghost cmd: nat, ghost args: seq<Item>,
                        ghost port: nat, ghost ip: seq<Item>)
      requires up != down && up.data == Sent(cmd, args) && ArgsOf(cmd, args, port, ip) && down.data == []
      modifies this`connects, this`pasvListenFd, up, down
      ensures up.data == [] && down.data == ReplyTo(cmd, old(pasvListenFd), os)
      ensures pasvListenFd == ListenFdAfter(cmd, old(pasvListenFd), os)
      ensures connects == if cmd == PRIV_SOCK_GET_DATA_SOCK && os.socketFd != -1 then old(connects) + [(ip, port)]
                          else old(connects)
    {
      assert up.data[1..] == args;
      var c := up.GetByte(sizes);
      if c.None? {
        assert false;
      }
      match c.value {
        case 1 => PrivopGetDataSock(os, sizes, port, ip);
        case 2 => PrivopPasvActive(sizes);
        case 3 => PrivopPasvListen(os, sizes);
        case 4 => PrivopPasvAccept(os, sizes);
        case _ =>
      }
    }

    // ----- the ftp process

    /** Asks the privileged process whether a listener is open. */
    method AskPasvActive(os: Os, sizes: nat -> nat) returns (active: bool)
      requires Idle()
      modifies this`connects, this`pasvListenFd, up, down
      ensures Idle() && active == (pasvListenFd != -1)
      ensures pasvListenFd == old(pasvListenFd) && connects == old(connects)
    {
      up.SendByte(PRIV_SOCK_PASV_ACTIVE, sizes);
      HandleParent(os, sizes, PRIV_SOCK_PASV_ACTIVE, [], 0, []);
      IntRoundTrip(if pasvListenFd != -1 then 1 else 0);
      assert down.data[..4] == down.data;
      var a := down.GetInt(sizes);
      if a.None? {
        assert false;
      }
      return a.value != 0;
    }

    method PortActive(os: Os, sizes: nat -> nat, stack: nat) returns (answer: Answer)
      requires Idle()
      modifies this`connects, this`pasvListenFd, up, down
      ensures Idle() && answer == PortActiveIn(stack, portAddr.Some?, pasvListenFd != -1)
      ensures pasvListenFd == old(pasvListenFd) && connects == old(connects)
      decreases stack, 1
    {
      if portAddr.Some? {
        var pasv := PasvActive(os, sizes, stack);
        match pasv {
          case Active(yes) => return if yes then Exit else Active(true);
          case _ => return pasv;
        }
      }
      return Active(false);
    }

    method PasvActive(os: Os, sizes: nat -> nat, stack: nat) returns (answer: Answer)
      requires Idle()
      modifies this`connects, this`pasvListenFd, up, down
      ensures Idle() && answer == PasvActiveIn(stack, portAddr.Some?, pasvListenFd != -1)
      ensures pasvListenFd == old(pasvListenFd) && connects == old(connects)
      decreases stack, 0
    {
      var active := AskPasvActive(os, sizes);
      if active {
        if stack == 0 {
          return Overflow;
        }
        var port := PortActive(os, sizes, stack - 1);
        match port {
          case Active(yes) => return if yes then Exit else Active(true);
          case _ => return port;
        }
      }
      return Active(false);
    }

    /** The answer of the privileged process to a request for a data connection. */
    method ReceiveDataFd(ghost file: int, ghost ok: bool, sizes: nat -> nat) returns (ret: bool)
      requires down.data == if ok then [Byte(PRIV_SOCK_RESULT_OK), Fd(file)] else [Byte(PRIV_SOCK_RESULT_BAD)]
      modifies this`dataFd, down
      ensures down.data == [] && ret == ok
      ensures dataFd == if ok then file else old(dataFd)
    {
      var res := down.GetByte(sizes);
      if res.None? {
        assert false;
      }
      if res.value == PRIV_SOCK_RESULT_BAD {
        return false;
      } else if res.value == PRIV_SOCK_RESULT_OK {
        var fd := down.RecvFd();
        if fd.None? {
          assert false;
        }
        dataFd := fd.value;
      }
      return true;
    }

    method GetPortFd(os: Os, sizes: nat -> nat) returns (ret: bool)
      requires Idle() && portAddr.Some?
      modifies this`connects, this`pasvListenFd, this`dataFd, up, down
      ensures Idle() && pasvListenFd == old(pasvListenFd)
      ensures ret <==> os.socketFd != -1 && os.connectOk
      ensures dataFd == if ret then os.socketFd else old(dataFd)
      ensures connects == if os.socketFd == -1 then old(connects)
                          else old(connects) + [(Dotted(portAddr.value), portAddr.value.port)]
    {
      hide EncodeInt, Dotted;
      var port, ip := portAddr.value.port, Dotted(portAddr.value);
      up.SendByte(PRIV_SOCK_GET_DATA_SOCK, sizes);
      up.SendInt(port, sizes);
      up.SendBuf(ip, sizes);
      ghost var args := EncodeInt(port) + (EncodeInt(|ip|) + ip);
      assert up.data == Sent(PRIV_SOCK_GET_DATA_SOCK, args);
      HandleParent(os, sizes, PRIV_SOCK_GET_DATA_SOCK, args, port, ip);
      ret := ReceiveDataFd(os.socketFd, os.socketFd != -1 && os.connectOk, sizes);
    }

    method GetPasvFd(os: Os, sizes: nat -> nat) returns (ret: bool)
      requires Idle()
      modifies this`connects, this`pasvListenFd, this`dataFd, up, down
      ensures Idle() && pasvListenFd == -1 && connects == old(connects)
      ensures ret <==> os.acceptFd != -1
      ensures dataFd == if ret then os.acceptFd else old(dataFd)
    {
      up.SendByte(PRIV_SOCK_PASV_ACCEPT, sizes);
      HandleParent(os, sizes, PRIV_SOCK_PASV_ACCEPT, [], 0, []);
      ret := ReceiveDataFd(os.acceptFd, os.acceptFd != -1, sizes);
    }

    method DoPort(addr: Addr)
      requires Idle() && addr.Valid()
      modifies this`portAddr
      ensures Idle() && portAddr == Some(addr)
    {
      portAddr := Some(addr);
    }

    /** The answer is the listener's port, as it is put in the reply. */
    method DoPasv(os: Os, sizes: nat -> nat) returns (port: int)
      requires Idle() && os.listenPort < 0x1_0000
      modifies this`connects, this`pasvListenFd, up, down
      ensures Idle() && pasvListenFd == os.listenFd && connects == old(connects)
      ensures port == os.listenPort
    {
      up.SendByte(PRIV_SOCK_PASV_LISTEN, sizes);
      HandleParent(os, sizes, PRIV_SOCK_PASV_LISTEN, [], 0, []);
      IntRoundTrip(os.listenPort);
      assert down.data[..4] == down.data;
      var p := down.GetInt(sizes);
      if p.None? {
        assert false;
      }
      return p.value % 0x1_0000;
    }

    /** Opens the data connection that PORT or PASV announced.  It succeeds exactly when the
        armed kind does, with that connection's descriptor, and leaves neither armed; with
        both armed it does not come back, however large the stack is. */
    method GetTransferFd(os: nat -> Os, sizes: nat -> nat, stack: nat) returns (result: TransferResult)
      requires Idle() && stack > 0
      modifies this, up, down
      ensures Idle() && result == ResultOf(old(View()), os) && View() == AfterTransfer(old(View()), os)
      ensures result == Crashed <==> old(portAddr).Some? && old(pasvListenFd) != -1
      ensures result == Returned(true) <==>
                if old(portAddr).Some? then old(pasvListenFd) == -1 && os(1).socketFd != -1 && os(1).connectOk
                else old(pasvListenFd) != -1 && os(2).acceptFd != -1
      ensures result != Crashed ==> result.Returned? && portAddr.None? && pasvListenFd == -1
      ensures dataFd == if result != Returned(true) then old(dataFd)
                        else if old(portAddr).Some? then os(1).socketFd else os(2).acceptFd
      ensures connects == old(connects) +
                if result != Crashed && old(portAddr).Some? && os(1).socketFd != -1
                then [(Dotted(old(portAddr).value), old(portAddr).value.port)] else []
    {
      hide PortActiveIn, PasvActiveIn, Dotted;
      AnswersWithin(stack, portAddr.Some?, pasvListenFd != -1);
      var port := PortActive(os(0), sizes, stack);
      if port.Active? && !port.yes {
        var pasv := PasvActive(os(0), sizes, stack);
        if pasv == Active(false) {
          return Returned(false);
        } else if pasv != Active(true) {
          return if pasv == Exit then Exited else Crashed;
        }
      } else if !port.Active? {
        return if port == Exit then Exited else Crashed;
      }
      var ret := true;
      port := PortActive(os(0), sizes, stack);
      if port == Active(true) {
        var ok := GetPortFd(os(1), sizes);
        if !ok {
          ret := false;
        }
      } else if !port.Active? {
        return if port == Exit then Exited else Crashed;
      }
      var pasv := PasvActive(os(0), sizes, stack);
      if pasv == Active(true) {
        var ok := GetPasvFd(os(2), sizes);
        if !ok {
          ret := false;
        }
      } else if !pasv.Active? {
        return if pasv == Exit then Exited else Crashed;
      }
      portAddr := None;
      return Returned(ret);
    }

    function View(): State
      reads this
    {
      State(portAddr, pasvListenFd, dataFd, connects)
    }
  }

  // ----- whole sessions

  datatype Command = Port(addr: Addr) | Pasv | Transfer

  /** A PORT, or a PASV, was given since the last transfer before command i. */
  ghost predicate PortGiven(cmds: seq<Command>, i: nat) {
    exists p :: 0 <= p < i <= |cmds| && cmds[p].Port? && forall k :: p <= k < i ==> !cmds[k].Transfer?
  }

  ghost predicate PasvGiven(cmds: seq<Command>, i: nat) {
    exists p :: 0 <= p < i <= |cmds| && cmds[p].Pasv? && forall k :: p <= k < i ==> !cmds[k].Transfer?
  }

  /** Command i is a transfer for which both a PORT and a PASV are waiting. */
  ghost predicate AmbiguousTransfer(cmds: seq<Command>, i: nat) {
    i < |cmds| && cmds[i].Transfer? && PortGiven(cmds, i) && PasvGiven(cmds, i)
  }

  lemma GivenNext(cmds: seq<Command>, i: nat)
    requires i < |cmds|
    ensures PortGiven(cmds, i + 1) <==> cmds[i].Port? || (!cmds[i].Transfer? && PortGiven(cmds, i))
    ensures PasvGiven(cmds, i + 1) <==> cmds[i].Pasv? || (!cmds[i].Transfer? && PasvGiven(cmds, i))
  {
  }

  ghost function Apply(s: State, cmd: Command, os: (nat, nat) -> Os, i: nat): State {
    match cmd
    case Port(addr) => s.(portAddr := Some(addr))
    case Pasv => s.(pasvListenFd := os(i, 0).listenFd)
    case Transfer => AfterTransfer(s, (j: nat) => os(i, j))
  }

  /** The session before command i. */
  ghost function Before(cmds: seq<Command>, os: (nat, nat) -> Os, i: nat): State
    requires i <= |cmds|
  {
    if i == 0 then START else Apply(Before(cmds, os, i - 1), cmds[i - 1], os, i - 1)
  }

  /** What command i is answered, if it is a transfer. */
  ghost function ResultAt(cmds: seq<Command>, os: (nat, nat) -> Os, i: nat): Option<TransferResult>
    requires i < |cmds|
  {
    if cmds[i].Transfer? then Some(ResultOf(Before(cmds, os, i), (j: nat) => os(i, j))) else None
  }

  /** Until an ambiguous transfer, what is armed is what was given since the last transfer. */
  lemma {:induction false} ArmedIsGiven(cmds: seq<Command>, os: (nat, nat) -> Os, i: nat)
    requires i <= |cmds| && forall k: nat :: k < i ==> !AmbiguousTransfer(cmds, k)
    ensures Before(cmds, os, i).portAddr.Some? <==> PortGiven(cmds, i)
    ensures Before(cmds, os, i).pasvListenFd != -1 <==> PasvGiven(cmds, i)
  {
    if i > 0 {
      hide PortGiven, PasvGiven;
      ArmedIsGiven(cmds, os, i - 1);
      GivenNext(cmds, i - 1);
      assert !AmbiguousTransfer(cmds, i - 1);
    } else {
      assert !PortGiven(cmds, 0) && !PasvGiven(cmds, 0);
    }
  }

  /** Exactly one of PORT and PASV is waiting, and its connection comes about. */
  ghost predicate ConnectionAt(cmds: seq<Command>, os: (nat, nat) -> Os, i: nat) {
    || (PortGiven(cmds, i) && !PasvGiven(cmds, i) && os(i, 1).socketFd != -1 && os(i, 1).connectOk)
    || (PasvGiven(cmds, i) && !PortGiven(cmds, i) && os(i, 2).acceptFd != -1)
  }

  /** A transfer gets lost in the recursion exactly when both a PORT and a PASV are waiting, and
      succeeds exactly when one is and its connection comes about. */
  lemma ResultMeans(cmds: seq<Command>, os: (nat, nat) -> Os, i: nat)
    requires i < |cmds| && cmds[i].Transfer? && forall k: nat :: k < i ==> !AmbiguousTransfer(cmds, k)
    ensures ResultAt(cmds, os, i) == Some(Crashed) <==> AmbiguousTransfer(cmds, i)
    ensures ResultAt(cmds, os, i) == Some(Returned(true)) <==> ConnectionAt(cmds, os, i)
  {
    hide PortGiven, PasvGiven;
    ArmedIsGiven(cmds, os, i);
  }

  lemma LogMeans(cmds: seq<Command>, os: (nat, nat) -> Os, log: seq<Option<TransferResult>>)
    requires |log| <= |cmds| && forall i: nat :: i < |log| ==> log[i] == ResultAt(cmds, os, i)
    requires forall i: nat :: i < |log| - 1 ==> !AmbiguousTransfer(cmds, i)
    ensures forall i: nat :: i < |log| && cmds[i].Transfer? ==>
              (log[i] == Some(Returned(true)) <==> ConnectionAt(cmds, os, i))
  {
    hide AmbiguousTransfer, ResultAt, ConnectionAt;
    forall i: nat | i < |log| && cmds[i].Transfer?
      ensures log[i] == Some(Returned(true)) <==> ConnectionAt(cmds, os, i)
    {
      ResultMeans(cmds, os, i);
    }
  }

  /** Runs a session up to its end or to the transfer in which it is lost.  For every stack the
      channel is empty at the command boundary that is reached, every transfer is answered
      as it should be, and the session is lost exactly in the first ambiguous transfer. */
  method RunSession(cmds: seq<Command>, os: (nat, nat) -> Os, sizes: nat -> nat, stack: nat)
    returns (session: Session, log: seq<Option<TransferResult>>)
    requires stack > 0
    requires forall i :: 0 <= i < |cmds| && cmds[i].Port? ==> cmds[i].addr.Valid()
    requires forall i, j :: os(i, j).listenPort < 0x1_0000
    ensures fresh(session) && session.Idle()
    ensures |log| <= |cmds| && session.View() == Before(cmds, os, |log|)
    ensures forall i: nat :: i < |log| ==> log[i] == ResultAt(cmds, os, i)
    ensures forall i: nat :: i < |log| ==> (log[i] == Some(Crashed) <==> AmbiguousTransfer(cmds, i))
    ensures forall i: nat :: i < |log| && cmds[i].Transfer? ==>
              (log[i] == Some(Returned(true)) <==> ConnectionAt(cmds, os, i))
    ensures forall i: nat :: i < |log| && AmbiguousTransfer(cmds, i) ==> i == |log| - 1
    ensures |log| < |cmds| ==> log != [] && AmbiguousTransfer(cmds, |log| - 1)
  {
    hide AmbiguousTransfer, ResultAt, Before, ConnectionAt;
    session := new Session();
    log := [];
    var i: nat := 0;
    StartsAt(cmds, os);
    while i < |cmds|
      invariant i <= |cmds| && fresh(session) && fresh(session.up) && fresh(session.down)
      invariant session.Idle() && |log| == i && session.View() == Before(cmds, os, i)
      invariant forall k: nat :: k < i ==> log[k] == ResultAt(cmds, os, k)
      invariant forall k: nat :: k < i ==> log[k] != Some(Crashed) && !AmbiguousTransfer(cmds, k)
    {
      NextCommand(cmds, os, i);
      match cmds[i] {
        case Port(addr) =>
          session.DoPort(addr);
          log := log + [None];
        case Pasv =>
          var _ := session.DoPasv(os(i, 0), sizes);
          log := log + [None];
        case Transfer =>
          var result := session.GetTransferFd((j: nat) => os(i, j), sizes, stack);
          log := log + [Some(result)];
          ResultMeans(cmds, os, i);
          if result == Crashed || result == Exited {
            LogMeans(cmds, os, log);
            return;
          }
      }
      i := i + 1;
    }
    LogMeans(cmds, os, log);
  }

  lemma StartsAt(cmds: seq<Command>, os: (nat, nat) -> Os)
    ensures Before(cmds, os, 0) == START
  {
  }

  lemma NextCommand(cmds: seq<Command>, os: (nat, nat) -> Os, i: nat)
    requires i < |cmds|
    ensures Before(cmds, os, i + 1) == Apply(Before(cmds, os, i), cmds[i], os, i)
    ensures ResultAt(cmds, os, i) ==
              if cmds[i].Transfer? then Some(ResultOf(Before(cmds, os, i), (j: nat) => os(i, j))) else None
    ensures !cmds[i].Transfer? ==> !AmbiguousTransfer(cmds, i)
  {
  }
}
