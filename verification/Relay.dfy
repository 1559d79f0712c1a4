/** One client-server pair of the load balancer: what is read from either side is kept in a
    buffer and written to the other side. */
module Relay {
  import opened ConnPool
  import opened Wrappers

  const BUF_SIZE: nat := 2048

  /** What the system answers to one recv or send: at most so many bytes, or -1 with or
      without EAGAIN. */
  datatype Answer = Bytes(n: nat) | WouldBlock | Failed

  /** How many bytes the first n answers let through together, at most. */
  function Passed(os: nat -> Answer, n: nat): nat {
    if n == 0 then 0 else Passed(os, n - 1) + if os(n - 1).Bytes? then os(n - 1).n else 0
  }

  /** Every one of them lets some bytes through. */
  ghost predicate AllPass(os: nat -> Answer, n: nat) {
    forall i :: 0 <= i < n ==> os(i).Bytes? && os(i).n > 0
  }

  /** A byte stream of a socket: the bytes that can still be received, or those sent so far. */
  class Stream {
    var data: seq<char>

    constructor (data: seq<char>)
      ensures this.data == data
    {
      this.data := data;
    }
  }

  /** One direction: the bytes of `buf` between the two indices are still to be written. */
  class Direction {
    const buf: array<char>
    var readIdx: nat
    var writeIdx: nat
    /** The bytes received and sent since the last reset. */
    ghost var received: seq<char>
    ghost var sent: seq<char>

    ghost predicate Valid()
      reads this, buf
    {
      && buf.Length == BUF_SIZE && writeIdx <= readIdx <= BUF_SIZE
      && sent + buf[writeIdx..readIdx] == received
    }

    ghost function Pending(): seq<char>
      requires Valid()
      reads this, buf
    {
      buf[writeIdx..readIdx]
    }

    constructor ()
      ensures Valid() && fresh(buf) && received == [] && sent == [] && readIdx == 0
    {
      buf := new char[BUF_SIZE](_ => '\0');
      readIdx, writeIdx := 0, 0;
      received, sent := [], [];
    }

    method Reset()
      requires Valid()
      modifies this, buf
      ensures Valid() && received == [] && sent == [] && readIdx == 0
      ensures forall k :: 0 <= k < buf.Length ==> buf[k] == '\0'
    {
      readIdx, writeIdx := 0, 0;
      received, sent := [], [];
      forall k | 0 <= k < buf.Length {
        buf[k] := '\0';
      }
    }

    /** Receives until the system has no more or the buffer is full; os(i) answers the i-th
        recv, and `calls` of these have brought something.  The bytes taken from the stream are
        those added: all that was let through, has arrived and fits. */
    method Read(input: Stream, os: nat -> Answer) returns (code: RetCode, calls: nat)
      requires Valid()
      modifies this`readIdx, this`received, buf, input
      ensures Valid() && old(received) <= received && AllPass(os, calls)
      ensures received + input.data == old(received) + old(input.data)
      ensures |received| == |old(received)| + Min(Passed(os, calls), Min(BUF_SIZE - old(readIdx), |old(input.data)|))
      ensures readIdx - old(readIdx) == |received| - |old(received)|
      ensures if readIdx == BUF_SIZE then code == BUFFER_FULL
              else match os(calls)
              case WouldBlock => code == if sent == received then NOTHING else OK
              case Failed => code == IOERR
              case Bytes(n) => code == CLOSED && (n == 0 || input.data == [])
    {
      code, calls := NOTHING, 0;
      while true
        invariant Valid() && old(received) <= received && AllPass(os, calls)
        invariant received + input.data == old(received) + old(input.data)
        invariant readIdx - old(readIdx) == |received| - |old(received)|
                  == Min(Passed(os, calls), Min(BUF_SIZE - old(readIdx), |old(input.data)|))
        decreases BUF_SIZE - readIdx
      {
        if readIdx >= BUF_SIZE {
          return BUFFER_FULL, calls;
        }
        match os(calls) {
          case WouldBlock =>
            return if readIdx - writeIdx > 0 then OK else NOTHING, calls;
          case Failed =>
            return IOERR, calls;
          case Bytes(n) =>
            var count := Min(n, Min(BUF_SIZE - readIdx, |input.data|));
            if count == 0 {
              return CLOSED, calls;
            }
            Store(input, count);
        }
        calls := calls + 1;
      }
    }

    method Store(input: Stream, count: nat)
      requires Valid() && count <= |input.data| && readIdx + count <= BUF_SIZE
      modifies this`readIdx, this`received, buf, input
      ensures Valid() && readIdx == old(readIdx) + count
      ensures received == old(received) + old(input.data)[..count] && input.data == old(input.data)[count..]
    {
      ghost var before := buf[writeIdx..readIdx];
      var data := input.data[..count];
      Copy(data);
      assert buf[writeIdx..readIdx] == buf[..readIdx][writeIdx..] == before;
      assert buf[writeIdx..readIdx + count] == before + data;
      received := received + data;
      readIdx := readIdx + count;
      input.data := input.data[count..];
    }

    /** Puts `data` behind the bytes in the buffer. */
    method Copy(data: seq<char>)
      requires readIdx + |data| <= buf.Length
      modifies buf
      ensures buf[..readIdx] == old(buf[..readIdx])
      ensures forall k :: 0 <= k < |data| ==> buf[readIdx + k] == data[k]
    {
      forall k | 0 <= k < |data| {
        buf[readIdx + k] := data[k];
      }
    }

    /** Sends until the buffer is empty or the system takes no more; os(i) answers the i-th
        send, and `calls` of these have taken something.  The bytes given to the stream are
        those sent, and an empty buffer starts again at the front. */
    method Write(output: Stream, os: nat -> Answer) returns (code: RetCode, calls: nat)
      requires Valid()
      modifies this`readIdx, this`writeIdx, this`sent, output
      ensures Valid() && old(sent) <= sent && AllPass(os, calls)
      ensures output.data == old(output.data) + sent[|old(sent)|..]
      ensures |sent| == |old(sent)| + Min(Passed(os, calls), |received| - |old(sent)|)
      ensures if sent == received then code == BUFFER_EMPTY && readIdx == 0
              else match os(calls)
              case WouldBlock => code == TRY_AGAIN
              case Failed => code == IOERR
              case Bytes(n) => code == CLOSED && n == 0
    {
      code, calls := BUFFER_EMPTY, 0;
      while true
        invariant Valid() && old(sent) <= sent && AllPass(os, calls)
        invariant output.data == old(output.data) + sent[|old(sent)|..]
        invariant |sent| == |old(sent)| + Min(Passed(os, calls), |received| - |old(sent)|)
        decreases readIdx - writeIdx
      {
        if readIdx <= writeIdx {
          readIdx, writeIdx := 0, 0;
          return BUFFER_EMPTY, calls;
        }
        match os(calls) {
          case WouldBlock =>
            return TRY_AGAIN, calls;
          case Failed =>
            return IOERR, calls;
          case Bytes(n) =>
            var count := Min(n, readIdx - writeIdx);
            if count == 0 {
              return CLOSED, calls;
            }
            Send(output, count);
        }
        calls := calls + 1;
      }
    }

    method Send(output: Stream, count: nat)
      requires Valid() && count <= readIdx - writeIdx
      modifies this`writeIdx, this`sent, output
      ensures Valid() && writeIdx == old(writeIdx) + count
      ensures exists data :: |data| == count && sent == old(sent) + data && output.data == old(output.data) + data
    {
      var data := buf[writeIdx..writeIdx + count];
      assert buf[writeIdx..readIdx] == data + buf[writeIdx + count..readIdx];
      output.data := output.data + data;
      sent := sent + data;
      writeIdx := writeIdx + count;
    }
  }

  datatype Event = ClientReadable | ClientWritable | ServerReadable | ServerWritable

  /** A client bound to a server connection, with the streams of both sockets. */
  class Pair {
    const clt: Direction
    const srv: Direction
    const fromClient: Stream
    const toServer: Stream
    const fromServer: Stream
    const toClient: Stream
    var srvClosed: bool
    /** The events so far. */
    ghost var history: seq<Event>

    ghost predicate Valid()
      reads this, clt, clt.buf, srv, srv.buf
    {
      && clt.Valid() && srv.Valid() && clt != srv && clt.buf != srv.buf
      && fromClient != toServer && fromClient != fromServer && fromClient != toClient
      && toServer != fromServer && toServer != toClient && fromServer != toClient
    }

    /** What the client has sent is, in this order, at the server, in the buffer or still to
        be received; and the same the other way round. */
    ghost predicate Conserved(request: seq<char>, answer: seq<char>)
      reads this, clt, clt.buf, srv, srv.buf, fromClient, toServer, fromServer, toClient
      requires Valid()
    {
      && toServer.data == clt.sent && clt.received + fromClient.data == request
      && toClient.data == srv.sent && srv.received + fromServer.data == answer
    }

    constructor (request: seq<char>, answer: seq<char>)
      ensures Valid() && Conserved(request, answer) && !srvClosed && history == []
      ensures fresh(clt) && fresh(clt.buf) && fresh(srv) && fresh(srv.buf)
      ensures fresh(fromClient) && fresh(toServer) && fresh(fromServer) && fresh(toClient)
    {
      clt := new Direction();
      srv := new Direction();
      fromClient := new Stream(request);
      toServer := new Stream([]);
      fromServer := new Stream(answer);
      toClient := new Stream([]);
      srvClosed, history := false, [];
    }

    /** One readiness event with its outcome.  It moves the one direction that it is about, and
        that as far as possible; `freed` says that the pair is given up after it, and a failure
        of the server is only remembered. */
    method Handle(event: Event, os: nat -> Answer, ghost request: seq<char>, ghost answer: seq<char>)
      returns (freed: bool, code: RetCode, calls: nat)
      requires Valid() && Conserved(request, answer)
      modifies this, clt, clt.buf, srv, srv.buf, fromClient, toServer, fromServer, toClient
      ensures Valid() && Conserved(request, answer) && AllPass(os, calls) && history == old(history)
      ensures var n := Passed(os, calls);
              match event
              case ClientReadable =>
                && |clt.received| == |old(clt.received)| + Min(n, Min(BUF_SIZE - old(clt.readIdx), |old(fromClient.data)|))
                && clt.sent == old(clt.sent) && srv.received == old(srv.received) && srv.sent == old(srv.sent)
              case ServerWritable =>
                && |clt.sent| == |old(clt.sent)| + Min(n, |old(clt.received)| - |old(clt.sent)|)
                && clt.received == old(clt.received) && srv.received == old(srv.received) && srv.sent == old(srv.sent)
              case ServerReadable =>
                && |srv.received| == |old(srv.received)| + Min(n, Min(BUF_SIZE - old(srv.readIdx), |old(fromServer.data)|))
                && srv.sent == old(srv.sent) && clt.received == old(clt.received) && clt.sent == old(clt.sent)
              case ClientWritable =>
                && |srv.sent| == |old(srv.sent)| + Min(n, |old(srv.received)| - |old(srv.sent)|)
                && srv.received == old(srv.received) && clt.received == old(clt.received) && clt.sent == old(clt.sent)
      ensures var failed, atClient := code.IOERR? || code.CLOSED?, event.ClientReadable? || event.ClientWritable?;
              && (freed <==> atClient && (failed || old(srvClosed)))
              && (srvClosed <==> old(srvClosed) || (failed && !atClient))
    {
      hide Direction.Valid, Passed, Min, AllPass;
      match event {
        case ClientReadable =>
          code, calls := clt.Read(fromClient, os);
          freed := code == IOERR || code == CLOSED || srvClosed;
        case ClientWritable =>
          code, calls := srv.Write(toClient, os);
          freed := code == IOERR || code == CLOSED || srvClosed;
        case ServerReadable =>
          code, calls := srv.Read(fromServer, os);
          srvClosed := srvClosed || code == IOERR || code == CLOSED;
          freed := false;
        case ServerWritable =>
          code, calls := clt.Write(toServer, os);
          srvClosed := srvClosed || code == IOERR || code == CLOSED;
          freed := false;
      }
    }

    /** The next event of a run. */
    method HandleNext(event: Event, os: nat -> Answer, ghost request: seq<char>, ghost answer: seq<char>)
      returns (freed: bool)
      requires Valid() && Conserved(request, answer)
      modifies this, clt, clt.buf, srv, srv.buf, fromClient, toServer, fromServer, toClient
      ensures Valid() && Conserved(request, answer) && history == old(history) + [event]
    {
      var code, calls;
      freed, code, calls := Handle(event, os, request, answer);
      history := history + [event];
    }

    /** No byte is lost, repeated or reordered. */
    lemma NothingLost(request: seq<char>, answer: seq<char>)
      requires Valid() && Conserved(request, answer)
      ensures toServer.data + clt.Pending() + fromClient.data == request
      ensures toClient.data + srv.Pending() + fromServer.data == answer
    {
    }
  }

  /** Any interleaving of readiness events with any partial results, until the pair is given
      up: in both directions the bytes at the other side, those in the buffer and those not
      yet received are together the bytes that were sent. */
  method Run(request: seq<char>, answer: seq<char>, events: seq<Event>, os: (nat, nat) -> Answer)
    returns (pair: Pair, freed: bool)
    ensures fresh(pair) && pair.Valid()
    ensures pair.history <= events && (!freed ==> pair.history == events)
    ensures pair.toServer.data + pair.clt.Pending() + pair.fromClient.data == request
    ensures pair.toClient.data + pair.srv.Pending() + pair.fromServer.data == answer
  {
    pair := new Pair(request, answer);
    var i: nat := 0;
    freed := false;
    while i < |events| && !freed
      invariant i <= |events| && pair.Valid() && pair.Conserved(request, answer) && fresh(pair)
      invariant pair.history == events[..i]
      invariant fresh(pair.clt) && fresh(pair.clt.buf) && fresh(pair.srv) && fresh(pair.srv.buf)
      invariant fresh(pair.fromClient) && fresh(pair.toServer) && fresh(pair.fromServer) && fresh(pair.toClient)
    {
      freed := pair.HandleNext(events[i], (k: nat) => os(i, k), request, answer);
      i := i + 1;
    }
    pair.NothingLost(request, answer);
  }
}
