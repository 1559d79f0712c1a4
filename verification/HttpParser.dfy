/** The incremental request parser of chapter 8: a two-level state machine resumed on
    every recv, which parses in place. */
module HttpParser {
  import opened Wrappers
  import opened CStrings
  import opened LineFraming
  import opened RequestLine

  const BUFFER_SIZE: nat := 4096

  datatype CheckState = CHECK_STATE_REQUESTLINE | CHECK_STATE_HEADER | CHECK_STATE_CONTENT
  datatype HttpCode =
    NO_REQUEST | GET_REQUEST | BAD_REQUEST | FORBIDDEN_REQUEST | INTERNAL_ERROR | CLOSED_CONNECTION

  /** The answer to one complete line: a verdict, or NO_REQUEST to go on. */
  function LineVerdict(state: CheckState, line: string): HttpCode {
    match state
    case CHECK_STATE_REQUESTLINE => if RequestPath(line).Some? then NO_REQUEST else BAD_REQUEST
    case CHECK_STATE_HEADER => if line == "" then GET_REQUEST else NO_REQUEST
    case CHECK_STATE_CONTENT => INTERNAL_ERROR
  }

  /** The verdict of a single parse over all of `s`. */
  function Verdict(state: CheckState, s: string): HttpCode
    decreases |s|
  {
    match FrontLine(s)
    case Open => NO_REQUEST
    case Bad => BAD_REQUEST
    case Line(text, rest) =>
      var v := LineVerdict(state, CutAtNul(text));
      if v == NO_REQUEST then Verdict(CHECK_STATE_HEADER, rest) else v
  }

  /** Where such a parse waits for more input: its state and the unconsumed bytes. */
  function Resume(state: CheckState, s: string): (CheckState, string)
    decreases |s|
  {
    match FrontLine(s)
    case Line(text, rest) =>
      if LineVerdict(state, CutAtNul(text)) == NO_REQUEST then Resume(CHECK_STATE_HEADER, rest)
      else (state, s)
    case _ => (state, s)
  }

  /** Parsing `s`, waiting, and going on with `t` is parsing s + t at once. */
  lemma {:induction false} ResumeParse(state: CheckState, s: string, t: string)
    requires Verdict(state, s) == NO_REQUEST
    ensures var (st, pending) := Resume(state, s);
            && Verdict(state, s + t) == Verdict(st, pending + t)
            && Resume(state, s + t) == Resume(st, pending + t)
    decreases |s|
  {
    var f := FrontLine(s);
    if f.Line? {
      FrontStable(s, t);
      ResumeParse(CHECK_STATE_HEADER, f.rest, t);
    }
  }

  /** A verdict, once reached, is not changed by further input. */
  lemma {:induction false} VerdictStable(state: CheckState, s: string, t: string)
    requires Verdict(state, s) != NO_REQUEST
    ensures Verdict(state, s + t) == Verdict(state, s)
    decreases |s|
  {
    FrontStable(s, t);
    var f := FrontLine(s);
    if f.Line? && LineVerdict(state, CutAtNul(f.text)) == NO_REQUEST {
      VerdictStable(CHECK_STATE_HEADER, f.rest, t);
    }
  }

  /** The default branch of the line switch is unreachable from the initial state. */
  lemma {:induction false} NeverInternalError(state: CheckState, s: string)
    requires state != CHECK_STATE_CONTENT
    ensures Verdict(state, s) in {NO_REQUEST, GET_REQUEST, BAD_REQUEST}
    decreases |s|
  {
    var f := FrontLine(s);
    if f.Line? {
      NeverInternalError(CHECK_STATE_HEADER, f.rest);
    }
  }

  // ----- which messages are accepted

  function Unlines(lines: seq<string>): string {
    if lines == [] then "" else lines[0] + CRLF + Unlines(lines[1..])
  }

  /** Header lines up to and including the blank line that ends them. */
  ghost predicate HeaderBlock(lines: seq<string>) {
    && lines != []
    && (forall l :: l in lines ==> '\r' !in l && '\n' !in l)
    && (forall i :: 0 <= i < |lines| ==> (CutAtNul(lines[i]) == "" <==> i == |lines| - 1))
  }

  ghost predicate StartsWithHeaders(s: string) {
    exists lines: seq<string>, rest: string :: HeaderBlock(lines) && s == Unlines(lines) + rest
  }

  lemma {:induction false} AcceptedHasHeaders(s: string)
    requires Verdict(CHECK_STATE_HEADER, s) == GET_REQUEST
    ensures StartsWithHeaders(s)
    decreases |s|
  {
    var f := FrontLine(s);
    LineIffTerminated(s, f.text, f.rest);
    if CutAtNul(f.text) == "" {
      assert Unlines([]) + f.rest == f.rest;
      PrependHeader(f.text, [], f.rest);
    } else {
      AcceptedHasHeaders(f.rest);
      var lines: seq<string>, rest: string :| HeaderBlock(lines) && f.rest == Unlines(lines) + rest;
      PrependHeader(f.text, lines, rest);
    }
  }

  lemma PrependHeader(line: string, lines: seq<string>, rest: string)
    requires '\r' !in line && '\n' !in line
    requires if CutAtNul(line) == "" then lines == [] else HeaderBlock(lines)
    ensures StartsWithHeaders(line + CRLF + (Unlines(lines) + rest))
  {
    var all := [line] + lines;
    assert all[1..] == lines;
    assert HeaderBlock(all);
    assert line + CRLF + (Unlines(lines) + rest) == Unlines(all) + rest;
  }

  lemma {:induction false} HeadersAreAccepted(lines: seq<string>, rest: string)
    requires HeaderBlock(lines)
    ensures Verdict(CHECK_STATE_HEADER, Unlines(lines) + rest) == GET_REQUEST
  {
    var s := Unlines(lines) + rest;
    var after := Unlines(lines[1..]) + rest;
    assert s == lines[0] + CRLF + after;
    LineIffTerminated(s, lines[0], after);
    if |lines| > 1 {
      HeadersAreAccepted(lines[1..], rest);
    }
  }

  /** A request line of the grammar, header lines and a blank line, each ended by CRLF. */
  ghost predicate IsMessage(s: string) {
    exists line: string, path: string, rest: string ::
      && s == line + CRLF + rest && '\r' !in line && '\n' !in line
      && IsRequestLine(CutAtNul(line), path) && StartsWithHeaders(rest)
  }

  /** GET_REQUEST is answered exactly to these. */
  lemma AcceptedIffMessage(s: string)
    ensures Verdict(CHECK_STATE_REQUESTLINE, s) == GET_REQUEST <==> IsMessage(s)
  {
    var f := FrontLine(s);
    if f.Line? {
      LineIffTerminated(s, f.text, f.rest);
      if Verdict(CHECK_STATE_HEADER, f.rest) == GET_REQUEST { AcceptedHasHeaders(f.rest); }
      var p := RequestPath(CutAtNul(f.text));
      if p.Some? {
        RequestPathIffGrammar(CutAtNul(f.text), p.value);
      }
    }
    forall line: string, path: string, rest: string
      | && s == line + CRLF + rest && '\r' !in line && '\n' !in line
        && IsRequestLine(CutAtNul(line), path) && StartsWithHeaders(rest)
      ensures Verdict(CHECK_STATE_REQUESTLINE, s) == GET_REQUEST
    {
      LineIffTerminated(s, line, rest);
      RequestPathIffGrammar(CutAtNul(line), path);
      var lines: seq<string>, tail: string :| HeaderBlock(lines) && rest == Unlines(lines) + tail;
      HeadersAreAccepted(lines, tail);
    }
  }

  // ----- which are rejected, and which are waited for

  /** Header lines that are not blank. */
  ghost predicate Headers(lines: seq<string>) {
    forall l :: l in lines ==> NoLineEnd(l) && CutAtNul(l) != ""
  }

  /** Complete lines that decide nothing: a request line of the grammar, then header lines. */
  ghost predicate Undecided(lines: seq<string>) {
    lines != [] ==> NoLineEnd(lines[0]) && IsAccepted(lines[0]) && Headers(lines[1..])
  }

  /** Such lines and then a misplaced line end, or a first line that is not a request line. */
  ghost predicate IsRejected(s: string) {
    || (exists lines: seq<string>, u: string :: Undecided(lines) && s == Unlines(lines) + u && Misplaced(u))
    || (exists line: string, rest: string :: s == line + CRLF + rest && NoLineEnd(line) && !IsAccepted(line))
  }

  /** Header lines are passed over. */
  lemma {:induction false} SkipHeaders(lines: seq<string>, u: string)
    requires Headers(lines)
    ensures Verdict(CHECK_STATE_HEADER, Unlines(lines) + u) == Verdict(CHECK_STATE_HEADER, u)
    ensures Resume(CHECK_STATE_HEADER, Unlines(lines) + u) == Resume(CHECK_STATE_HEADER, u)
  {
    if lines == [] {
      assert Unlines(lines) + u == u;
    } else {
      var s, rest := Unlines(lines) + u, Unlines(lines[1..]) + u;
      assert s == lines[0] + CRLF + rest;
      hide Unlines, FrontLine;
      SkipHeader(s, lines[0], rest);
      SkipHeaders(lines[1..], u);
    }
  }

  lemma SkipHeader(s: string, line: string, rest: string)
    requires s == line + CRLF + rest && NoLineEnd(line) && CutAtNul(line) != ""
    ensures Verdict(CHECK_STATE_HEADER, s) == Verdict(CHECK_STATE_HEADER, rest)
    ensures Resume(CHECK_STATE_HEADER, s) == Resume(CHECK_STATE_HEADER, rest)
  {
    hide FrontLine;
    LineIffTerminated(s, line, rest);
  }

  /** The header lines at the front of a stream, up to a blank line or what is not a line. */
  lemma {:induction false} TakeHeaders(s: string) returns (lines: seq<string>, u: string)
    ensures s == Unlines(lines) + u && Headers(lines)
    ensures FrontLine(u).Line? ==> CutAtNul(FrontLine(u).text) == ""
    decreases |s|
  {
    var f := FrontLine(s);
    lines, u := [], s;
    if f.Line? {
      LineIffTerminated(s, f.text, f.rest);
      if CutAtNul(f.text) != "" {
        lines, u := TakeHeaders(f.rest);
        Prepended(f.text, lines, u);
        lines := [f.text] + lines;
      }
    }
  }

  /** Lines that decide nothing lead to the header state, or leave the parser where it was. */
  lemma SkipUndecided(lines: seq<string>, u: string)
    requires Undecided(lines)
    ensures var st := if lines == [] then CHECK_STATE_REQUESTLINE else CHECK_STATE_HEADER;
            && Verdict(CHECK_STATE_REQUESTLINE, Unlines(lines) + u) == Verdict(st, u)
            && Resume(CHECK_STATE_REQUESTLINE, Unlines(lines) + u) == Resume(st, u)
  {
    hide RequestPath;
    if lines == [] {
      assert Unlines(lines) + u == u;
    } else {
      var s, rest := Unlines(lines) + u, Unlines(lines[1..]) + u;
      assert s == lines[0] + CRLF + rest;
      LineIffTerminated(s, lines[0], rest);
      AcceptedLine(lines[0]);
      SkipHeaders(lines[1..], u);
    }
  }

  /** BAD_REQUEST is answered exactly to these. */
  lemma RejectedIff(s: string)
    ensures Verdict(CHECK_STATE_REQUESTLINE, s) == BAD_REQUEST <==> IsRejected(s)
  {
    hide RequestPath, IsAccepted, Undecided, Unlines, Misplaced, FrontLine;
    if Verdict(CHECK_STATE_REQUESTLINE, s) == BAD_REQUEST {
      var lines, u, rejected := TakeLines(s);
      if !rejected {
        SkipUndecided(lines, u);
        OpenOrBadIff(u);
      }
    }
    forall line: string, rest: string | s == line + CRLF + rest && NoLineEnd(line) && !IsAccepted(line)
      ensures Verdict(CHECK_STATE_REQUESTLINE, s) == BAD_REQUEST
    {
      LineIffTerminated(s, line, rest);
      AcceptedLine(line);
    }
    forall lines: seq<string>, u: string | Undecided(lines) && s == Unlines(lines) + u && Misplaced(u)
      ensures Verdict(CHECK_STATE_REQUESTLINE, s) == BAD_REQUEST
    {
      SkipUndecided(lines, u);
      OpenOrBadIff(u);
    }
  }

  /** The lines at the front of a stream that decide nothing, unless its first is rejected. */
  lemma TakeLines(s: string) returns (lines: seq<string>, u: string, rejected: bool)
    ensures rejected ==> exists line: string, rest: string ::
              s == line + CRLF + rest && NoLineEnd(line) && !IsAccepted(line)
    ensures !rejected ==> Undecided(lines) && s == Unlines(lines) + u
    ensures !rejected && FrontLine(u).Line? ==> lines != [] && CutAtNul(FrontLine(u).text) == ""
  {
    hide IsAccepted, FrontLine, CutAtNul;
    var f := FrontLine(s);
    lines, u, rejected := [], s, false;
    assert Unlines(lines) + s == s;
    if f.Line? {
      LineIffTerminated(s, f.text, f.rest);
      rejected := !IsAccepted(f.text);
      lines, u := TakeHeaders(f.rest);
      Prepended(f.text, lines, u);
      lines := [f.text] + lines;
    }
  }

  lemma Prepended(line: string, lines: seq<string>, u: string)
    ensures Unlines([line] + lines) + u == line + CRLF + (Unlines(lines) + u) && ([line] + lines)[1..] == lines
  {
    assert ([line] + lines)[1..] == lines;
  }

  /** The parser waits exactly for the end of a line behind lines that decide nothing; it is
      then in the state that these lead to, with what is not yet a line. */
  lemma WaitsIff(s: string)
    ensures Verdict(CHECK_STATE_REQUESTLINE, s) == NO_REQUEST <==>
              exists lines: seq<string>, u: string :: Undecided(lines) && s == Unlines(lines) + u && Unterminated(u)
    ensures forall lines: seq<string>, u: string :: Undecided(lines) && s == Unlines(lines) + u && Unterminated(u) ==>
              Resume(CHECK_STATE_REQUESTLINE, s) ==
                (if lines == [] then CHECK_STATE_REQUESTLINE else CHECK_STATE_HEADER, u)
  {
    hide RequestPath, IsAccepted, Undecided, Unlines, Unterminated, FrontLine;
    if Verdict(CHECK_STATE_REQUESTLINE, s) == NO_REQUEST {
      var lines, u, rejected := TakeLines(s);
      if rejected {
        RejectedIff(s);
        assert false;
      }
      SkipUndecided(lines, u);
      OpenOrBadIff(u);
    }
    forall lines: seq<string>, u: string | Undecided(lines) && s == Unlines(lines) + u && Unterminated(u)
      ensures Verdict(CHECK_STATE_REQUESTLINE, s) == NO_REQUEST
      ensures Resume(CHECK_STATE_REQUESTLINE, s) ==
                (if lines == [] then CHECK_STATE_REQUESTLINE else CHECK_STATE_HEADER, u)
    {
      SkipUndecided(lines, u);
      OpenOrBadIff(u);
    }
  }

  // ----- the parser itself

  class RequestParser {
    const buffer: array<char>
    var readIndex: nat
    var checkedIndex: nat
    var startLine: nat
    var checkState: CheckState

    ghost predicate Valid()
      reads this, buffer
    {
      Scanned(buffer[..], startLine, checkedIndex, readIndex)
    }

    /** The bytes received and not yet consumed as lines. */
    ghost function Pending(): string
      requires Valid()
      reads this, buffer
    {
      buffer[..][startLine..readIndex]
    }

    constructor ()
      ensures Valid() && fresh(buffer) && buffer.Length == BUFFER_SIZE
      ensures readIndex == 0 && Pending() == "" && checkState == CHECK_STATE_REQUESTLINE
    {
      buffer := new char[BUFFER_SIZE](_ => NUL);
      readIndex, checkedIndex, startLine := 0, 0, 0;
      checkState := CHECK_STATE_REQUESTLINE;
    }

    /** recv: `data` is appended to the buffer. */
    method Receive(data: string)
      requires Valid() && readIndex + |data| <= buffer.Length
      modifies this`readIndex, buffer
      ensures Valid() && readIndex == old(readIndex) + |data|
      ensures Pending() == old(Pending()) + data
    {
      Recv(buffer, startLine, checkedIndex, readIndex, data);
      readIndex := readIndex + |data|;
    }

    /** A header line: only the empty one, which ends the headers, decides. */
    method ParseHeaders(text: nat) returns (code: HttpCode)
      requires text < buffer.Length
      ensures code == if buffer[text] == NUL then GET_REQUEST else NO_REQUEST
    {
      if buffer[text] == NUL {
        return GET_REQUEST;
      }
      return NO_REQUEST;
    }

    /** The state switch over one complete line, held as a C string at `text`. */
    method ParseText(text: nat, ghost line: string) returns (code: HttpCode)
      requires Holds(buffer[..], text, line)
      modifies this`checkState, buffer
      ensures code == LineVerdict(old(checkState), line)
      ensures code == NO_REQUEST ==> checkState == CHECK_STATE_HEADER
      ensures forall k :: text + |line| <= k < buffer.Length ==> buffer[k] == old(buffer[k])
    {
      match checkState {
        case CHECK_STATE_REQUESTLINE =>
          var url := ParseRequestLine(buffer, text, line);
          if url.None? {
            return BAD_REQUEST;
          }
          checkState := CHECK_STATE_HEADER;
          return NO_REQUEST;
        case CHECK_STATE_HEADER =>
          assert line != "" ==> buffer[text] == line[0];
          code := ParseHeaders(text);
        case _ =>
          return INTERNAL_ERROR;
      }
    }

    /** Parses every complete line in the buffer: the verdict, and the place where the
        parse waits, are those of one parse over the pending bytes. */
    method ParseContent() returns (code: HttpCode)
      requires Valid()
      modifies this`checkedIndex, this`startLine, this`checkState, buffer
      ensures code == Verdict(old(checkState), old(Pending()))
      ensures code == NO_REQUEST ==>
                Valid() && (checkState, Pending()) == Resume(old(checkState), old(Pending()))
    {
      while true
        invariant Valid()
        invariant Verdict(checkState, Pending()) == Verdict(old(checkState), old(Pending()))
        invariant Resume(checkState, Pending()) == Resume(old(checkState), old(Pending()))
        decreases readIndex - startLine
      {
        var text, status := startLine, LINE_OPEN;
        ghost var front := FrontLine(Pending());
        status, startLine, checkedIndex := NextLine(buffer, startLine, checkedIndex, readIndex);
        if status == LINE_OPEN {
          return NO_REQUEST;
        } else if status == LINE_BAD {
          return BAD_REQUEST;
        }
        ghost var line, framed := CutAtNul(front.text), buffer[..];
        code := ParseText(text, line);
        ScannedAgrees(framed, buffer[..], startLine, checkedIndex, readIndex, text + |line|);
        if code != NO_REQUEST {
          return;
        }
      }
    }

    /** The parser waits for more input after having received `got`. */
    ghost predicate Waiting(got: string)
      reads this, buffer
    {
      && Valid() && buffer.Length == BUFFER_SIZE && readIndex == |got|
      && Verdict(CHECK_STATE_REQUESTLINE, got) == NO_REQUEST
      && Resume(CHECK_STATE_REQUESTLINE, got) == (checkState, Pending())
    }

    lemma StartsWaiting()
      requires Valid() && buffer.Length == BUFFER_SIZE && readIndex == 0 && Pending() == ""
      requires checkState == CHECK_STATE_REQUESTLINE
      ensures Waiting("")
    {
    }

    lemma WaitingMeans(got: string)
      requires Waiting(got)
      ensures buffer.Length == BUFFER_SIZE && |got| <= BUFFER_SIZE && Verdict(CHECK_STATE_REQUESTLINE, got) == NO_REQUEST
    {
    }

    /** One round of the receive loop. */
    method Feed(data: string, ghost got: string) returns (code: HttpCode)
      requires Waiting(got) && |got| + |data| <= BUFFER_SIZE
      modifies this, buffer
      ensures code == Verdict(CHECK_STATE_REQUESTLINE, got + data)
      ensures code == NO_REQUEST ==> Waiting(got + data)
    {
      Receive(data);
      ResumeParse(CHECK_STATE_REQUESTLINE, got, data);
      code := ParseContent();
    }
  }

  /** What the first n recvs may deliver together. */
  function Delivered(recv: nat -> int, n: nat): nat {
    if n == 0 then 0 else Delivered(recv, n - 1) + if recv(n - 1) > 0 then recv(n - 1) else 0
  }

  /** The bytes that fit in the buffer. */
  function Fitting(stream: string): (all: string)
    ensures |all| <= BUFFER_SIZE
  {
    stream[..Min(|stream|, BUFFER_SIZE)]
  }

  /** The bytes received after n recvs, as far as they fit. */
  function Got(stream: string, recv: nat -> int, n: nat): string {
    Fitting(stream)[..Min(Delivered(recv, n), |Fitting(stream)|)]
  }

  /** The receive loop of main over a client that sends `stream`: the i-th recv fails when
      recv(i) is negative, and otherwise delivers at most recv(i) bytes.  After `waited` rounds
      nothing is decided yet.  The next round then brings the answer, or there is no answer
      because it delivers nothing or the buffer or the stream is at its end.  What is answered
      holds for all the bytes that fit. */
  method Serve(stream: string, recv: nat -> int) returns (answer: Option<HttpCode>, waited: nat)
    ensures forall i :: 0 <= i < waited ==> recv(i) > 0
    ensures !IsMessage(Got(stream, recv, waited)) && !IsRejected(Got(stream, recv, waited))
    ensures answer.None? ==> recv(waited) <= 0 || Got(stream, recv, waited) == Fitting(stream)
    ensures answer.Some? ==> recv(waited) > 0 && (answer.value == GET_REQUEST || answer.value == BAD_REQUEST)
    ensures answer == Some(GET_REQUEST) ==> IsMessage(Got(stream, recv, waited + 1)) && IsMessage(Fitting(stream))
    ensures answer == Some(BAD_REQUEST) ==> IsRejected(Got(stream, recv, waited + 1)) && IsRejected(Fitting(stream))
  {
    hide RequestPath, Verdict, Resume, FrontLine, LineVerdict, IsMessage, IsRejected, Delivered, RequestParser.Waiting,
         RequestParser.Valid, Fitting, Got;
    var parser := new RequestParser();
    parser.StartsWaiting();
    DecidedIff("");
    parser.WaitingMeans("");
    var all, received := Fitting(stream), 0;
    waited, answer := 0, None;
    NothingGot(stream, recv);
    while true
      invariant fresh(parser) && fresh(parser.buffer)
      invariant received <= |all| && all[..received] == Got(stream, recv, waited)
      invariant parser.Waiting(all[..received]) && !IsMessage(all[..received]) && !IsRejected(all[..received])
      invariant forall i :: 0 <= i < waited ==> recv(i) > 0
      decreases |all| - received
    {
      GotNext(stream, recv, waited, received);
      var dataRead := if recv(waited) < 0 then -1 else Min(recv(waited), |all| - received);
      if dataRead <= 0 {
        return;
      }
      var result := Round(parser, all, received, received + dataRead);
      received := received + dataRead;
      if result != NO_REQUEST {
        answer := Some(result);
        return;
      }
      waited := waited + 1;
    }
  }

  /** One recv, and the parse that follows it. */
  method Round(parser: RequestParser, all: string, before: nat, after: nat) returns (code: HttpCode)
    requires before <= after <= |all| <= BUFFER_SIZE && parser.Waiting(all[..before])
    modifies parser, parser.buffer
    ensures code == NO_REQUEST || code == GET_REQUEST || code == BAD_REQUEST
    ensures code == NO_REQUEST ==> parser.Waiting(all[..after]) && !IsMessage(all[..after]) && !IsRejected(all[..after])
    ensures code == GET_REQUEST ==> IsMessage(all[..after]) && IsMessage(all)
    ensures code == BAD_REQUEST ==> IsRejected(all[..after]) && IsRejected(all)
  {
    hide RequestPath, Verdict, Resume, FrontLine, LineVerdict, IsMessage, IsRejected, RequestParser.Waiting,
         RequestParser.Valid;
    DecidedIff(all[..after]);
    DecidedIff(all);
    assert all[..before] + all[before..after] == all[..after];
    code := parser.Feed(all[before..after], all[..before]);
    if code != NO_REQUEST {
      assert all[..after] + all[after..] == all;
      VerdictStable(CHECK_STATE_REQUESTLINE, all[..after], all[after..]);
    }
  }

  lemma NothingGot(stream: string, recv: nat -> int)
    ensures Got(stream, recv, 0) == Fitting(stream)[..0] == ""
  {
  }

  lemma GotNext(stream: string, recv: nat -> int, n: nat, received: nat)
    requires received <= |Fitting(stream)| && Fitting(stream)[..received] == Got(stream, recv, n)
    ensures received == |Fitting(stream)| ==> Got(stream, recv, n) == Fitting(stream)
    ensures recv(n) > 0 ==>
              Got(stream, recv, n + 1) == Fitting(stream)[..received + Min(recv(n), |Fitting(stream)| - received)]
  {
    assert |Got(stream, recv, n)| == received;
  }

  lemma DecidedIff(s: string)
    ensures var verdict := Verdict(CHECK_STATE_REQUESTLINE, s);
            && (verdict == NO_REQUEST || verdict == GET_REQUEST || verdict == BAD_REQUEST)
            && (verdict == GET_REQUEST <==> IsMessage(s)) && (verdict == BAD_REQUEST <==> IsRejected(s))
  {
    hide *;
    NeverInternalError(CHECK_STATE_REQUESTLINE, s);
    AcceptedIffMessage(s);
    RejectedIff(s);
  }
}
