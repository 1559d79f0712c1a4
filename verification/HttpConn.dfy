/** The request parser of the web server of chapter 15.  It keeps pointers into its read
    buffer for the fields of the request, across any number of reads. */
module HttpConn {
  import opened Wrappers
  import opened CStrings
  import opened LineFraming
  import opened RequestLine
  import P = HttpParser

  const READ_BUFFER_SIZE: nat := 2048

  datatype CheckState = CHECK_STATE_REQUESTLINE | CHECK_STATE_HEADER | CHECK_STATE_CONTENT
  datatype Method = GET | POST | HEAD | PUT | DELETE | TRACE | OPTIONS | CONNECT | PATCH

  /** What ProcessRead comes to: wait for input, reject, call do_request, or wait for a
      body (which this model does not follow). */
  datatype Code = NO_REQUEST | BAD_REQUEST | DO_REQUEST | AWAIT_BODY

  /** A recv that delivers nothing: EAGAIN, 0 for the end of the stream, or another error. */
  datatype RecvEnd = AGAIN | END | ERROR

  /** The fields that parsing sets, as texts instead of pointers. */
  datatype Request = Request(
    phase: CheckState, verb: Method, url: string, linger: bool, host: Option<string>, contentLength: int)

  const START: Request := Request(CHECK_STATE_REQUESTLINE, GET, "", false, None, 0)

  const CONNECTION: string := "Connection:"
  const CONTENT_LENGTH: string := "Content-Length:"
  const HOST: string := "Host:"

  /** The value of a header line behind a name of length `n`. */
  function HeaderValue(line: string, n: nat): string
    requires n <= |line|
  {
    line[Span(line, n, BLANKS)..]
  }

  predicate IsDigit(c: char) { '0' <= c <= '9' }

  function Digits(s: string, acc: int): int {
    if s == "" || !IsDigit(s[0]) then acc
    else Digits(s[1..], 10 * acc + (s[0] as int - '0' as int))
  }

  /** atol: leading white space, a sign, digits. */
  function Atol(s: string): int {
    var t := s[Span(s, 0, WHITE)..];
    if t == "" then 0
    else if t[0] == '-' then -Digits(t[1..], 0)
    else if t[0] == '+' then Digits(t[1..], 0)
    else Digits(t, 0)
  }

  /** The conversion of a long to the 32-bit m_content_length. */
  function ToInt32(n: int): int {
    var m := n % 0x1_0000_0000;
    if m < 0x8000_0000 then m else m - 0x1_0000_0000
  }

  /** It keeps the last 32 bits. */
  lemma ToInt32Is(n: int)
    ensures -0x8000_0000 <= ToInt32(n) < 0x8000_0000 && (ToInt32(n) - n) % 0x1_0000_0000 == 0
  {
  }

  const WHITE: set<char> := {' ', '\t', '\n', '\r', '\U{000B}', '\U{000C}'}

  function Decimal(n: nat): (s: string)
    ensures s != "" && forall c :: c in s ==> IsDigit(c)
  {
    if n < 10 then [('0' as int + n) as char] else Decimal(n / 10) + [('0' as int + n % 10) as char]
  }

  /** Digits end at the first character that is not one. */
  lemma {:induction false} DigitsEnd(s: string, tail: string, acc: int)
    requires forall c :: c in s ==> IsDigit(c)
    requires tail == "" || !IsDigit(tail[0])
    ensures Digits(s + tail, acc) == Digits(s, acc)
  {
    if s == "" {
      assert s + tail == tail;
    } else {
      assert (s + tail)[1..] == s[1..] + tail;
      DigitsEnd(s[1..], tail, 10 * acc + (s[0] as int - '0' as int));
    }
  }

  lemma {:induction false} DigitsLast(s: string, c: char, acc: int)
    requires (forall d :: d in s ==> IsDigit(d)) && IsDigit(c)
    ensures Digits(s + [c], acc) == 10 * Digits(s, acc) + (c as int - '0' as int)
  {
    if s == "" {
      assert s + [c] == [c];
    } else {
      assert (s + [c])[1..] == s[1..] + [c];
      DigitsLast(s[1..], c, 10 * acc + (s[0] as int - '0' as int));
    }
  }

  lemma {:induction false} DigitsOfDecimal(n: nat)
    ensures Digits(Decimal(n), 0) == n
  {
    if n >= 10 {
      DigitsOfDecimal(n / 10);
      DigitsLast(Decimal(n / 10), ('0' as int + n % 10) as char, 0);
    }
  }

  lemma SpanIs(white: string, rest: string, accept: set<char>)
    requires forall c :: c in white ==> c in accept
    requires rest == "" || rest[0] !in accept
    ensures (white + rest)[Span(white + rest, 0, accept)..] == rest
  {
    var s := white + rest;
    assert forall k :: 0 <= k < |white| ==> s[k] == white[k];
    assert rest != "" ==> s[|white|] == rest[0];
    assert Span(s, 0, accept) == |white|;
  }

  /** A number is read behind white space and a sign, up to what is not a digit; without
      digits it is 0. */
  lemma AtolReads(white: string, sign: string, digits: string, tail: string)
    requires forall c :: c in white ==> c in WHITE
    requires sign == "" || sign == "+" || sign == "-"
    requires forall c :: c in digits ==> IsDigit(c)
    requires tail != "" ==> !IsDigit(tail[0])
    requires tail != "" && sign == "" && digits == "" ==> tail[0] !in WHITE && tail[0] != '+' && tail[0] != '-'
    ensures digits == "" ==> Atol(white + sign + digits + tail) == 0
    ensures forall v: nat :: digits == Decimal(v) ==>
              Atol(white + sign + digits + tail) == if sign == "-" then -(v as int) else v as int
  {
    var body := digits + tail;
    var rest := sign + body;
    assert white + sign + digits + tail == white + rest;
    FirstOf(sign, digits, tail);
    hide Decimal, Digits;
    NoDigits();
    SpanIs(white, rest, WHITE);
    SignedNumber(sign, body);
    assert Atol(white + rest) == (if sign == "-" then -Digits(body, 0) else Digits(body, 0));
    DigitsEnd(digits, tail, 0);
    forall v: nat | digits == Decimal(v) ensures Digits(digits, 0) == v {
      DigitsOfDecimal(v);
    }
  }

  lemma NoDigits()
    ensures Digits("", 0) == 0
  {
  }

  /** What follows the white space does not start with white space, and with a sign only if one
      is there. */
  lemma FirstOf(sign: string, digits: string, tail: string)
    requires sign == "" || sign == "+" || sign == "-"
    requires forall c :: c in digits ==> IsDigit(c)
    requires tail != "" && sign == "" && digits == "" ==> tail[0] !in WHITE && tail[0] != '+' && tail[0] != '-'
    ensures var rest := sign + (digits + tail);
            && (rest != "" ==> rest[0] !in WHITE)
            && (sign == "" && rest != "" ==> rest[0] != '+' && rest[0] != '-')
  {
    if digits != "" {
      assert digits[0] in digits;
    }
  }

  lemma SignedNumber(sign: string, body: string)
    requires sign == "" || sign == "+" || sign == "-"
    requires sign == "" && body != "" ==> body[0] != '+' && body[0] != '-'
    requires body == "" ==> Digits(body, 0) == 0
    ensures var t := sign + body;
            (if t == "" then 0 else if t[0] == '-' then -Digits(t[1..], 0)
             else if t[0] == '+' then Digits(t[1..], 0) else Digits(t, 0))
            == if sign == "-" then -Digits(body, 0) else Digits(body, 0)
  {
    hide Digits;
    assert sign != "" ==> (sign + body)[1..] == body;
    assert sign == "" ==> sign + body == body;
  }

  /** The effect of one header line. */
  function HeaderStep(r: Request, line: string): (Code, Request) {
    if line == "" then
      if r.verb == HEAD then (DO_REQUEST, r)
      else if r.contentLength != 0 then (AWAIT_BODY, r.(phase := CHECK_STATE_CONTENT))
      else (DO_REQUEST, r)
    else if PrefixNoCase(line, CONNECTION) then
      (NO_REQUEST, r.(linger := r.linger || EqualNoCase(HeaderValue(line, |CONNECTION|), "keep-alive")))
    else if PrefixNoCase(line, CONTENT_LENGTH) then
      (NO_REQUEST, r.(contentLength := ToInt32(Atol(HeaderValue(line, |CONTENT_LENGTH|)))))
    else if PrefixNoCase(line, HOST) then
      (NO_REQUEST, r.(host := Some(HeaderValue(line, |HOST|))))
    else (NO_REQUEST, r)
  }

  /** The effect of one complete line. */
  function LineStep(r: Request, line: string): (Code, Request) {
    match r.phase
    case CHECK_STATE_REQUESTLINE =>
      var path := RequestPath(line);
      if path.None? then (BAD_REQUEST, r)
      else (NO_REQUEST, r.(phase := CHECK_STATE_HEADER, verb := GET, url := path.value))
    case CHECK_STATE_HEADER => HeaderStep(r, line)
    case CHECK_STATE_CONTENT => (AWAIT_BODY, r)
  }

  /** One parse over all of `s`: the outcome, the fields, and the bytes not consumed. */
  function Parse(r: Request, s: string): (Code, Request, string)
    decreases |s|
  {
    match FrontLine(s)
    case Line(text, rest) =>
      var (code, r') := LineStep(r, CutAtNul(text));
      if code == NO_REQUEST then Parse(r', rest)
      else if code == BAD_REQUEST then (code, r, s)
      else (code, r', rest)
    case _ => (NO_REQUEST, r, s)
  }

  /** Parsing in two instalments is parsing at once. */
  lemma {:induction false} ParseInPieces(r: Request, s: string, t: string)
    ensures var (code, r', rest) := Parse(r, s);
            Parse(r, s + t) == if code == NO_REQUEST then Parse(r', rest + t) else (code, r', rest + t)
    decreases |s|
  {
    hide RequestPath, HeaderStep;
    FrontStable(s, t);
    match FrontLine(s)
    case Line(text, rest) =>
      var (code, r') := LineStep(r, CutAtNul(text));
      if code == NO_REQUEST {
        ParseInPieces(r', rest, t);
      }
    case _ =>
  }

  // ----- which streams lead to which outcome

  /** BAD_REQUEST comes exactly from a complete first line that is not a request line; a
      misplaced line end is waited for. */
  lemma RejectedIff(s: string)
    ensures Parse(START, s).0 == BAD_REQUEST <==>
              exists line: string, rest: string :: s == line + CRLF + rest && NoLineEnd(line) && !IsAccepted(line)
  {
    hide RequestPath, IsAccepted, HeaderStep, FrontLine;
    var f := FrontLine(s);
    if f.Line? {
      LineIffTerminated(s, f.text, f.rest);
      AcceptedLine(f.text);
      if IsAccepted(f.text) {
        NotRejectedLater(LineStep(START, CutAtNul(f.text)).1, f.rest);
      }
    }
    forall line: string, rest: string | s == line + CRLF + rest && NoLineEnd(line) && !IsAccepted(line)
      ensures Parse(START, s).0 == BAD_REQUEST
    {
      LineIffTerminated(s, line, rest);
      AcceptedLine(line);
    }
  }

  lemma {:induction false} NotRejectedLater(r: Request, s: string)
    requires r.phase != CHECK_STATE_REQUESTLINE
    ensures Parse(r, s).0 != BAD_REQUEST
    decreases |s|
  {
    hide FrontLine;
    var f := FrontLine(s);
    if f.Line? {
      FrontShorter(s);
      NotRejectedLater(LineStep(r, CutAtNul(f.text)).1, f.rest);
    }
  }

  lemma FrontShorter(s: string)
    requires FrontLine(s).Line?
    ensures |FrontLine(s).rest| < |s|
  {
  }

  /** A header line that gives the length of the body, and the length it gives. */
  predicate IsLength(line: string) {
    PrefixNoCase(CutAtNul(line), CONTENT_LENGTH)
  }

  function LengthOf(line: string): int
    requires IsLength(line)
  {
    ToInt32(Atol(HeaderValue(CutAtNul(line), |CONTENT_LENGTH|)))
  }

  /** `length` is given by the last such line, or `default` without any. */
  ghost predicate LastLength(lines: seq<string>, length: int, default: int) {
    && (forall i :: 0 <= i < |lines| && IsLength(lines[i]) && (forall j :: i < j < |lines| ==> !IsLength(lines[j])) ==>
          length == LengthOf(lines[i]))
    && ((forall i :: 0 <= i < |lines| ==> !IsLength(lines[i])) ==> length == default)
  }

  lemma LastLengthNext(lines: seq<string>, length: int, default: int)
    requires lines != []
    requires LastLength(lines[1..], length, if IsLength(lines[0]) then LengthOf(lines[0]) else default)
    ensures LastLength(lines, length, default)
  {
    hide IsLength, LengthOf;
    forall i | 0 <= i < |lines| && IsLength(lines[i]) && (forall j :: i < j < |lines| ==> !IsLength(lines[j]))
      ensures length == LengthOf(lines[i])
    {
      if i > 0 {
        assert IsLength(lines[1..][i - 1]);
        assert forall j :: i - 1 < j < |lines| - 1 ==> lines[1..][j] == lines[j + 1];
      } else {
        assert forall j :: 0 <= j < |lines| - 1 ==> lines[1..][j] == lines[j + 1];
      }
    }
    if forall i :: 0 <= i < |lines| ==> !IsLength(lines[i]) {
      assert forall j :: 0 <= j < |lines| - 1 ==> lines[1..][j] == lines[j + 1];
    }
  }

  lemma HeaderLength(r: Request, line: string)
    requires CutAtNul(line) != ""
    ensures HeaderStep(r, CutAtNul(line)).0 == NO_REQUEST
    ensures var r' := HeaderStep(r, CutAtNul(line)).1;
            && r'.phase == r.phase && r'.verb == r.verb
            && r'.contentLength == if IsLength(line) then LengthOf(line) else r.contentLength
  {
    var l := CutAtNul(line);
    hide CutAtNul, HeaderValue, Atol, EqualNoCase, ToInt32;
    if IsLength(line) && PrefixNoCase(l, CONNECTION) {
      NotBoth(l);
    }
  }

  /** The two names differ at their fourth letter. */
  lemma NotBoth(line: string)
    requires PrefixNoCase(line, CONNECTION)
    ensures !PrefixNoCase(line, CONTENT_LENGTH)
  {
    PrefixNoCaseSplit(line, CONNECTION);
    EqualNoCaseIff(line[..|CONNECTION|], CONNECTION);
    assert SameButCase(line[..|CONNECTION|][3], 'n');
    if PrefixNoCase(line, CONTENT_LENGTH) {
      PrefixNoCaseSplit(line, CONTENT_LENGTH);
      var name := line[..|CONTENT_LENGTH|];
      EqualNoCaseIff(name, CONTENT_LENGTH);
      OtherLetter(name[3], name, CONTENT_LENGTH, 3);
      assert false;
    }
  }

  lemma OtherLetter(c: char, a: string, b: string, i: nat)
    requires SameWord(a, b) && i < |a| && c == a[i]
    ensures SameButCase(c, b[i])
  {
  }

  /** A block of headers ends in do_request, or in waiting for the body when the last length
      given is not 0. */
  lemma {:induction false} BlockEnds(r: Request, lines: seq<string>, rest: string)
    requires r.phase == CHECK_STATE_HEADER && r.verb == GET && P.HeaderBlock(lines)
    ensures var (code, r', tail) := Parse(r, P.Unlines(lines) + rest);
            && tail == rest && LastLength(lines, r'.contentLength, r.contentLength)
            && code == if r'.contentLength != 0 then AWAIT_BODY else DO_REQUEST
    decreases |lines|
  {
    var s, after := P.Unlines(lines) + rest, P.Unlines(lines[1..]) + rest;
    assert s == lines[0] + CRLF + after;
    LineIffTerminated(s, lines[0], after);
    hide FrontLine, CutAtNul, HeaderStep, IsLength, LengthOf;
    if |lines| > 1 {
      HeaderLength(r, lines[0]);
      BlockEnds(HeaderStep(r, CutAtNul(lines[0])).1, lines[1..], rest);
    } else {
      assert lines[1..] == [] && after == rest;
      BlankEnds(r, lines[0]);
    }
    var length := Parse(r, s).1.contentLength;
    LastLengthNext(lines, length, r.contentLength);
  }

  lemma BlankEnds(r: Request, line: string)
    requires r.verb == GET && CutAtNul(line) == ""
    ensures var (code, r') := HeaderStep(r, "");
            && r'.contentLength == r.contentLength
            && code == if r.contentLength != 0 then AWAIT_BODY else DO_REQUEST
    ensures !IsLength(line)
  {
  }

  /** So a message leads to waiting for its body exactly when the last length it gives is not 0. */
  lemma MessageEnds(line: string, lines: seq<string>, rest: string)
    requires NoLineEnd(line) && IsAccepted(line) && P.HeaderBlock(lines)
    ensures var (code, r, tail) := Parse(START, line + CRLF + (P.Unlines(lines) + rest));
            && tail == rest && LastLength(lines, r.contentLength, 0)
            && code == if r.contentLength != 0 then AWAIT_BODY else DO_REQUEST
  {
    hide RequestPath, FrontLine, LastLength;
    var after := P.Unlines(lines) + rest;
    LineIffTerminated(line + CRLF + after, line, after);
    AcceptedLine(line);
    BlockEnds(LineStep(START, CutAtNul(line)).1, lines, rest);
  }

  /** Apart from what follows, both parsers take the same messages: a request line of the
      grammar, header lines and a blank line. */
  lemma SameMessages(s: string)
    ensures (Parse(START, s).0 == DO_REQUEST || Parse(START, s).0 == AWAIT_BODY) <==> P.IsMessage(s)
  {
    hide RequestPath, HeaderStep, FrontLine;
    P.AcceptedIffMessage(s);
    var f := FrontLine(s);
    if f.Line? && RequestPath(CutAtNul(f.text)).Some? {
      SameHeaders(LineStep(START, CutAtNul(f.text)).1, f.rest);
    }
  }

  lemma {:induction false} SameHeaders(r: Request, s: string)
    requires r.phase == CHECK_STATE_HEADER && r.verb == GET
    ensures (Parse(r, s).0 == DO_REQUEST || Parse(r, s).0 == AWAIT_BODY)
       <==> P.Verdict(P.CHECK_STATE_HEADER, s) == P.GET_REQUEST
    decreases |s|
  {
    hide FrontLine, HeaderStep, CutAtNul;
    var f := FrontLine(s);
    if f.Line? {
      FrontShorter(s);
      if CutAtNul(f.text) == "" {
        BlankEnds(r, f.text);
      } else {
        HeaderLength(r, f.text);
        SameHeaders(HeaderStep(r, CutAtNul(f.text)).1, f.rest);
      }
    }
  }

  // ----- printing a request

  /** A header with its name in any case and any blanks behind it, or another line. */
  datatype Header =
    | Connection(name: string, blanks: string, value: string)
    | Host(name: string, blanks: string, value: string)
    | Length(name: string, blanks: string, length: int)
    | Other(line: string)

  ghost predicate Clean(s: string) {
    '\r' !in s && '\n' !in s && NUL !in s
  }

  ghost predicate AllBlank(s: string) {
    forall c :: c in s ==> c == ' ' || c == '\t'
  }

  ghost predicate Printable(h: Header) {
    match h
    case Other(line) =>
      && Clean(line) && line != ""
      && !PrefixNoCase(line, CONNECTION) && !PrefixNoCase(line, CONTENT_LENGTH) && !PrefixNoCase(line, HOST)
    case Connection(name, blanks, value) => SameWord(name, "Connection:") && AllBlank(blanks) && IsValue(value)
    case Host(name, blanks, value) => SameWord(name, "Host:") && AllBlank(blanks) && IsValue(value)
    case Length(name, blanks, _) => SameWord(name, "Content-Length:") && AllBlank(blanks)
  }

  ghost predicate IsValue(value: string) {
    Clean(value) && (value != "" ==> value[0] != ' ' && value[0] != '\t')
  }

  function PrintInt(n: int): string {
    if n < 0 then "-" + Decimal(-n) else Decimal(n)
  }

  function PrintHeader(h: Header): string {
    match h
    case Connection(name, blanks, value) => name + blanks + value
    case Host(name, blanks, value) => name + blanks + value
    case Length(name, blanks, n) => name + blanks + PrintInt(n)
    case Other(line) => line
  }

  function PrintHeaders(hs: seq<Header>): string {
    if hs == [] then CRLF else PrintHeader(hs[0]) + CRLF + PrintHeaders(hs[1..])
  }

  /** A request line with method and version in any case, and any blanks between the words. */
  datatype Line = RequestLine(verb: string, b1: string, path: string, b2: string, version: string)

  ghost predicate PrintableLine(l: Line) {
    && SameWord(l.verb, "GET") && SameWord(l.version, "HTTP/1.1") && AllBlank(l.b1) && AllBlank(l.b2)
    && l.b1 != "" && l.b2 != "" && l.path != "" && l.path[0] == '/' && Clean(l.path) && Word(l.path)
  }

  function PrintRequestLine(l: Line): string {
    l.verb + l.b1 + l.path + l.b2 + l.version
  }

  function PrintRequest(l: Line, hs: seq<Header>): string {
    PrintRequestLine(l) + CRLF + PrintHeaders(hs)
  }

  ghost predicate KeepAlive(h: Header) {
    h.Connection? && SameWord(h.value, "keep-alive")
  }

  /** The value of the last Host header, and of the last Content-Length header, or what was
      there before. */
  ghost predicate LastHost(hs: seq<Header>, host: Option<string>, default: Option<string>) {
    && (forall i :: 0 <= i < |hs| && hs[i].Host? && (forall j :: i < j < |hs| ==> !hs[j].Host?) ==> host == Some(hs[i].value))
    && ((forall i :: 0 <= i < |hs| ==> !hs[i].Host?) ==> host == default)
  }

  ghost predicate LastGiven(hs: seq<Header>, length: int, default: int) {
    && (forall i :: 0 <= i < |hs| && hs[i].Length? && (forall j :: i < j < |hs| ==> !hs[j].Length?) ==>
          length == ToInt32(hs[i].length))
    && ((forall i :: 0 <= i < |hs| ==> !hs[i].Length?) ==> length == default)
  }

  lemma LastHostNext(hs: seq<Header>, last: Option<string>, default: Option<string>)
    requires hs != [] && LastHost(hs[1..], last, if hs[0].Host? then Some(hs[0].value) else default)
    ensures LastHost(hs, last, default)
  {
    hide ToInt32;
    forall i | 0 <= i < |hs| && hs[i].Host? && (forall j :: i < j < |hs| ==> !hs[j].Host?)
      ensures last == Some(hs[i].value)
    {
      assert i > 0 ==> hs[1..][i - 1] == hs[i];
      forall j | 0 <= j < |hs| - 1 && j > i - 1 ensures !hs[1..][j].Host? {
        assert hs[1..][j] == hs[j + 1];
      }
    }
    if forall i :: 0 <= i < |hs| ==> !hs[i].Host? {
      forall j | 0 <= j < |hs| - 1 ensures !hs[1..][j].Host? {
        assert hs[1..][j] == hs[j + 1];
      }
    }
  }

  lemma LastGivenNext(hs: seq<Header>, last: int, default: int)
    requires hs != [] && LastGiven(hs[1..], last, if hs[0].Length? then ToInt32(hs[0].length) else default)
    ensures LastGiven(hs, last, default)
  {
    hide ToInt32;
    forall i | 0 <= i < |hs| && hs[i].Length? && (forall j :: i < j < |hs| ==> !hs[j].Length?)
      ensures last == ToInt32(hs[i].length)
    {
      assert i > 0 ==> hs[1..][i - 1] == hs[i];
      forall j | 0 <= j < |hs| - 1 && j > i - 1 ensures !hs[1..][j].Length? {
        assert hs[1..][j] == hs[j + 1];
      }
    }
    if forall i :: 0 <= i < |hs| ==> !hs[i].Length? {
      forall j | 0 <= j < |hs| - 1 ensures !hs[1..][j].Length? {
        assert hs[1..][j] == hs[j + 1];
      }
    }
  }

  lemma ValueOf(name: string, blanks: string, value: string)
    requires AllBlank(blanks) && (value != "" ==> value[0] !in BLANKS)
    ensures HeaderValue(name + blanks + value, |name|) == value
  {
    var line, tail := name + blanks + value, blanks + value;
    assert line == name + tail;
    forall k | |name| <= k < |name| + |blanks| ensures line[k] in BLANKS {
      assert line[k] == blanks[k - |name|] && blanks[k - |name|] in blanks;
    }
    assert value != "" ==> line[|name| + |blanks|] == value[0];
    assert Span(line, |name|, BLANKS) == |name| + |blanks|;
  }

  lemma CleanIsUncut(s: string)
    requires Clean(s)
    ensures CutAtNul(s) == s
  {
  }

  /** Changing the case of letters makes no line end. */
  lemma SameWordClean(a: string, b: string)
    requires SameWord(a, b) && Clean(b)
    ensures Clean(a)
  {
    forall i | 0 <= i < |a| ensures a[i] != '\r' && a[i] != '\n' && a[i] != NUL {
      assert SameButCase(a[i], b[i]) && b[i] in b;
    }
  }

  /** A line with a name in front. */
  lemma NamedLine(name: string, key: string, blanks: string, value: string)
    requires SameWord(name, key) && key != "" && Clean(key) && AllBlank(blanks) && IsValue(value)
    ensures var line := name + blanks + value;
            && Clean(line) && line != "" && PrefixNoCase(line, key) && HeaderValue(line, |key|) == value
            && SameButCase(line[0], key[0])
  {
    hide PrefixNoCase, EqualNoCase, HeaderValue;
    var line := name + blanks + value;
    SameWordClean(name, key);
    assert line == name + (blanks + value) && line[..|key|] == name;
    EqualNoCaseIff(name, key);
    PrefixNoCaseSplit(line, key);
    ValueOf(name, blanks, value);
    assert SameButCase(name[0], key[0]);
  }

  lemma ConnectionEffect(r: Request, h: Header)
    requires Printable(h) && h.Connection?
    ensures Clean(PrintHeader(h)) && PrintHeader(h) != ""
    ensures HeaderStep(r, PrintHeader(h)) == (NO_REQUEST, r.(linger := r.linger || SameWord(h.value, "keep-alive")))
  {
    hide PrefixNoCase, HeaderValue, EqualNoCase, SameWord;
    NamedLine(h.name, CONNECTION, h.blanks, h.value);
    EqualNoCaseIff(h.value, "keep-alive");
  }

  lemma HostEffect(r: Request, h: Header)
    requires Printable(h) && h.Host?
    ensures Clean(PrintHeader(h)) && PrintHeader(h) != ""
    ensures HeaderStep(r, PrintHeader(h)) == (NO_REQUEST, r.(host := Some(h.value)))
  {
    hide HeaderValue, EqualNoCase, Atol, SameWord;
    NamedLine(h.name, HOST, h.blanks, h.value);
    var line := PrintHeader(h);
    assert Lower(line[0]) == 'h';
  }

  lemma LengthEffect(r: Request, h: Header)
    requires Printable(h) && h.Length?
    ensures Clean(PrintHeader(h)) && PrintHeader(h) != ""
    ensures HeaderStep(r, PrintHeader(h)) == (NO_REQUEST, r.(contentLength := ToInt32(h.length)))
  {
    hide PrefixNoCase, HeaderValue, EqualNoCase, Atol, SameWord, Decimal, ToInt32;
    PrintIntReads(h.length);
    NamedLine(h.name, CONTENT_LENGTH, h.blanks, PrintInt(h.length));
    var line := PrintHeader(h);
    if PrefixNoCase(line, CONNECTION) {
      NotBoth(line);
    }
  }

  lemma PrintIntReads(n: int)
    ensures IsValue(PrintInt(n)) && Atol(PrintInt(n)) == n
  {
    hide Atol;
    var sign := if n < 0 then "-" else "";
    var digits := Decimal(if n < 0 then -n else n);
    AtolReads("", sign, digits, "");
    assert "" + sign + digits + "" == sign + digits;
    assert n >= 0 ==> sign + digits == digits;
    assert sign + digits == PrintInt(n);
    hide Decimal;
    assert digits[0] in digits;
    forall c | c in PrintInt(n) ensures c == '-' || IsDigit(c) {
    }
  }

  lemma HeaderEffect(r: Request, h: Header)
    requires Printable(h)
    ensures Clean(PrintHeader(h)) && PrintHeader(h) != ""
    ensures HeaderStep(r, PrintHeader(h)) ==
              (NO_REQUEST, r.(linger := r.linger || KeepAlive(h),
                              host := if h.Host? then Some(h.value) else r.host,
                              contentLength := if h.Length? then ToInt32(h.length) else r.contentLength))
  {
    hide PrefixNoCase, HeaderValue, EqualNoCase, Atol, ToInt32, SameWord;
    match h
    case Connection(_, _, _) => ConnectionEffect(r, h);
    case Host(_, _, _) => HostEffect(r, h);
    case Length(_, _, _) => LengthEffect(r, h);
    case Other(line) =>
  }

  /** Printed headers: whether some Connection header keeps the connection alive, the last host
      and the last length.  A body is awaited if and only if that length is not 0. */
  lemma {:induction false} HeadersEffect(r: Request, hs: seq<Header>, t: string)
    requires r.phase == CHECK_STATE_HEADER && r.verb == GET
    requires forall h :: h in hs ==> Printable(h)
    ensures var (code, q, rest) := Parse(r, PrintHeaders(hs) + t);
            && rest == t && q.verb == GET && q.url == r.url
            && (q.linger <==> r.linger || exists h :: h in hs && KeepAlive(h))
            && LastHost(hs, q.host, r.host) && LastGiven(hs, q.contentLength, r.contentLength)
            && code == if q.contentLength != 0 then AWAIT_BODY else DO_REQUEST
    decreases |hs|
  {
    var s := PrintHeaders(hs) + t;
    hide FrontLine, IndexOfAny, KeepAlive, ToInt32;
    if hs == [] {
      assert s == "" + CRLF + t;
      LineIffTerminated(s, "", t);
      CleanIsUncut("");
    } else {
      var line, rest := PrintHeader(hs[0]), PrintHeaders(hs[1..]) + t;
      assert s == line + CRLF + rest;
      HeaderEffect(r, hs[0]);
      LineIffTerminated(s, line, rest);
      CleanIsUncut(line);
      hide HeaderStep, CutAtNul, PrintHeader, Printable, LastHost, LastGiven;
      var r' := HeaderStep(r, line).1;
      HeadersEffect(r', hs[1..], t);
      assert (exists h :: h in hs && KeepAlive(h)) <==> KeepAlive(hs[0]) || exists h :: h in hs[1..] && KeepAlive(h);
      var q := Parse(r, s).1;
      LastHostNext(hs, q.host, r.host);
      LastGivenNext(hs, q.contentLength, r.contentLength);
    }
  }

  /** What a printed request is parsed to. */
  ghost predicate ParsedAs(l: Line, hs: seq<Header>, code: Code, q: Request) {
    && q.url == l.path && (q.linger <==> exists h :: h in hs && KeepAlive(h))
    && LastHost(hs, q.host, None) && LastGiven(hs, q.contentLength, 0)
    && code == if q.contentLength != 0 then AWAIT_BODY else DO_REQUEST
  }

  /** A printed request is parsed back, and nothing behind it is consumed. */
  lemma PrintThenParse(l: Line, hs: seq<Header>, t: string)
    requires PrintableLine(l) && forall h :: h in hs ==> Printable(h)
    ensures var (code, q, rest) := Parse(START, PrintRequest(l, hs) + t);
            ParsedAs(l, hs, code, q) && rest == t
  {
    hide RequestPath, HeaderStep, FrontLine, IndexOfAny, PrintRequestLine, LastHost, LastGiven, KeepAlive;
    var line := PrintRequestLine(l);
    var rest := PrintHeaders(hs) + t;
    var s := PrintRequest(l, hs) + t;
    assert s == line + CRLF + rest;
    RequestLineEffect(l);
    LineIffTerminated(s, line, rest);
    CleanIsUncut(line);
    HeadersEffect(START.(phase := CHECK_STATE_HEADER, url := l.path), hs, t);
  }

  lemma RequestLineEffect(l: Line)
    requires PrintableLine(l)
    ensures Clean(PrintRequestLine(l)) && RequestPath(PrintRequestLine(l)) == Some(l.path)
  {
    hide RequestPath, SameWord;
    SameWordClean(l.verb, "GET");
    SameWordClean(l.version, "HTTP/1.1");
    AcceptedInAnyCase(l.verb, l.b1, l.path, l.b2, l.version);
  }

  // ----- the connection

  /** The C string at `p` ends before position `n`. */
  ghost predicate Stored(b: seq<char>, p: nat, n: nat) {
    p < n <= |b| && IndexOfAny(b, p, {NUL}) < n
  }

  lemma StoredSuffix(b: seq<char>, p: nat, s: string, i: nat, n: nat)
    requires Holds(b, p, s) && i <= |s| && p + |s| < n <= |b|
    ensures Stored(b, p + i, n) && CStr(b, p + i) == s[i..]
  {
    HoldsSuffix(b, p, s, i);
    HoldsIsCStr(b, p + i, s[i..]);
  }

  lemma StoredKept(b: seq<char>, c: seq<char>, p: nat, n: nat)
    requires Stored(b, p, n) && |c| == |b| && forall k :: 0 <= k < n ==> c[k] == b[k]
    ensures Stored(c, p, n) && CStr(c, p) == CStr(b, p)
  {
    var i := IndexOfAny(b, p, {NUL});
    assert IndexOfAny(c, p, {NUL}) == i;
  }

  class HttpConnection {
    const readBuf: array<char>
    var readIdx: nat
    var checkedIdx: nat
    var startLine: nat
    var checkState: CheckState
    var verb: Method
    var url: Option<nat>
    var host: Option<nat>
    var contentLength: int
    var linger: bool

    /** The pointers lie in the consumed part of the buffer, which no longer changes. */
    ghost predicate Valid()
      reads this, readBuf
    {
      && readBuf.Length == READ_BUFFER_SIZE
      && Scanned(readBuf[..], startLine, checkedIdx, readIdx)
      && (url.Some? ==> Stored(readBuf[..], url.value, startLine))
      && (host.Some? ==> Stored(readBuf[..], host.value, startLine))
    }

    ghost function Pending(): string
      requires Valid()
      reads this, readBuf
    {
      readBuf[..][startLine..readIdx]
    }

    function TextAt(p: Option<nat>): Option<string>
      requires p.Some? ==> p.value <= readBuf.Length
      reads readBuf
    {
      if p.None? then None else Some(CStr(readBuf[..], p.value))
    }

    /** The request fields, with every pointer replaced by the C string it denotes. */
    function View(): Request
      requires url.Some? ==> url.value <= readBuf.Length
      requires host.Some? ==> host.value <= readBuf.Length
      reads this, readBuf
    {
      Request(checkState, verb, if url.None? then "" else TextAt(url).value, linger, TextAt(host), contentLength)
    }

    constructor ()
      ensures Valid() && fresh(readBuf)
      ensures View() == START && Pending() == "" && readIdx == 0
    {
      readBuf := new char[READ_BUFFER_SIZE](_ => NUL);
      readIdx, checkedIdx, startLine := 0, 0, 0;
      checkState, verb, linger := CHECK_STATE_REQUESTLINE, GET, false;
      url, host, contentLength := None, None, 0;
    }

    method ParseHeaders(text: nat, ghost line: string) returns (code: Code)
      requires Valid() && Holds(readBuf[..], text, line) && text + |line| < startLine
      requires checkState == CHECK_STATE_HEADER
      modifies this`checkState, this`linger, this`contentLength, this`host
      ensures Valid() && (code, View()) == HeaderStep(old(View()), line)
      ensures checkState != CHECK_STATE_REQUESTLINE
    {
      hide IndexOfAny, PrefixNoCase, EqualNoCase, HeaderValue, Atol, CStr;
      assert line != "" ==> readBuf[text] == line[0];
      HoldsIsCStr(readBuf[..], text, line);
      var name := CStr(readBuf[..], text);
      if readBuf[text] == NUL {
        if verb == HEAD {
          return DO_REQUEST;
        }
        if contentLength != 0 {
          checkState := CHECK_STATE_CONTENT;
          return AWAIT_BODY;
        }
        return DO_REQUEST;
      } else if PrefixNoCase(name, CONNECTION) {
        var value := Value(text, |CONNECTION|, line);
        if EqualNoCase(CStr(readBuf[..], value), "keep-alive") {
          linger := true;
        }
      } else if PrefixNoCase(name, CONTENT_LENGTH) {
        var value := Value(text, |CONTENT_LENGTH|, line);
        contentLength := ToInt32(Atol(CStr(readBuf[..], value)));
      } else if PrefixNoCase(name, HOST) {
        var value := Value(text, |HOST|, line);
        host := Some(value);
      }
      return NO_REQUEST;
    }

    /** The pointer behind the name and the blanks of a header line. */
    method Value(text: nat, n: nat, ghost line: string) returns (value: nat)
      requires Valid() && Holds(readBuf[..], text, line) && text + |line| < startLine && n <= |line|
      ensures Stored(readBuf[..], value, startLine)
      ensures CStr(readBuf[..], value) == HeaderValue(line, n)
    {
      HoldsSpan(readBuf[..], text, line, n, BLANKS);
      StoredSuffix(readBuf[..], text, line, Span(line, n, BLANKS), startLine);
      value := Span(readBuf[..], text + n, BLANKS);
    }

    /** The state switch over one complete line, held as a C string at `text`. */
    method ParseText(text: nat, ghost line: string) returns (code: Code)
      requires Valid() && Holds(readBuf[..], text, line) && text + |line| < startLine
      requires checkState == CHECK_STATE_REQUESTLINE ==> url.None? && host.None?
      modifies this`checkState, this`verb, this`url, this`linger, this`contentLength, this`host, readBuf
      ensures code == LineStep(old(View()), line).0
      ensures code != BAD_REQUEST ==>
                && Valid() && View() == LineStep(old(View()), line).1
                && checkState != CHECK_STATE_REQUESTLINE && Pending() == old(Pending())
    {
      hide RequestPath, HeaderStep, IndexOfAny;
      match checkState {
        case CHECK_STATE_REQUESTLINE =>
          ghost var before := readBuf[..];
          var path := ParseRequestLine(readBuf, text, line);
          if path.None? {
            return BAD_REQUEST;
          }
          ScannedAgrees(before, readBuf[..], startLine, checkedIdx, readIdx, text + |line|);
          ghost var target := RequestPath(line).value;
          StoredSuffix(readBuf[..], path.value, target, 0, startLine);
          assert target[0..] == target;
          verb := GET;
          url := path;
          checkState := CHECK_STATE_HEADER;
          return NO_REQUEST;
        case CHECK_STATE_HEADER =>
          code := ParseHeaders(text, line);
        case CHECK_STATE_CONTENT =>
          return AWAIT_BODY;
      }
    }

    /** No field points into the buffer before the request line has been accepted. */
    ghost predicate Consistent()
      reads this, readBuf
    {
      Valid() && (checkState == CHECK_STATE_REQUESTLINE ==> url.None? && host.None?)
    }

    /** Consumes every complete line in the buffer: outcome, fields and waiting place are
        those of one parse over the pending bytes. */
    method ProcessRead() returns (code: Code)
      requires Consistent()
      modifies this`checkedIdx, this`startLine, this`checkState, this`verb, this`url, this`linger,
               this`contentLength, this`host, readBuf
      ensures code == Parse(old(View()), old(Pending())).0
      ensures code != BAD_REQUEST ==>
                Consistent() && (code, View(), Pending()) == Parse(old(View()), old(Pending()))
    {
      hide RequestPath, HeaderStep, LineStep, FrontLine, IndexOfAny, CStr, Holds;
      while true
        invariant Consistent()
        invariant Parse(View(), Pending()) == Parse(old(View()), old(Pending()))
        decreases readIdx - startLine
      {
        var text, status := startLine, LINE_OPEN;
        ghost var before, front := readBuf[..], FrontLine(Pending());
        status, startLine, checkedIdx := NextLine(readBuf, startLine, checkedIdx, readIdx);
        if url.Some? { PointerKept(before, url.value, text); }
        if host.Some? { PointerKept(before, host.value, text); }
        if status != LINE_OK {
          return NO_REQUEST;
        }
        code := ParseText(text, CutAtNul(front.text));
        if code != NO_REQUEST {
          return;
        }
      }
    }

    /** Framing a line leaves the C strings of the consumed part alone. */
    lemma PointerKept(before: seq<char>, p: nat, text: nat)
      requires Stored(before, p, text) && text <= startLine <= readBuf.Length == |before|
      requires forall k :: 0 <= k < text ==> readBuf[k] == before[k]
      ensures Stored(readBuf[..], p, startLine)
      ensures CStr(readBuf[..], p) == CStr(before, p)
    {
      StoredKept(before, readBuf[..], p, text);
    }

    /** recv: `data` is appended to the buffer. */
    method Receive(data: string)
      requires Consistent() && readIdx + |data| <= readBuf.Length
      modifies this`readIdx, readBuf
      ensures Consistent() && readIdx == old(readIdx) + |data|
      ensures View() == old(View()) && Pending() == old(Pending()) + data
    {
      hide IndexOfAny, CStr;
      ghost var before := readBuf[..];
      Recv(readBuf, startLine, checkedIdx, readIdx, data);
      readIdx := readIdx + |data|;
      if url.Some? { StoredKept(before, readBuf[..], url.value, startLine); }
      if host.Some? { StoredKept(before, readBuf[..], host.value, startLine); }
    }

    /** The reading loop, when `arrived` is what the socket holds, the i-th recv takes at most
        1 + sizes(i) bytes, and a recv answers `after` once all of it is taken.  A recv that
        has no room left answers `noRoom`, which is up to the system: 0, taken for a closed
        connection, or EAGAIN. */
    method Read(arrived: string, sizes: nat -> nat, after: RecvEnd, noRoom: RecvEnd) returns (ok: bool)
      requires Consistent()
      modifies this`readIdx, readBuf
      ensures ok <==> old(readIdx) < READ_BUFFER_SIZE
                      && if old(readIdx) + |arrived| < READ_BUFFER_SIZE then after == AGAIN else noRoom == AGAIN
      ensures var taken := Min(|arrived|, READ_BUFFER_SIZE - old(readIdx));
                && Consistent() && readIdx == old(readIdx) + taken
                && View() == old(View()) && Pending() == old(Pending()) + arrived[..taken]
    {
      hide View, Scanned;
      ReadInside();
      if readIdx >= READ_BUFFER_SIZE {
        assert arrived[..0] == "";
        return false;
      }
      var taken, i := 0, 0;
      while true
        invariant taken <= |arrived| && readIdx == old(readIdx) + taken <= READ_BUFFER_SIZE
        invariant Consistent() && View() == old(View())
        invariant Pending() == old(Pending()) + arrived[..taken]
        decreases |arrived| - taken
      {
        if readIdx == READ_BUFFER_SIZE {
          return noRoom == AGAIN;
        }
        if taken == |arrived| {
          return after == AGAIN;
        }
        var n := Min(1 + sizes(i), Min(READ_BUFFER_SIZE - readIdx, |arrived| - taken));
        i := i + 1;
        NextSlice(arrived, taken, n);
        Receive(arrived[taken..taken + n]);
        taken := taken + n;
      }
    }

    static lemma NextSlice(s: string, i: nat, n: nat)
      requires i + n <= |s|
      ensures s[..i] + s[i..i + n] == s[..i + n]
    {
    }

    lemma ReadInside()
      requires Consistent()
      ensures readIdx <= READ_BUFFER_SIZE
    {
    }

    /** The connection waits for more input after having received `got`. */
    ghost predicate Waiting(got: string)
      reads this, readBuf
    {
      && Consistent() && readIdx == |got|
      && Parse(START, got) == (NO_REQUEST, View(), Pending())
    }

    lemma WaitsAtStart()
      requires Valid() && readIdx == 0 && View() == START && Pending() == ""
      ensures Waiting("")
    {
      ParseNothing();
    }

    lemma PointersInside()
      requires Consistent()
      ensures url.Some? ==> url.value <= readBuf.Length
      ensures host.Some? ==> host.value <= readBuf.Length
    {
    }

    lemma WaitingMeans(got: string)
      requires Waiting(got)
      ensures Consistent() && Parse(START, got).0 == NO_REQUEST && Parse(START, got).1 == View()
    {
    }

    /** One read event: read what has arrived, then parse. */
    method Round(burst: string, sizes: nat -> nat, ghost got: string) returns (code: Code)
      requires Waiting(got) && |got| + |burst| < READ_BUFFER_SIZE
      modifies this, readBuf
      ensures code == Parse(START, got + burst).0
      ensures code != BAD_REQUEST ==> Consistent() && View() == Parse(START, got + burst).1
      ensures code == NO_REQUEST ==> Waiting(got + burst)
    {
      hide Parse, View;
      ParseInPieces(START, got, burst);
      var _ := Read(burst, sizes, AGAIN, END);
      assert burst[..|burst|] == burst;
      code := ProcessRead();
    }
  }

  function Flatten(bursts: seq<string>): string {
    if bursts == [] then "" else bursts[0] + Flatten(bursts[1..])
  }

  /** A connection that receives `bursts`, parsing after each one: whatever the bursts and
      the recv sizes, the outcome and the fields are those of one parse over all the
      bytes, if these fit in the buffer. */
  method Converse(bursts: seq<string>, sizes: (nat, nat) -> nat) returns (code: Code, request: Request)
    requires |Flatten(bursts)| < READ_BUFFER_SIZE
    ensures code == Parse(START, Flatten(bursts)).0
    ensures code != BAD_REQUEST ==> request == Parse(START, Flatten(bursts)).1
  {
    var conn := new HttpConnection();
    conn.WaitsAtStart();
    var i := 0;
    ghost var got := "";
    hide *;
    NoBursts(bursts);
    while i < |bursts|
      invariant i <= |bursts| && fresh(conn) && fresh(conn.readBuf)
      invariant Sent(bursts, i, got) && conn.Waiting(got)
    {
      NextBurst(bursts, i, got);
      code := conn.Round(bursts[i], n => sizes(i, n), got);
      got := got + bursts[i];
      if code == BAD_REQUEST {
        return code, START;
      } else if code != NO_REQUEST {
        conn.PointersInside();
        return code, conn.View();
      }
      i := i + 1;
    }
    AllSent(bursts, got);
    conn.WaitingMeans(got);
    conn.PointersInside();
    return NO_REQUEST, conn.View();
  }

  /** `got` are the bytes of the first i bursts. */
  ghost predicate Sent(bursts: seq<string>, i: nat, got: string) {
    i <= |bursts| && got == Flatten(bursts[..i])
  }

  lemma NoBursts(bursts: seq<string>)
    ensures Sent(bursts, 0, "")
  {
  }

  lemma AllSent(bursts: seq<string>, got: string)
    requires Sent(bursts, |bursts|, got)
    ensures got == Flatten(bursts)
  {
    assert bursts[..|bursts|] == bursts;
  }

  /** A verdict on the bursts so far is the verdict on all of them. */
  lemma NextBurst(bursts: seq<string>, i: nat, got: string)
    requires i < |bursts| && Sent(bursts, i, got)
    ensures Sent(bursts, i + 1, got + bursts[i]) && |got| + |bursts[i]| <= |Flatten(bursts)|
    ensures Parse(START, got + bursts[i]).0 != NO_REQUEST ==>
              && Parse(START, Flatten(bursts)).0 == Parse(START, got + bursts[i]).0
              && Parse(START, Flatten(bursts)).1 == Parse(START, got + bursts[i]).1
  {
    hide Parse, Flatten;
    FlattenSplit(bursts, i + 1);
    ParseInPieces(START, Flatten(bursts[..i + 1]), Flatten(bursts[i + 1..]));
  }

  /** A printed request, cut in any way, reaches do_request, or the wait for its body, with what
      was printed. */
  method Fetch(l: Line, hs: seq<Header>, bursts: seq<string>, sizes: (nat, nat) -> nat)
    returns (code: Code, request: Request)
    requires PrintableLine(l) && forall h :: h in hs ==> Printable(h)
    requires Flatten(bursts) == PrintRequest(l, hs) && |Flatten(bursts)| < READ_BUFFER_SIZE
    ensures code == if request.contentLength != 0 then AWAIT_BODY else DO_REQUEST
    ensures request.url == l.path && (request.linger <==> exists h :: h in hs && KeepAlive(h))
    ensures LastHost(hs, request.host, None) && LastGiven(hs, request.contentLength, 0)
  {
    hide Parse, PrintRequest, LastHost, LastGiven, KeepAlive;
    PrintThenParse(l, hs, "");
    assert Flatten(bursts) + "" == Flatten(bursts);
    code, request := Converse(bursts, sizes);
  }

  lemma ParseNothing()
    ensures Parse(START, "") == (NO_REQUEST, START, "")
  {
  }

  lemma {:induction false} FlattenSplit(bursts: seq<string>, i: nat)
    requires i <= |bursts|
    ensures Flatten(bursts) == Flatten(bursts[..i]) + Flatten(bursts[i..])
    ensures i > 0 ==> Flatten(bursts[..i]) == Flatten(bursts[..i - 1]) + bursts[i - 1]
    decreases i
  {
    if i > 0 {
      FlattenSplit(bursts, i - 1);
      FlattenLast(bursts[..i]);
      assert bursts[..i][..i - 1] == bursts[..i - 1];
    } else {
      assert bursts[0..] == bursts;
    }
  }

  lemma {:induction false} FlattenLast(bursts: seq<string>)
    requires bursts != []
    ensures Flatten(bursts) == Flatten(bursts[..|bursts| - 1]) + bursts[|bursts| - 1]
  {
    if |bursts| > 1 {
      FlattenLast(bursts[1..]);
      assert bursts[1..][..|bursts| - 2] == bursts[..|bursts| - 1][1..];
    }
  }
}
