/** Complete reads and writes on streams that work in pieces, and the line reader of the
    control connection. */
module SysUtil {
  import opened Wrappers

  /** writen: the i-th write takes at most 1 + sizes(i) items. */
  method Writen<T>(stream: seq<T>, buf: seq<T>, sizes: nat -> nat) returns (after: seq<T>)
    ensures after == stream + buf
  {
    after := stream;
    var nleft, i := |buf|, 0;
    while nleft > 0
      invariant 0 <= nleft <= |buf| && after == stream + buf[..|buf| - nleft]
    {
      var n := Min(1 + sizes(i), nleft);
      after := after + buf[|buf| - nleft..|buf| - nleft + n];
      nleft := nleft - n;
      i := i + 1;
    }
    assert buf[..|buf|] == buf;
  }

  /** readn: the i-th read delivers at most 1 + sizes(i) items; at the end of the stream the
      result is short. */
  method Readn<T>(stream: seq<T>, count: nat, sizes: nat -> nat) returns (buf: seq<T>, rest: seq<T>)
    ensures var n := Min(count, |stream|);
            buf == stream[..n] && rest == stream[n..]
  {
    var nleft, i := count, 0;
    buf, rest := [], stream;
    while nleft > 0
      invariant 0 <= nleft <= count && |buf| == count - nleft
      invariant stream == buf + rest
    {
      var n := Min(1 + sizes(i), Min(nleft, |rest|));
      if n == 0 {
        return;
      }
      buf, rest := buf + rest[..n], rest[n..];
      nleft := nleft - n;
      i := i + 1;
    }
  }

  // ----- lines

  /** The length of the first line with its newline, if there is one. */
  function LineLength(s: string): (n: Option<nat>)
    ensures n.Some? ==> 0 < n.value <= |s| && s[n.value - 1] == '\n' && '\n' !in s[..n.value - 1]
    ensures n.None? <==> '\n' !in s
  {
    if s == [] then None
    else if s[0] == '\n' then Some(1)
    else
      var n := LineLength(s[1..]);
      if n.None? then None
      else
        assert s[..n.value] == [s[0]] + s[1..][..n.value - 1];
        Some(n.value + 1)
  }

  lemma {:induction false} LineLengthIs(s: string, n: nat)
    requires 0 < n <= |s| && s[n - 1] == '\n' && '\n' !in s[..n - 1]
    ensures LineLength(s) == Some(n)
  {
    if n > 1 {
      assert s[0] == s[..n - 1][0];
      assert s[..n - 1] == [s[0]] + s[1..][..n - 2];
      LineLengthIs(s[1..], n - 1);
    }
  }

  /** The complete lines of a stream, each with its newline. */
  function Lines(s: string): seq<string> {
    var n := LineLength(s);
    if n.None? then [] else [s[..n.value]] + Lines(s[n.value..])
  }

  /** The part after the last newline. */
  function Tail(s: string): string {
    var n := LineLength(s);
    if n.None? then s else Tail(s[n.value..])
  }

  function Concat(lines: seq<string>): string {
    if lines == [] then [] else lines[0] + Concat(lines[1..])
  }

  predicate IsLine(s: string) {
    s != [] && s[|s| - 1] == '\n' && '\n' !in s[..|s| - 1]
  }

  /** The lines and the tail are the stream cut after every newline. */
  lemma {:induction false} LinesSplit(s: string)
    ensures s == Concat(Lines(s)) + Tail(s) && '\n' !in Tail(s)
    ensures forall k :: 0 <= k < |Lines(s)| ==> IsLine(Lines(s)[k])
    decreases |s|
  {
    hide LineLength, IsLine;
    var n := LineLength(s);
    if n.Some? {
      LinesSplit(s[n.value..]);
      FirstLine(s);
      var first, rest := s[..n.value], s[n.value..];
      assert Lines(s) == [first] + Lines(rest) && Tail(s) == Tail(rest);
      hide Lines, Tail;
      PrependLine(first, Lines(rest), Lines(s));
      assert s == first + rest;
    }
  }

  lemma PrependLine(first: string, rest: seq<string>, all: seq<string>)
    requires all == [first] + rest && IsLine(first) && forall k :: 0 <= k < |rest| ==> IsLine(rest[k])
    ensures Concat(all) == first + Concat(rest) && forall k :: 0 <= k < |all| ==> IsLine(all[k])
  {
    hide IsLine;
    assert all[1..] == rest;
  }

  lemma FirstLine(s: string)
    requires LineLength(s).Some?
    ensures IsLine(s[..LineLength(s).value])
  {
    var n := LineLength(s).value;
    assert s[..n][..n - 1] == s[..n - 1];
  }

  /** Any lines, followed by a part without newline, are read back. */
  lemma {:induction false} LinesOfConcat(lines: seq<string>, tail: string)
    requires '\n' !in tail && forall k :: 0 <= k < |lines| ==> IsLine(lines[k])
    ensures Lines(Concat(lines) + tail) == lines && Tail(Concat(lines) + tail) == tail
  {
    if lines == [] {
      assert Concat(lines) + tail == tail;
    } else {
      var s, rest := Concat(lines) + tail, Concat(lines[1..]) + tail;
      assert s == lines[0] + rest;
      assert s[..|lines[0]| - 1] == lines[0][..|lines[0]| - 1];
      LineLengthIs(s, |lines[0]|);
      assert s[|lines[0]|..] == rest && s[..|lines[0]|] == lines[0];
      LinesOfConcat(lines[1..], tail);
    }
  }

  /** What the first n peeks can show together. */
  function Shown(peek: nat -> int, n: nat): nat {
    if n == 0 then 0 else Shown(peek, n - 1) + if peek(n - 1) >= 0 then 1 + peek(n - 1) else 0
  }

  /** The control connection: the bytes that the client sends until it closes. */
  class ControlSocket {
    var data: string

    constructor (data: string)
      ensures this.data == data
    {
      this.data := data;
    }

    /** recv with MSG_PEEK: what has arrived so far, at least one byte until the end. */
    method RecvPeek(len: nat, size: nat) returns (chunk: string)
      ensures chunk == data[..Min(1 + size, Min(len, |data|))]
    {
      return data[..Min(1 + size, Min(len, |data|))];
    }

    /** The first n bytes of `before` have been taken and stored. */
    ghost predicate Taken(before: string, buf: array<char>, n: nat)
      reads this, buf
    {
      n <= buf.Length && n <= |before| && data == before[n..] && buf[..n] == before[..n]
    }

    /** The k-th peek sees at most 1 + peek(k) bytes, and fails when peek(k) is negative; the
        j-th read after it delivers at most 1 + sizes(k)(j) bytes.  A positive answer means
        that exactly the first line was taken and stored; without a failing peek it comes
        exactly when the first line fits.  `len` is the number of bytes taken; what the first
        `peeks` peeks have shown has no newline and was taken.  The answer only counts the
        bytes behind that, so it is the length of the line exactly when the first peek could
        see all of it. */
    method Readline(buf: array<char>, maxline: nat, peek: nat -> int, sizes: nat -> nat -> nat)
      returns (ret: int, ghost len: nat, ghost peeks: nat)
      requires maxline <= buf.Length
      modifies this, buf
      ensures len <= maxline && Taken(old(data), buf, len)
      ensures forall k :: 0 <= k < peeks ==> peek(k) >= 0
      ensures ret < 0 <==> peek(peeks) < 0
      ensures var most := Min(maxline, |old(data)|);
              if ret > 0 then Min(Shown(peek, peeks), most) == len - ret && len <= Min(Shown(peek, peeks + 1), most)
              else len == Min(Shown(peek, peeks), most) && (ret == 0 ==> len == most)
      ensures if ret > 0 then LineLength(old(data)) == Some(len) else '\n' !in old(data)[..len]
      ensures ret > 0 ==> (ret == len <==> len <= 1 + peek(0))
      ensures (forall k :: peek(k) >= 0) ==>
                (ret > 0 <==> LineLength(old(data)).Some? && LineLength(old(data)).value <= maxline)
    {
      hide LineLength, Shown;
      ghost var most := Min(maxline, |data|);
      var bufp, nleft, k := 0, maxline, 0;
      ShownNext(peek, 0, most);
      while true
        invariant 0 <= bufp && 0 <= nleft && bufp + nleft == maxline && Taken(old(data), buf, bufp)
        invariant '\n' !in old(data)[..bufp]
        invariant bufp == Min(Shown(peek, k), most) && forall j :: 0 <= j < k ==> peek(j) >= 0
        decreases nleft
      {
        if peek(k) < 0 {
          return -1, bufp, k;
        }
        ShownNext(peek, k, most);
        var i, n := PeekAndTake(old(data), buf, bufp, nleft, peek(k), sizes(k));
        if n == 0 {
          return 0, bufp, k;
        }
        assert bufp + n == Min(Shown(peek, k + 1), most);
        if i < n {
          hide Taken, Min;
          FirstPeek(peek, k, most, bufp + i + 1);
          return i + 1, bufp + i + 1, k;
        }
        nleft := nleft - n;
        bufp := bufp + n;
        k := k + 1;
      }
    }

    /** One peek of n bytes, with a newline at i if i < n, and the read of what is wanted of it. */
    method PeekAndTake(ghost before: string, buf: array<char>, bufp: nat, nleft: nat, size: nat, sizes: nat -> nat)
      returns (i: nat, n: nat)
      requires Taken(before, buf, bufp) && bufp + nleft <= buf.Length && '\n' !in before[..bufp]
      modifies this, buf
      ensures n == Min(1 + size, Min(nleft, |before| - bufp)) && i <= n
      ensures i < n ==> LineLength(before) == Some(bufp + i + 1) && Taken(before, buf, bufp + i + 1)
      ensures i == n ==> Taken(before, buf, bufp + n) && '\n' !in before[..bufp + n]
    {
      hide LineLength;
      var chunk := RecvPeek(nleft, size);
      n := |chunk|;
      Copy(buf, bufp, chunk);
      if chunk == "" {
        return 0, 0;
      }
      i := FindNewline(buf, bufp, chunk);
      if i < n {
        LineFound(before, bufp, i);
        hide Taken;
        Take(before, buf, bufp, i + 1, sizes);
      } else {
        NoLineYet(before, bufp, n);
        hide Taken;
        Take(before, buf, bufp, n, sizes);
      }
    }

    lemma ShownNext(peek: nat -> int, k: nat, most: nat)
      ensures Shown(peek, 0) == 0
      ensures var before, after := Min(Shown(peek, k), most), Min(Shown(peek, k + 1), most);
              && before <= most
              && (peek(k) >= 0 ==> after == before + Min(1 + peek(k), most - before))
    {
    }

    /** A line found behind the first k peeks is seen by the first one only if k is 0. */
    lemma FirstPeek(peek: nat -> int, k: nat, most: nat, len: nat)
      requires forall j :: 0 <= j <= k ==> peek(j) >= 0
      requires Min(Shown(peek, k), most) < len <= Min(Shown(peek, k + 1), most)
      ensures Min(Shown(peek, k), most) == 0 <==> len <= 1 + peek(0)
    {
      if k > 0 {
        ShownGrows(peek, k);
      }
      assert Shown(peek, 1) == Shown(peek, 0) + 1 + peek(0);
    }

    lemma {:induction false} ShownGrows(peek: nat -> int, k: nat)
      requires k > 0 && forall j :: 0 <= j < k ==> peek(j) >= 0
      ensures Shown(peek, k) >= 1 + peek(0)
    {
      if k > 1 {
        ShownGrows(peek, k - 1);
      } else {
        assert Shown(peek, 1) == Shown(peek, 0) + 1 + peek(0);
      }
    }

    method FindNewline(buf: array<char>, at: nat, chunk: string) returns (i: nat)
      requires at + |chunk| <= buf.Length && buf[at..at + |chunk|] == chunk
      ensures i <= |chunk| && '\n' !in chunk[..i] && (i < |chunk| ==> chunk[i] == '\n')
    {
      i := 0;
      while i < |chunk|
        invariant i <= |chunk| && '\n' !in chunk[..i]
      {
        assert buf[at + i] == chunk[i];
        if buf[at + i] == '\n' {
          return;
        }
        i := i + 1;
      }
    }

    /** readn into the buffer. */
    method Take(ghost before: string, buf: array<char>, at: nat, count: nat, sizes: nat -> nat)
      requires at + count <= buf.Length && count <= |data| && Taken(before, buf, at)
      modifies this, buf
      ensures Taken(before, buf, at + count)
    {
      var piece, rest := Readn(data, count, sizes);
      Copy(buf, at, piece);
      assert buf[..at + count] == buf[..at] + buf[at..at + count];
      assert before[at..][count..] == before[at + count..];
      assert before[..at] + before[at..][..count] == before[..at + count];
      data := rest;
    }

    lemma NoLineYet(s: string, p: nat, n: nat)
      requires p + n <= |s| && '\n' !in s[..p] && '\n' !in s[p..][..n]
      ensures '\n' !in s[..p + n]
    {
      assert s[..p + n] == s[..p] + s[p..][..n];
    }

    lemma LineFound(s: string, p: nat, i: nat)
      requires p + i < |s| && s[p + i] == '\n' && '\n' !in s[..p] && '\n' !in s[p..][..i]
      ensures LineLength(s) == Some(p + i + 1)
    {
      hide LineLength;
      assert s[..p + i] == s[..p] + s[p..][..i];
      LineLengthIs(s, p + i + 1);
    }

    method Copy(buf: array<char>, at: nat, chunk: string)
      requires at + |chunk| <= buf.Length
      modifies buf
      ensures buf[..at] == old(buf[..at]) && buf[at..at + |chunk|] == chunk
    {
      forall k | 0 <= k < |chunk| {
        buf[at + k] := chunk[k];
      }
    }
  }

  lemma SameLine(s: string, t: string, n: nat)
    requires LineLength(s) == Some(n) && n <= |t| && t[..n] == s[..n]
    ensures LineLength(t) == Some(n)
  {
    hide LineLength;
    assert t[..n][n - 1] == s[n - 1];
    assert t[..n - 1] == t[..n][..n - 1] == s[..n - 1];
    LineLengthIs(t, n);
  }

  /** The command loop: reads lines into one buffer of maxline bytes until there is none.  For
      every pattern of peeks and short reads these are the lines of the stream, up to the
      first that does not fit. */
  method ReadCommands(data: string, maxline: nat, peeks: nat -> nat -> int, sizes: nat -> nat -> nat -> nat)
    returns (lines: seq<string>)
    ensures lines <= Lines(data)
    ensures (forall i, k :: peeks(i)(k) >= 0) ==>
              (lines == Lines(data) <==> forall k :: 0 <= k < |Lines(data)| ==> |Lines(data)[k]| <= maxline)
  {
    hide LineLength, Lines;
    var socket := new ControlSocket(data);
    var buf := new char[maxline];
    lines := [];
    var i := 0;
    while true
      invariant fresh(socket) && fresh(buf)
      invariant Lines(data) == lines + Lines(socket.data)
      invariant forall k :: 0 <= k < |lines| ==> |lines[k]| <= maxline
      decreases |socket.data|
    {
      ghost var before := socket.data;
      var ret, n, _ := socket.Readline(buf, maxline, peeks(i), sizes(i));
      if ret <= 0 {
        NoMoreLines(lines, before, maxline);
        return;
      }
      SameLine(before, buf[..], n);
      var line := buf[..LineLength(buf[..]).value];
      assert line == before[..n];
      OneMoreLine(before, n);
      assert lines + [line] + Lines(before[n..]) == lines + ([line] + Lines(before[n..]));
      lines := lines + [line];
      i := i + 1;
    }
  }

  lemma OneMoreLine(s: string, n: nat)
    requires LineLength(s) == Some(n)
    ensures n <= |s| && Lines(s) == [s[..n]] + Lines(s[n..])
  {
  }

  /** There is no further line, or the next one does not fit. */
  lemma NoMoreLines(lines: seq<string>, rest: string, maxline: nat)
    requires forall k :: 0 <= k < |lines| ==> |lines[k]| <= maxline
    ensures var all := lines + Lines(rest);
            (LineLength(rest).Some? ==> LineLength(rest).value > maxline) ==>
              (lines == all <==> forall k :: 0 <= k < |all| ==> |all[k]| <= maxline)
  {
    var n := LineLength(rest);
    if n.Some? {
      OneMoreLine(rest, n.value);
      assert (lines + Lines(rest))[|lines|] == rest[..n.value];
    }
  }
}
