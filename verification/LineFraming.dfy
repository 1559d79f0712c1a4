/** Splitting a growing receive buffer into lines (section 2.2 of RFC 9112).  The same
    scanner is used by both HTTP servers. */
module LineFraming {
  import opened CStrings

  const CRLF: string := "\r\n"
  const LINE_ENDS: set<char> := {'\r', '\n'}

  datatype LineStatus = LINE_OK | LINE_BAD | LINE_OPEN

  /** What the front of a byte stream is: no complete line yet, an ill-terminated line, or
      a line `text` followed by `rest`. */
  datatype Front = Open | Bad | Line(text: string, rest: string)

  function FrontLine(s: string): (f: Front)
    ensures f.Line? ==> |f.rest| < |s|
  {
    var k := IndexOfAny(s, 0, LINE_ENDS);
    if k == |s| then Open
    else if s[k] == '\n' then Bad
    else if k + 1 == |s| then Open
    else if s[k + 1] == '\n' then Line(s[..k], s[k + 2..])
    else Bad
  }

  /** A line is framed exactly when the stream starts with a text free of CR and LF and a
      CRLF: no other terminator is accepted. */
  lemma LineIffTerminated(s: string, text: string, rest: string)
    ensures FrontLine(s) == Line(text, rest)
       <==> s == text + CRLF + rest && '\r' !in text && '\n' !in text
  {
    var k := IndexOfAny(s, 0, LINE_ENDS);
    if FrontLine(s) == Line(text, rest) {
      assert s == s[..k] + [s[k], s[k + 1]] + s[k + 2..];
    }
    if s == text + CRLF + rest && '\r' !in text && '\n' !in text {
      assert s[|text|] == '\r' && s[|text| + 1] == '\n';
      assert forall i :: 0 <= i < |text| ==> s[i] == text[i];
      assert k == |text|;
      assert s[..k] == text && s[k + 2..] == rest;
    }
  }

  ghost predicate NoLineEnd(s: string) {
    '\r' !in s && '\n' !in s
  }

  /** No line end yet, except perhaps the first half of one. */
  ghost predicate Unterminated(s: string) {
    '\n' !in s && forall k :: 0 <= k < |s| - 1 ==> s[k] != '\r'
  }

  /** The first line end is a bare LF, or a CR that something else follows. */
  ghost predicate Misplaced(s: string) {
    exists text: string, rest: string :: EndsBadly(s, text, rest)
  }

  ghost predicate EndsBadly(s: string, text: string, rest: string) {
    && NoLineEnd(text)
    && (s == text + "\n" + rest || (s == text + "\r" + rest && rest != "" && rest[0] != '\n'))
  }

  /** The scanner waits exactly while there is no line end, and rejects exactly a misplaced one. */
  lemma OpenOrBadIff(s: string)
    ensures FrontLine(s) == Open <==> Unterminated(s)
    ensures FrontLine(s) == Bad <==> Misplaced(s)
  {
    OpenIff(s);
    if FrontLine(s) == Bad {
      BadIsMisplaced(s);
    }
    hide FrontLine, Unterminated;
    forall text: string, rest: string | EndsBadly(s, text, rest) ensures FrontLine(s) == Bad {
      MisplacedIsBad(s, text, rest);
    }
  }

  lemma OpenIff(s: string)
    ensures FrontLine(s) == Open <==> Unterminated(s)
  {
    var k := IndexOfAny(s, 0, LINE_ENDS);
    assert forall i :: 0 <= i < k ==> s[i] != '\r' && s[i] != '\n';
    if k < |s| {
      assert s[k] in s && (s[k] == '\r' || s[k] == '\n');
    }
    if FrontLine(s) == Open {
      assert forall i :: 0 <= i < |s| ==> s[i] != '\n';
    }
  }

  lemma BadIsMisplaced(s: string)
    requires FrontLine(s) == Bad
    ensures Misplaced(s)
  {
    var k := IndexOfAny(s, 0, LINE_ENDS);
    hide IndexOfAny;
    assert s == s[..k] + [s[k]] + s[k + 1..];
    IsMisplaced(s, s[..k], s[k], s[k + 1..]);
  }

  lemma IsMisplaced(s: string, text: string, c: char, rest: string)
    requires s == text + [c] + rest && NoLineEnd(text)
    requires c == '\n' || (c == '\r' && rest != "" && rest[0] != '\n')
    ensures Misplaced(s)
  {
    assert [c] == "\n" || [c] == "\r";
    assert EndsBadly(s, text, rest);
  }

  lemma MisplacedIsBad(s: string, text: string, rest: string)
    requires EndsBadly(s, text, rest)
    ensures FrontLine(s) == Bad
  {
    assert s[|text|] in LINE_ENDS && forall i :: 0 <= i < |text| ==> s[i] == text[i];
    assert IndexOfAny(s, 0, LINE_ENDS) == |text|;
    assert s[|text|] == '\r' ==> s[|text| + 1] == rest[0];
  }

  /** More input never changes a decision already taken. */
  lemma FrontStable(s: string, t: string)
    ensures FrontLine(s) == Bad ==> FrontLine(s + t) == Bad
    ensures FrontLine(s).Line? ==> FrontLine(s + t) == Line(FrontLine(s).text, FrontLine(s).rest + t)
  {
    var k := IndexOfAny(s, 0, LINE_ENDS);
    if k < |s| {
      assert (s + t)[k] == s[k];
      assert forall i :: 0 <= i < k ==> (s + t)[i] == s[i];
      assert IndexOfAny(s + t, 0, LINE_ENDS) == k;
      if FrontLine(s).Line? {
        assert (s + t)[..k] == s[..k];
        assert (s + t)[k + 2..] == s[k + 2..] + t;
      }
    }
  }

  /** Scans for a line end from `checked0`, replacing the terminator by two NULs.  The
      branch for a line feed whose carriage return was scanned in an earlier call is part
      of the code; the connection invariants show that it is never taken. */
  method ParseLine(buffer: array<char>, checked0: nat, read: nat) returns (status: LineStatus, checked: nat)
    requires checked0 <= read <= buffer.Length
    modifies buffer
    ensures var b := old(buffer[..]);
            var k := IndexOfAny(b[..read], checked0, LINE_ENDS);
            if k == read then
              status == LINE_OPEN && checked == read && buffer[..] == b
            else if b[k] == '\r' && k + 1 == read then
              status == LINE_OPEN && checked == k && buffer[..] == b
            else if b[k] == '\r' && b[k + 1] == '\n' then
              status == LINE_OK && checked == k + 2 && buffer[..] == b[k := NUL][k + 1 := NUL]
            else if b[k] == '\n' && k > 1 && b[k - 1] == '\r' then
              status == LINE_OK && checked == k + 1 && buffer[..] == b[k - 1 := NUL][k := NUL]
            else
              status == LINE_BAD && checked == k && buffer[..] == b
  {
    checked := checked0;
    ghost var b := buffer[..];
    ghost var k := IndexOfAny(b[..read], checked0, LINE_ENDS);
    while checked < read
      invariant checked0 <= checked <= k
      invariant buffer[..] == b
    {
      var temp := buffer[checked];
      assert b[..read][checked] == temp;
      if temp == '\r' {
        if checked + 1 == read {
          return LINE_OPEN, checked;
        } else if buffer[checked + 1] == '\n' {
          buffer[checked] := NUL;
          checked := checked + 1;
          buffer[checked] := NUL;
          checked := checked + 1;
          return LINE_OK, checked;
        }
        return LINE_BAD, checked;
      } else if temp == '\n' {
        if checked > 1 && buffer[checked - 1] == '\r' {
          buffer[checked - 1] := NUL;
          buffer[checked] := NUL;
          checked := checked + 1;
          return LINE_OK, checked;
        }
        return LINE_BAD, checked;
      }
      checked := checked + 1;
    }
    return LINE_OPEN, checked;
  }

  /** The scanner's state between calls: the current line starts at `start`, the bytes from
      there to `checked` hold no line end, and the line before was ended by a NUL. */
  ghost predicate Scanned(b: seq<char>, start: nat, checked: nat, read: nat) {
    && start <= checked <= read <= |b|
    && (forall k :: start <= k < checked ==> b[k] !in LINE_ENDS)
    && (start > 0 ==> b[start - 1] == NUL)
  }

  /** Between calls a line feed never follows a carriage return of an earlier call, so the
      second accepting branch of ParseLine is never taken. */
  lemma CarriageReturnNeverSplit(b: seq<char>, start: nat, checked: nat, read: nat)
    requires Scanned(b, start, checked, read)
    ensures var k := IndexOfAny(b[..read], checked, LINE_ENDS);
            k < read && b[k] == '\n' ==> !(k > 1 && b[k - 1] == '\r')
  {
    var k := IndexOfAny(b[..read], checked, LINE_ENDS);
    if checked < k < read {
      assert b[..read][k - 1] == b[k - 1];
    }
  }

  lemma ScanFromStart(b: seq<char>, start: nat, checked: nat, read: nat)
    requires Scanned(b, start, checked, read)
    ensures IndexOfAny(b[start..read], 0, LINE_ENDS) == IndexOfAny(b[..read], checked, LINE_ENDS) - start
  {
    var k := IndexOfAny(b[..read], checked, LINE_ENDS);
    var s := b[start..read];
    forall i | 0 <= i < k - start ensures s[i] !in LINE_ENDS {
      assert i + start >= checked ==> b[..read][i + start] == s[i];
    }
    assert k < read ==> s[k - start] == b[..read][k];
  }

  /** The resumed scan finds the front line of all the pending bytes. */
  lemma ScanIsFrontLine(b: seq<char>, start: nat, checked: nat, read: nat)
    requires Scanned(b, start, checked, read)
    ensures var k := IndexOfAny(b[..read], checked, LINE_ENDS);
            FrontLine(b[start..read]) ==
              if k == read || (b[k] == '\r' && k + 1 == read) then Open
              else if b[k] == '\r' && b[k + 1] == '\n' then Line(b[start..k], b[k + 2..read])
              else Bad
  {
    ScanFromStart(b, start, checked, read);
    var k := IndexOfAny(b[..read], checked, LINE_ENDS);
    var s := b[start..read];
    assert k < read ==> s[..k - start] == b[start..k];
    assert k + 1 < read ==> s[k - start + 2..] == b[k + 2..read];
  }

  /** Changes before the current line do not disturb the scanner. */
  lemma ScannedAgrees(b: seq<char>, c: seq<char>, start: nat, checked: nat, read: nat, from: nat)
    requires Scanned(b, start, checked, read) && |c| == |b|
    requires from < start && forall k :: from <= k < |b| ==> c[k] == b[k]
    ensures Scanned(c, start, checked, read)
    ensures c[start..read] == b[start..read]
  {
  }

  /** Ending the line at `k` with NULs leaves it as a C string, and the rest untouched. */
  lemma LineTerminated(b: seq<char>, start: nat, k: nat, read: nat)
    requires start <= k && k + 2 <= read <= |b|
    ensures var c := b[k := NUL][k + 1 := NUL];
            && Scanned(c, k + 2, k + 2, read)
            && Holds(c, start, CutAtNul(b[start..k]))
            && c[k + 2..read] == b[k + 2..read]
  {
    var c := b[k := NUL][k + 1 := NUL];
    var text := b[start..k];
    var s := CutAtNul(text);
    assert c[start..start + |s|] == text[..|s|];
    assert |s| < |text| ==> c[start + |s|] == text[|s|];
  }

  /** Scans for the current line and steps past it.  The line is left in the buffer as a
      C string at its old start. */
  method NextLine(buffer: array<char>, start0: nat, checked0: nat, read: nat)
    returns (status: LineStatus, start: nat, checked: nat)
    requires Scanned(buffer[..], start0, checked0, read)
    modifies buffer
    ensures Scanned(buffer[..], start, checked, read)
    ensures match FrontLine(old(buffer[..])[start0..read])
            case Open => status == LINE_OPEN && start == start0 && buffer[..] == old(buffer[..])
            case Bad => status == LINE_BAD && start == start0 && buffer[..] == old(buffer[..])
            case Line(text, rest) =>
              && status == LINE_OK && start == checked == start0 + |text| + 2
              && Holds(buffer[..], start0, CutAtNul(text))
              && buffer[..][start..read] == rest
    ensures forall k :: 0 <= k < start0 ==> buffer[k] == old(buffer[k])
  {
    ghost var b := buffer[..];
    ghost var k := IndexOfAny(b[..read], checked0, LINE_ENDS);
    ScanIsFrontLine(b, start0, checked0, read);
    CarriageReturnNeverSplit(b, start0, checked0, read);
    status, checked := ParseLine(buffer, checked0, read);
    if status == LINE_OK {
      start := checked;
      LineTerminated(b, start0, k, read);
    } else {
      start := start0;
      StillScanned(b, start0, checked0, read);
    }
  }

  lemma StillScanned(b: seq<char>, start: nat, checked: nat, read: nat)
    requires Scanned(b, start, checked, read)
    ensures Scanned(b, start, IndexOfAny(b[..read], checked, LINE_ENDS), read)
  {
    var k := IndexOfAny(b[..read], checked, LINE_ENDS);
    forall i | start <= i < k ensures b[i] !in LINE_ENDS {
      assert i >= checked ==> b[..read][i] == b[i];
    }
  }

  /** recv: `data` is stored behind the `read` bytes already in the buffer. */
  method Recv(buffer: array<char>, start: nat, checked: nat, read: nat, data: string)
    requires Scanned(buffer[..], start, checked, read) && read + |data| <= buffer.Length
    modifies buffer
    ensures forall k :: 0 <= k < read ==> buffer[k] == old(buffer[k])
    ensures Scanned(buffer[..], start, checked, read + |data|)
    ensures buffer[..][start..read + |data|] == old(buffer[..])[start..read] + data
  {
    forall i | 0 <= i < |data| {
      buffer[read + i] := data[i];
    }
    assert forall k :: 0 <= k < read ==> buffer[..][k] == old(buffer[..])[k];
    assert buffer[..][start..read] == old(buffer[..])[start..read];
    assert buffer[..][read..read + |data|] == data;
  }
}
