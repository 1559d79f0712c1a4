/** The HTTP request line (section 3 of RFC 9112), as both servers parse it. */
module RequestLine {
  import opened Wrappers
  import opened CStrings

  const BLANKS: set<char> := {' ', '\t'}
  const SCHEME: string := "http://"
  const VERSION: string := "HTTP/1.1"

  ghost predicate Blank(s: string) {
    s != "" && forall c :: c in s ==> c in BLANKS
  }

  ghost predicate Word(s: string) {
    forall c :: c in s ==> c !in BLANKS
  }

  /** The grammar of the accepted request targets: a path, or a path behind "http://" and
      an authority. */
  ghost predicate IsTarget(target: string, path: string) {
    && path != "" && path[0] == '/'
    && (target == path
        || exists scheme: string, authority: string ::
             && target == scheme + authority + path
             && EqualNoCase(scheme, SCHEME) && '/' !in authority)
  }

  /** `s` is `word`, then blanks, then `rest`, which does not start with a blank. */
  ghost predicate StartsWithWord(s: string, word: string, blanks: string, rest: string) {
    && s == word + blanks + rest
    && Word(word) && Blank(blanks)
    && (rest != "" ==> rest[0] !in BLANKS)
  }

  /** The grammar of the accepted request lines: method, target and version, separated by
      blanks. */
  ghost predicate IsRequestLine(line: string, path: string) {
    exists method_: string, b1: string, tail: string, target: string, b2: string, version: string ::
      && StartsWithWord(line, method_, b1, tail)
      && StartsWithWord(tail, target, b2, version)
      && EqualNoCase(method_, "GET") && EqualNoCase(version, VERSION)
      && IsTarget(target, path)
  }

  function TargetPath(target: string): Option<string> {
    if PrefixNoCase(target, SCHEME) then
      var i := IndexOfAny(target[|SCHEME|..], 0, {'/'});
      if i == |target| - |SCHEME| then None else Some(target[|SCHEME| + i..])
    else if target != "" && target[0] == '/' then Some(target)
    else None
  }

  /** The text before the first blank, and what follows once blanks are skipped. */
  function CutWord(s: string): (r: Option<(string, string)>)
    ensures r.Some? ==> |r.value.0| < |s|
  {
    var i := IndexOfAny(s, 0, BLANKS);
    if i == |s| then None else
    var tail := s[i + 1..];
    Some((s[..i], tail[Span(tail, 0, BLANKS)..]))
  }

  /** What the scanner extracts from a request line: the path of the target, if the line
      is accepted. */
  function RequestPath(line: string): Option<string> {
    match CutWord(line)
    case None => None
    case Some((method_, tail)) =>
      if !EqualNoCase(method_, "GET") then None else
      match CutWord(tail)
      case None => None
      case Some((target, version)) =>
        if !EqualNoCase(version, VERSION) then None else TargetPath(target)
  }

  lemma TargetPathSound(target: string, path: string)
    requires TargetPath(target) == Some(path)
    ensures IsTarget(target, path)
  {
    if PrefixNoCase(target, SCHEME) {
      PrefixNoCaseSplit(target, SCHEME);
      var tail := target[|SCHEME|..];
      var i := IndexOfAny(tail, 0, {'/'});
      assert path[0] == tail[i];
      assert target == target[..|SCHEME|] + tail[..i] + path;
    }
  }

  lemma TargetPathComplete(target: string, path: string)
    requires IsTarget(target, path)
    ensures TargetPath(target) == Some(path)
  {
    if target != path {
      var scheme: string, authority: string :|
        target == scheme + authority + path && EqualNoCase(scheme, SCHEME) && '/' !in authority;
      EqualNoCaseLength(scheme, SCHEME);
      assert target[..|SCHEME|] == scheme;
      PrefixNoCaseSplit(target, SCHEME);
      var tail := target[|SCHEME|..];
      assert tail == authority + path;
      assert tail[|authority|] == '/' && forall k :: 0 <= k < |authority| ==> tail[k] == authority[k];
      assert IndexOfAny(tail, 0, {'/'}) == |authority|;
      assert target[|SCHEME| + |authority|..] == path;
    }
  }

  lemma CutWordSound(s: string)
    requires CutWord(s).Some?
    ensures exists blanks :: StartsWithWord(s, CutWord(s).value.0, blanks, CutWord(s).value.1)
  {
    var i := IndexOfAny(s, 0, BLANKS);
    var tail := s[i + 1..];
    var j := Span(tail, 0, BLANKS);
    var blanks := [s[i]] + tail[..j];
    assert s == s[..i] + blanks + tail[j..];
    assert StartsWithWord(s, s[..i], blanks, tail[j..]);
  }

  lemma CutWordComplete(s: string, word: string, blanks: string, rest: string)
    requires StartsWithWord(s, word, blanks, rest)
    ensures CutWord(s) == Some((word, rest))
  {
    assert forall k :: 0 <= k < |word| ==> s[k] == word[k];
    assert s[|word|] == blanks[0];
    assert IndexOfAny(s, 0, BLANKS) == |word|;
    var tail := s[|word| + 1..];
    assert tail == blanks[1..] + rest;
    assert forall k :: 0 <= k < |blanks| - 1 ==> tail[k] == blanks[k + 1];
    assert rest != "" ==> tail[|blanks| - 1] == rest[0];
    var j := Span(tail, 0, BLANKS);
    assert j == |blanks| - 1;
    assert tail[j..] == rest && s[..|word|] == word;
  }

  /** The pointer walk accepts exactly the grammar, and extracts its path. */
  lemma RequestPathIffGrammar(line: string, path: string)
    ensures RequestPath(line) == Some(path) <==> IsRequestLine(line, path)
  {
    if RequestPath(line) == Some(path) {
      var (method_, tail) := CutWord(line).value;
      var (target, version) := CutWord(tail).value;
      CutWordSound(line);
      CutWordSound(tail);
      TargetPathSound(target, path);
    }
    if IsRequestLine(line, path) {
      var method_: string, b1: string, tail: string, target: string, b2: string, version: string :|
        && StartsWithWord(line, method_, b1, tail)
        && StartsWithWord(tail, target, b2, version)
        && EqualNoCase(method_, "GET") && EqualNoCase(version, VERSION)
        && IsTarget(target, path);
      CutWordComplete(line, method_, b1, tail);
      CutWordComplete(tail, target, b2, version);
      TargetPathComplete(target, path);
    }
  }

  /** A line of the grammar, up to its first NUL. */
  ghost predicate IsAccepted(line: string) {
    exists path :: IsRequestLine(CutAtNul(line), path)
  }

  lemma AcceptedLine(line: string)
    ensures IsAccepted(line) <==> RequestPath(CutAtNul(line)).Some?
  {
    var p := RequestPath(CutAtNul(line));
    if p.Some? { RequestPathIffGrammar(CutAtNul(line), p.value); }
    forall path | IsRequestLine(CutAtNul(line), path) ensures p.Some? {
      RequestPathIffGrammar(CutAtNul(line), path);
    }
  }

  /** A request with a path as its target is accepted in any case and with any blanks. */
  lemma AcceptedInAnyCase(method_: string, b1: string, path: string, b2: string, version: string)
    requires SameWord(method_, "GET") && SameWord(version, "HTTP/1.1") && Blank(b1) && Blank(b2)
    requires path != "" && path[0] == '/' && Word(path)
    ensures RequestPath(method_ + b1 + path + b2 + version) == Some(path)
  {
    hide RequestPath, EqualNoCase;
    var line, tail := method_ + b1 + path + b2 + version, path + b2 + version;
    assert line == method_ + b1 + tail;
    forall i | 0 <= i < |method_| ensures method_[i] !in BLANKS {
      assert SameButCase(method_[i], "GET"[i]);
    }
    assert StartsWithWord(line, method_, b1, tail);
    assert SameButCase(version[0], 'H');
    assert StartsWithWord(tail, path, b2, version);
    EqualNoCaseIff(method_, "GET");
    EqualNoCaseIff(version, VERSION);
    RequestPathIffGrammar(line, path);
  }

  /** Ends the word at `p` with a NUL and returns the pointer to what follows its blanks. */
  method TerminateWord(buffer: array<char>, p: nat, ghost s: string) returns (next: Option<nat>)
    requires Holds(buffer[..], p, s)
    modifies buffer
    ensures next.Some? <==> CutWord(s).Some?
    ensures forall k :: 0 <= k < p || p + |s| <= k < buffer.Length ==> buffer[k] == old(buffer[k])
    ensures next.Some? ==>
              && Holds(buffer[..], p, CutWord(s).value.0)
              && p + |CutWord(s).value.0| < next.value
              && next.value + |CutWord(s).value.1| == p + |s|
              && Holds(buffer[..], next.value, CutWord(s).value.1)
  {
    hide IndexOfAny, Span;
    HoldsPbrk(buffer[..], p, s, BLANKS);
    var blank := StrPbrk(buffer[..], p, BLANKS);
    if blank.None? {
      return None;
    }
    ghost var i := blank.value - p;
    HoldsSplit(buffer[..], p, s, i);
    buffer[blank.value] := NUL;
    assert buffer[..] == old(buffer[..])[blank.value := NUL];
    HoldsSpan(buffer[..], p + i + 1, s[i + 1..], 0, BLANKS);
    HoldsSuffix(buffer[..], p + i + 1, s[i + 1..], Span(s[i + 1..], 0, BLANKS));
    next := Some(Span(buffer[..], blank.value + 1, BLANKS));
  }

  /** Advances the pointer at a target to its path. */
  method FindPath(buffer: array<char>, target: nat, ghost s: string) returns (url: Option<nat>)
    requires Holds(buffer[..], target, s)
    ensures url.Some? <==> TargetPath(s).Some?
    ensures url.Some? ==> target <= url.value && url.value + |TargetPath(s).value| == target + |s|
    ensures url.Some? ==> Holds(buffer[..], url.value, TargetPath(s).value)
  {
    hide IndexOfAny, CStr, PrefixNoCase;
    HoldsIsCStr(buffer[..], target, s);
    url := Some(target);
    if PrefixNoCase(CStr(buffer[..], target), SCHEME) {
      url := SkipAuthority(buffer, target, s);
    }
    if url.None? || buffer[url.value] != '/' {
      return None;
    }
  }

  /** A pointer to the first slash behind the scheme. */
  method SkipAuthority(buffer: array<char>, target: nat, ghost s: string) returns (url: Option<nat>)
    requires Holds(buffer[..], target, s) && |SCHEME| <= |s|
    ensures var i := IndexOfAny(s[|SCHEME|..], 0, {'/'});
            && (url.Some? <==> i < |s| - |SCHEME|)
            && (url.Some? ==> url == Some(target + |SCHEME| + i) && Holds(buffer[..], url.value, s[|SCHEME| + i..])
                              && buffer[url.value] == '/')
  {
    ghost var tail := s[|SCHEME|..];
    ghost var i := IndexOfAny(tail, 0, {'/'});
    HoldsSuffix(buffer[..], target, s, |SCHEME|);
    HoldsPbrk(buffer[..], target + |SCHEME|, tail, {'/'});
    HoldsSuffix(buffer[..], target + |SCHEME|, tail, i);
    assert tail[i..] == s[|SCHEME| + i..];
    hide IndexOfAny, CStr;
    url := StrPbrk(buffer[..], target + |SCHEME|, {'/'});
  }

  /** The request-line scanner: splits the line at `text` into words in place, checks them,
      and returns the pointer to the path. */
  method ParseRequestLine(buffer: array<char>, text: nat, ghost line: string) returns (url: Option<nat>)
    requires Holds(buffer[..], text, line)
    modifies buffer
    ensures url.Some? <==> RequestPath(line).Some?
    ensures url.Some? ==> text <= url.value && Holds(buffer[..], url.value, RequestPath(line).value)
    ensures url.Some? ==> url.value + |RequestPath(line).value| < text + |line|
    ensures forall k :: 0 <= k < text || text + |line| <= k < buffer.Length ==> buffer[k] == old(buffer[k])
  {
    url := TerminateWord(buffer, text, line);
    if url.None? {
      return;
    }
    ghost var (method_, tail) := CutWord(line).value;
    HoldsIsCStr(buffer[..], text, method_);
    if !EqualNoCase(CStr(buffer[..], text), "GET") {
      return None;
    }
    var version := TerminateWord(buffer, url.value, tail);
    if version.None? {
      return None;
    }
    ghost var (target, last) := CutWord(tail).value;
    HoldsIsCStr(buffer[..], version.value, last);
    if !EqualNoCase(CStr(buffer[..], version.value), VERSION) {
      return None;
    }
    url := FindPath(buffer, url.value, target);
  }
}
