/** The C library's string functions, on sequences of characters.  A C string inside a
    buffer runs from a pointer to the first NUL at or after it. */
module CStrings {
  import opened Wrappers

  const NUL: char := '\0'

  /** The first position at or after `p` whose character is one of `accept`, or |b|. */
  function IndexOfAny(b: seq<char>, p: nat, accept: set<char>): (r: nat)
    requires p <= |b|
    ensures p <= r <= |b|
    ensures forall k :: p <= k < r ==> b[k] !in accept
    ensures r < |b| ==> b[r] in accept
    decreases |b| - p
  {
    if p == |b| || b[p] in accept then p else IndexOfAny(b, p + 1, accept)
  }

  /** The first position at or after `p` whose character is not one of `accept`, or |b|. */
  function Span(b: seq<char>, p: nat, accept: set<char>): (r: nat)
    requires p <= |b|
    ensures p <= r <= |b|
    ensures forall k :: p <= k < r ==> b[k] in accept
    ensures r < |b| ==> b[r] !in accept
    decreases |b| - p
  {
    if p == |b| || b[p] !in accept then p else Span(b, p + 1, accept)
  }

  /** The text before the first NUL. */
  function CutAtNul(s: string): string {
    s[..IndexOfAny(s, 0, {NUL})]
  }

  /** The C string that pointer `p` denotes. */
  function CStr(b: seq<char>, p: nat): string
    requires p <= |b|
  {
    b[p..IndexOfAny(b, p, {NUL})]
  }

  /** strpbrk: a pointer to the first character of the C string at `p` that is in `accept`. */
  function StrPbrk(b: seq<char>, p: nat, accept: set<char>): Option<nat>
    requires p <= |b|
  {
    var i := IndexOfAny(b, p, accept + {NUL});
    if i < |b| && b[i] in accept then Some(i) else None
  }

  /** `b` stores `s`, with its terminating NUL, at `p`. */
  ghost predicate Holds(b: seq<char>, p: nat, s: string) {
    && p + |s| < |b|
    && (forall k :: 0 <= k < |s| ==> b[p + k] == s[k] != NUL)
    && b[p + |s|] == NUL
  }

  lemma HoldsIsCStr(b: seq<char>, p: nat, s: string)
    requires Holds(b, p, s)
    ensures CStr(b, p) == s
  {
    forall k | p <= k < p + |s| ensures b[k] !in {NUL} {
      assert s[k - p] == b[k];
    }
    assert IndexOfAny(b, p, {NUL}) == p + |s|;
  }

  /** Scanning the C string in the buffer is scanning the string. */
  lemma HoldsPbrk(b: seq<char>, p: nat, s: string, accept: set<char>)
    requires Holds(b, p, s) && NUL !in accept
    ensures var i := IndexOfAny(s, 0, accept);
            StrPbrk(b, p, accept) == if i == |s| then None else Some(p + i)
  {
    var i := IndexOfAny(s, 0, accept);
    forall k | p <= k < p + i ensures b[k] !in accept + {NUL} {
      assert s[k - p] == b[k];
    }
    assert i < |s| ==> b[p + i] == s[i];
    assert IndexOfAny(b, p, accept + {NUL}) == p + i;
  }

  lemma HoldsSpan(b: seq<char>, p: nat, s: string, i: nat, accept: set<char>)
    requires Holds(b, p, s) && i <= |s| && NUL !in accept
    ensures Span(b, p + i, accept) == p + Span(s, i, accept)
  {
    var j := Span(s, i, accept);
    forall k | p + i <= k < p + j ensures b[k] in accept {
      assert s[k - p] == b[k];
    }
    assert j < |s| ==> b[p + j] == s[j];
  }

  /** Storing a NUL inside a C string cuts it in two. */
  lemma HoldsSplit(b: seq<char>, p: nat, s: string, i: nat)
    requires Holds(b, p, s) && i < |s|
    ensures Holds(b[p + i := NUL], p, s[..i])
    ensures Holds(b[p + i := NUL], p + i + 1, s[i + 1..])
  {
    var c, t := b[p + i := NUL], s[i + 1..];
    forall k | 0 <= k < |t| ensures c[p + i + 1 + k] == t[k] != NUL {
      assert t[k] == s[i + 1 + k];
    }
  }

  lemma HoldsSuffix(b: seq<char>, p: nat, s: string, i: nat)
    requires Holds(b, p, s) && i <= |s|
    ensures Holds(b, p + i, s[i..])
  {
    var t := s[i..];
    forall k | 0 <= k < |t| ensures b[p + i + k] == t[k] != NUL {
      assert t[k] == s[i + k];
    }
  }

  function Lower(c: char): char {
    if 'A' <= c <= 'Z' then 'a' + (c - 'A') else c
  }

  /** strcasecmp(a, b) == 0 */
  predicate EqualNoCase(a: string, b: string) {
    if a == "" || b == "" then a == b
    else Lower(a[0]) == Lower(b[0]) && EqualNoCase(a[1..], b[1..])
  }

  /** The same character, or the same letter in the other case. */
  ghost predicate SameButCase(c: char, d: char) {
    || c == d
    || ('a' <= c <= 'z' && c as int - 'a' as int == d as int - 'A' as int)
    || ('A' <= c <= 'Z' && c as int - 'A' as int == d as int - 'a' as int)
  }

  /** The same text, whatever the case of its letters. */
  ghost predicate SameWord(a: string, b: string) {
    |a| == |b| && forall i :: 0 <= i < |a| ==> SameButCase(a[i], b[i])
  }

  /** The comparison without case is exactly that. */
  lemma {:induction false} EqualNoCaseIff(a: string, b: string)
    ensures EqualNoCase(a, b) <==> SameWord(a, b)
  {
    if a != "" && b != "" {
      EqualNoCaseIff(a[1..], b[1..]);
      if SameWord(a[1..], b[1..]) && SameButCase(a[0], b[0]) {
        forall i | 0 <= i < |a| ensures SameButCase(a[i], b[i]) {
          assert i > 0 ==> SameButCase(a[1..][i - 1], b[1..][i - 1]);
        }
      }
    }
  }

  /** strncasecmp(a, b, strlen(b)) == 0 */
  predicate PrefixNoCase(a: string, b: string): (r: bool)
    ensures r ==> |b| <= |a|
  {
    b == "" || (a != "" && Lower(a[0]) == Lower(b[0]) && PrefixNoCase(a[1..], b[1..]))
  }

  lemma {:induction false} PrefixNoCaseSplit(a: string, b: string)
    ensures PrefixNoCase(a, b) <==> |b| <= |a| && EqualNoCase(a[..|b|], b)
  {
    if a != "" && b != "" {
      PrefixNoCaseSplit(a[1..], b[1..]);
      if |b| <= |a| { assert a[1..][..|b| - 1] == a[..|b|][1..]; }
    }
  }

  lemma {:induction false} EqualNoCaseLength(a: string, b: string)
    requires EqualNoCase(a, b)
    ensures |a| == |b|
  {
    if a != "" && b != "" { EqualNoCaseLength(a[1..], b[1..]); }
  }
}
