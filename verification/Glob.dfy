/**
  httpd.c: the shell-style matcher that decides which handler serves a path. A pattern is a choice
  of alternatives separated by '|'; '?' stands for one character, '*' for any string without a
  slash, '**' for any string, and every other character for itself.
 */
module Glob {

  datatype Token = One | NoSlash | Any | Lit(c: char)

  /** A pattern, read from left to right. */
  function Tokens(p: string): seq<Token>
    decreases |p|
  {
    if p == [] then []
    else if p[0] == '*' then
      if 1 < |p| && p[1] == '*' then [Any] + Tokens(p[2..]) else [NoSlash] + Tokens(p[1..])
    else if p[0] == '?' then [One] + Tokens(p[1..])
    else [Lit(p[0])] + Tokens(p[1..])
  }

  // ----- the declarative rules

  /** What one token stands for. */
  predicate StandsFor(t: Token, s: string) {
    match t
    case One => |s| == 1
    case NoSlash => '/' !in s
    case Any => true
    case Lit(c) => s == [c]
  }

  function Joined(parts: seq<string>): string {
    if parts == [] then [] else parts[0] + Joined(parts[1..])
  }

  /** `s` can be cut into parts, one for each token. */
  ghost predicate Fits(ts: seq<Token>, s: string) {
    exists parts: seq<string> :: Cut(ts, parts) && Joined(parts) == s
  }

  ghost predicate Cut(ts: seq<Token>, parts: seq<string>) {
    |parts| == |ts| && forall i :: 0 <= i < |ts| ==> StandsFor(ts[i], parts[i])
  }

  /** The alternatives of a pattern. */
  function Alternatives(p: string): (alts: seq<string>)
    ensures 0 < |alts|
    decreases |p|
  {
    var n := UpTo(p, '|');
    if n == |p| then [p] else [p[..n]] + Alternatives(p[n + 1..])
  }

  /** strcspn with one character: how far `s` goes without a `c`. */
  function UpTo(s: string, c: char): (n: nat)
    ensures n <= |s| && (forall i :: 0 <= i < n ==> s[i] != c) && (n < |s| ==> s[n] == c)
  {
    if s == [] || s[0] == c then 0 else 1 + UpTo(s[1..], c)
  }

  ghost predicate OneFits(alts: seq<string>, s: string) {
    exists i :: 0 <= i < |alts| && Fits(Tokens(alts[i]), s)
  }

  /** Some alternative of the pattern relates to the whole string. */
  ghost predicate Matches(pattern: string, s: string) {
    OneFits(Alternatives(pattern), s)
  }

  // ----- one token at a time

  lemma FitsNone(s: string)
    ensures Fits([], s) <==> s == []
  {
    if s == [] {
      assert Cut([], []) && Joined([]) == s;
    }
  }

  lemma FitsFirst(t: Token, ts: seq<Token>, s: string)
    ensures Fits([t] + ts, s) <==> exists n :: 0 <= n <= |s| && StandsFor(t, s[..n]) && Fits(ts, s[n..])
  {
    if Fits([t] + ts, s) {
      var parts: seq<string> :| Cut([t] + ts, parts) && Joined(parts) == s;
      var n := |parts[0]|;
      assert ([t] + ts)[0] == t;
      assert Cut(ts, parts[1..]) by {
        assert forall i :: 0 <= i < |ts| ==> ts[i] == ([t] + ts)[i + 1] && parts[1..][i] == parts[i + 1];
      }
      assert s[..n] == parts[0] && s[n..] == Joined(parts[1..]);
      assert StandsFor(t, s[..n]) && Fits(ts, s[n..]);
    }
    if n :| 0 <= n <= |s| && StandsFor(t, s[..n]) && Fits(ts, s[n..]) {
      var rest: seq<string> :| Cut(ts, rest) && Joined(rest) == s[n..];
      var parts := [s[..n]] + rest;
      assert parts[1..] == rest;
      assert Cut([t] + ts, parts) && Joined(parts) == s[..n] + s[n..] == s;
    }
  }

  /** '?' and ordinary characters take exactly one character. */
  lemma FitsChar(t: Token, ts: seq<Token>, s: string)
    requires t.One? || t.Lit?
    ensures Fits([t] + ts, s) <==> s != [] && (t.Lit? ==> s[0] == t.c) && Fits(ts, s[1..])
  {
    FitsFirst(t, ts, s);
    if s != [] && (t.Lit? ==> s[0] == t.c) {
      assert s[..1] == [s[0]] && StandsFor(t, s[..1]);
    }
  }

  /** '*' takes what lies before the first slash, or less; '**' takes anything. */
  lemma FitsStar(t: Token, ts: seq<Token>, s: string)
    requires t.NoSlash? || t.Any?
    ensures var most := if t.Any? then |s| else UpTo(s, '/');
            Fits([t] + ts, s) <==> exists n :: 0 <= n <= most && Fits(ts, s[n..])
  {
    FitsFirst(t, ts, s);
    var most := if t.Any? then |s| else UpTo(s, '/');
    forall n | 0 <= n <= |s|
      ensures StandsFor(t, s[..n]) <==> n <= most
    {
      if t.NoSlash? && most < n {
        assert s[..n][most] == '/';
      }
    }
  }

  /** What the pattern [p, end) starts with. */
  function FirstToken(pat: string, p: nat, end: nat): Token
    requires p < end <= |pat|
  {
    if pat[p] == '*' then (if p + 1 < |pat| && pat[p + 1] == '*' then Any else NoSlash)
    else if pat[p] == '?' then One else Lit(pat[p])
  }

  lemma TokensStep(pat: string, p: nat, end: nat)
    requires p < end <= |pat| && (end < |pat| ==> pat[end] != '*')
    ensures var t := FirstToken(pat, p, end);
            var q := p + if t.Any? then 2 else 1;
            q <= end && Tokens(pat[p..end]) == [t] + Tokens(pat[q..end])
  {
    var x := pat[p..end];
    assert x[1..] == pat[p + 1..end];
    if 1 < |x| {
      assert x[2..] == pat[p + 2..end];
    }
  }

  /**
    match_one on the pattern [from, end) and the string from `at` on. The character at `end`, which
    the code may look at, is the '|' or the end of the whole pattern.
   */
  method MatchOne(pat: string, from: nat, end: nat, s: string, at: nat) returns (r: bool)
    requires from <= end <= |pat| && (end < |pat| ==> pat[end] != '*') && at <= |s|
    ensures r <==> Fits(Tokens(pat[from..end]), s[at..])
    decreases end - from, 0
  {
    hide Tokens, Fits, UpTo;
    var p, i := from, at;
    while p < end
      invariant from <= p <= end && at <= i <= |s|
      invariant Fits(Tokens(pat[from..end]), s[at..]) <==> Fits(Tokens(pat[p..end]), s[i..])
    {
      TokensStep(pat, p, end);
      if pat[p] == '?' && i < |s| {
        FitsChar(One, Tokens(pat[p + 1..end]), s[i..]);
        assert s[i..][1..] == s[i + 1..];
        p, i := p + 1, i + 1;
        continue;
      }
      if pat[p] == '*' {
        ghost var t := FirstToken(pat, p, end);
        var most: nat;
        p := p + 1;
        if p < |pat| && pat[p] == '*' {
          p := p + 1;
          most := |s| - i;
        } else {
          most := UpTo(s[i..], '/');
        }
        FitsStar(t, Tokens(pat[p..end]), s[i..]);
        r := MatchAny(pat, p, end, s, i, most);
        return;
      }
      FitsChar(FirstToken(pat, p, end), Tokens(pat[p + 1..end]), s[i..]);
      if i == |s| || pat[p] != s[i] {
        return false;
      }
      assert s[i..][1..] == s[i + 1..];
      p, i := p + 1, i + 1;
    }
    NoTokens(pat[p..end]);
    FitsNone(s[i..]);
    return i == |s|;
  }

  lemma NoTokens(p: string)
    requires p == []
    ensures Tokens(p) == []
  {
  }

  /** The loop over how much a wildcard takes, from the most down to nothing. */
  method MatchAny(pat: string, p: nat, end: nat, s: string, at: nat, most: nat) returns (r: bool)
    requires p <= end <= |pat| && (end < |pat| ==> pat[end] != '*') && at + most <= |s|
    ensures r <==> exists n :: 0 <= n <= most && Fits(Tokens(pat[p..end]), s[at..][n..])
    decreases end - p, 1
  {
    hide Tokens, Fits, UpTo;
    var i: int := most;
    while i >= 0
      invariant -1 <= i <= most
      invariant forall n :: i < n <= most ==> !Fits(Tokens(pat[p..end]), s[at..][n..])
    {
      assert s[at..][i..] == s[at + i..];
      var m := MatchOne(pat, p, end, s, at + i);
      if m {
        return true;
      }
      i := i - 1;
    }
    return false;
  }

  /** match: some alternative of the pattern fits the whole string. */
  method Match(pattern: string, s: string) returns (r: bool)
    ensures r <==> Matches(pattern, s)
  {
    hide Fits, Tokens, UpTo, Matches;
    var pos: nat := 0;
    assert pattern[0..] == pattern;
    while true
      invariant pos <= |pattern| && (Matches(pattern, s) <==> Matches(pattern[pos..], s))
      decreases |pattern| - pos
    {
      var n := UpTo(pattern[pos..], '|');
      AlternativesStep(pattern[pos..], s);
      assert s[0..] == s;
      if pos + n == |pattern| {
        assert pattern[pos..] == pattern[pos..|pattern|] == pattern[pos..][..n];
        r := MatchOne(pattern, pos, |pattern|, s, 0);
        return;
      }
      assert pattern[pos..][..n] == pattern[pos..pos + n] && pattern[pos..][n + 1..] == pattern[pos + n + 1..];
      r := MatchOne(pattern, pos, pos + n, s, 0);
      if r {
        return;
      }
      pos := pos + n + 1;
    }
  }

  lemma AlternativesStep(p: string, s: string)
    ensures var n := UpTo(p, '|');
            Matches(p, s) <==> Fits(Tokens(p[..n]), s) || (n < |p| && Matches(p[n + 1..], s))
  {
    hide Fits, Tokens, UpTo, OneFits;
    var n := UpTo(p, '|');
    if n == |p| {
      assert p[..n] == p;
      FirstFits(p, [], s);
      assert [p] + [] == [p];
      NoneFits(s);
    } else {
      FirstFits(p[..n], Alternatives(p[n + 1..]), s);
    }
  }

  lemma NoneFits(s: string)
    ensures !OneFits([], s)
  {
  }

  lemma FirstFits(a: string, alts: seq<string>, s: string)
    ensures OneFits([a] + alts, s) <==> Fits(Tokens(a), s) || OneFits(alts, s)
  {
    hide Fits, Tokens;
    var both := [a] + alts;
    assert both[0] == a && forall i :: 0 <= i < |alts| ==> both[i + 1] == alts[i];
  }
}
