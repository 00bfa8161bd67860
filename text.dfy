/**
 * The pieces of Rust's string library that the Yale converter relies on
 * (`split_whitespace`, `join(" ")`, `replace`), stated on `seq<char>`.
 */
module Text {
  /** Unicode White_Space, the property `char::is_whitespace` tests. */
  predicate IsWhitespace(c: char) {
    || ('\U{0009}' <= c <= '\U{000D}')
    || c == ' ' || c == '\U{0085}' || c == '\U{00A0}' || c == '\U{1680}'
    || ('\U{2000}' <= c <= '\U{200A}')
    || c == '\U{2028}' || c == '\U{2029}' || c == '\U{202F}' || c == '\U{205F}'
    || c == '\U{3000}'
  }

  predicate NoWhitespace(s: string) {
    forall i | 0 <= i < |s| :: !IsWhitespace(s[i])
  }

  /** Length of the leading run of non-whitespace characters of `s`. */
  function RunLength(s: string): (k: nat)
    ensures k <= |s|
    ensures NoWhitespace(s[..k])
    ensures k < |s| ==> IsWhitespace(s[k])
  {
    if s == [] || IsWhitespace(s[0]) then 0 else 1 + RunLength(s[1..])
  }

  /** `str::split_whitespace`: the maximal runs of non-whitespace, in order. */
  function SplitWhitespace(s: string): (parts: seq<string>)
    ensures forall i | 0 <= i < |parts| :: parts[i] != [] && NoWhitespace(parts[i])
    ensures parts == [] <==> forall i | 0 <= i < |s| :: IsWhitespace(s[i])
    decreases |s|
  {
    if s == [] then []
    else if IsWhitespace(s[0]) then
      var rest := SplitWhitespace(s[1..]);
      assert forall i | 1 <= i < |s| :: s[i] == s[1..][i - 1];
      rest
    else
      var k := RunLength(s);
      [s[..k]] + SplitWhitespace(s[k..])
  }

  /** `join(" ")`: the parts separated by single spaces. */
  function Join(parts: seq<string>): string {
    if parts == [] then []
    else if |parts| == 1 then parts[0]
    else parts[0] + " " + Join(parts[1..])
  }

  /** Splitting a space-joined list of non-empty, whitespace-free parts gives
      the parts back: `join(" ")` and `split_whitespace` are inverse. */
  lemma {:induction false} SplitJoinRoundTrip(parts: seq<string>)
    requires forall i | 0 <= i < |parts| :: parts[i] != [] && NoWhitespace(parts[i])
    ensures SplitWhitespace(Join(parts)) == parts
    decreases |parts|
  {
    if parts == [] {
    } else {
      var p := parts[0];
      var s := Join(parts);
      var tail := if |parts| == 1 then [] else " " + Join(parts[1..]);
      assert s == p + tail;
      assert s[..|p|] == p;
      var k := RunLength(s);
      assert forall i | 0 <= i < |p| :: s[i] == p[i];
      assert |p| < |s| ==> s[|p|] == ' ';
      assert k == |p|;
      assert s[k..] == tail;
      if |parts| == 1 {
        assert SplitWhitespace(s) == [p];
      } else {
        var rest := Join(parts[1..]);
        assert tail[1..] == rest;
        calc {
          SplitWhitespace(tail);
          SplitWhitespace(tail[1..]);
          { SplitJoinRoundTrip(parts[1..]); }
          parts[1..];
        }
        assert SplitWhitespace(s) == [p] + parts[1..];
      }
    }
  }

  /** True when `pat` occurs in `s` at index `i`. */
  predicate MatchAt(s: string, i: nat, pat: string) {
    i + |pat| <= |s| && s[i..i + |pat|] == pat
  }

  /** An occurrence of a pattern is an occurrence of each of its prefixes. */
  lemma {:induction false} MatchAtPrefix(s: string, i: nat, pat: string, prefix: string)
    requires prefix <= pat
    ensures MatchAt(s, i, pat) ==> MatchAt(s, i, prefix)
  {
    if MatchAt(s, i, pat) {
      assert s[i..i + |prefix|] == s[i..i + |pat|][..|prefix|];
    }
  }

  /** `str::replace`: every leftmost non-overlapping occurrence of `pat`
      replaced by `rep`. */
  function ReplaceAll(s: string, pat: string, rep: string): (r: string)
    requires pat != []
    ensures |pat| == |rep| ==> |r| == |s|
    decreases |s|
  {
    if |s| < |pat| then s
    else if s[..|pat|] == pat then rep + ReplaceAll(s[|pat|..], pat, rep)
    else [s[0]] + ReplaceAll(s[1..], pat, rep)
  }

  /** Where `pat` does not occur, `replace` changes nothing. */
  lemma {:induction false} ReplaceAllAbsent(s: string, pat: string, rep: string)
    requires pat != []
    requires forall i: nat :: !MatchAt(s, i, pat)
    ensures ReplaceAll(s, pat, rep) == s
    decreases |s|
  {
    if |s| >= |pat| {
      assert !MatchAt(s, 0, pat);
      var tail := s[1..];
      forall i: nat ensures !MatchAt(tail, i, pat) {
        assert !MatchAt(s, i + 1, pat);
        if i + |pat| <= |tail| {
          assert tail[i..i + |pat|] == s[i + 1..i + 1 + |pat|];
        }
      }
      ReplaceAllAbsent(tail, pat, rep);
    }
  }

  /** A property every character of the input and of `rep` has, every
      character of the result has. */
  lemma {:induction false} ReplaceAllKeeps(s: string, pat: string, rep: string, p: char -> bool)
    requires pat != []
    requires forall i | 0 <= i < |s| :: p(s[i])
    requires forall i | 0 <= i < |rep| :: p(rep[i])
    ensures forall i | 0 <= i < |ReplaceAll(s, pat, rep)| :: p(ReplaceAll(s, pat, rep)[i])
    decreases |s|
  {
    if |s| >= |pat| {
      if s[..|pat|] == pat {
        var tail := s[|pat|..];
        assert forall i | 0 <= i < |tail| :: tail[i] == s[|pat| + i];
        ReplaceAllKeeps(tail, pat, rep, p);
        var r, u := ReplaceAll(s, pat, rep), ReplaceAll(tail, pat, rep);
        assert r == rep + u;
        assert forall i | 0 <= i < |rep| :: r[i] == rep[i];
        assert forall i | |rep| <= i < |r| :: r[i] == u[i - |rep|];
      } else {
        var tail := s[1..];
        assert forall i | 0 <= i < |tail| :: tail[i] == s[1 + i];
        ReplaceAllKeeps(tail, pat, rep, p);
        var r, u := ReplaceAll(s, pat, rep), ReplaceAll(tail, pat, rep);
        assert r == [s[0]] + u && r[0] == s[0];
        assert forall i | 1 <= i < |r| :: r[i] == u[i - 1];
      }
    }
  }
}
