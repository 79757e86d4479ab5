/** The commons-lang StringUtils operations the document viewer relies on. */
module Strings {

  /** The length of the longest prefix of s holding no separator. */
  function TokenLength(s: string, seps: set<char>): (n: nat)
    ensures n <= |s|
    ensures forall i :: 0 <= i < n ==> s[i] !in seps
    ensures n < |s| ==> s[n] in seps
  {
    if s == [] || s[0] in seps then 0 else 1 + TokenLength(s[1..], seps)
  }

  /** StringUtils.split(str, separatorChars) for a non-null str: the maximal runs of
      characters that are not separators, in order; adjacent separators give no empty token. */
  function Split(s: string, seps: set<char>): seq<string>
    decreases |s|
  {
    if s == [] then []
    else if s[0] in seps then Split(s[1..], seps)
    else
      var n := TokenLength(s, seps);
      [s[..n]] + Split(s[n..], seps)
  }

  /** A token split can return: non-empty and free of separators. */
  predicate IsToken(t: string, seps: set<char>) {
    t != [] && forall i :: 0 <= i < |t| ==> t[i] !in seps
  }

  /** The characters of s that are not separators, in order. */
  function Unseparated(s: string, seps: set<char>): string {
    if s == [] then []
    else (if s[0] in seps then [] else [s[0]]) + Unseparated(s[1..], seps)
  }

  /** The tokens joined with the separator c between each two. */
  function Join(ts: seq<string>, c: char): string {
    if ts == [] then []
    else if |ts| == 1 then ts[0]
    else ts[0] + [c] + Join(ts[1..], c)
  }

  /** Joining a token in front of a non-empty sequence puts one separator between them. */
  lemma JoinCons(t: string, rest: seq<string>, c: char)
    requires rest != []
    ensures Join([t] + rest, c) == t + [c] + Join(rest, c)
  {
    assert ([t] + rest)[1..] == rest;
  }

  function Concat(ts: seq<string>): string {
    if ts == [] then [] else ts[0] + Concat(ts[1..])
  }

  /** Every token of a split is non-empty and holds no separator. */
  lemma {:induction false} SplitTokens(s: string, seps: set<char>)
    ensures forall k :: 0 <= k < |Split(s, seps)| ==> IsToken(Split(s, seps)[k], seps)
    decreases |s|
  {
    if s == [] {
    } else if s[0] in seps {
      SplitTokens(s[1..], seps);
    } else {
      var n := TokenLength(s, seps);
      SplitTokens(s[n..], seps);
    }
  }

  /** Splitting loses exactly the separators: the tokens put back together are the
      input without its separator characters. */
  lemma {:induction false} SplitKeepsCharacters(s: string, seps: set<char>)
    ensures Concat(Split(s, seps)) == Unseparated(s, seps)
    decreases |s|
  {
    if s == [] {
    } else if s[0] in seps {
      SplitKeepsCharacters(s[1..], seps);
    } else {
      var n := TokenLength(s, seps);
      SplitKeepsCharacters(s[n..], seps);
      UnseparatedToken(s, n, seps);
    }
  }

  lemma {:induction false} UnseparatedToken(s: string, n: nat, seps: set<char>)
    requires n <= |s|
    requires forall i :: 0 <= i < n ==> s[i] !in seps
    ensures Unseparated(s, seps) == s[..n] + Unseparated(s[n..], seps)
    decreases n
  {
    if n > 0 {
      UnseparatedToken(s[1..], n - 1, seps);
      assert s[1..][..n - 1] == s[1..n];
      assert s[1..][n - 1..] == s[n..];
      assert s[..n] == [s[0]] + s[1..n];
    }
  }

  /** Round trip: joining tokens with a separator and splitting again gives the tokens back. */
  lemma {:induction false} SplitJoin(ts: seq<string>, c: char, seps: set<char>)
    requires c in seps
    requires forall k :: 0 <= k < |ts| ==> IsToken(ts[k], seps)
    ensures Split(Join(ts, c), seps) == ts
  {
    if ts == [] {
    } else if |ts| == 1 {
      SplitWholeToken(ts[0], seps);
    } else {
      var t := ts[0];
      var rest := Join(ts[1..], c);
      var s := t + [c] + rest;
      TokenLengthOfToken(t, [c] + rest, seps);
      assert s == t + ([c] + rest);
      assert s[..|t|] == t;
      assert s[|t|..] == [c] + rest;
      assert Split([c] + rest, seps) == Split(rest, seps) by {
        assert ([c] + rest)[1..] == rest;
      }
      SplitJoin(ts[1..], c, seps);
      assert ts == [t] + ts[1..];
    }
  }

  lemma {:induction false} TokenLengthOfToken(t: string, rest: string, seps: set<char>)
    requires IsToken(t, seps)
    requires rest == [] || rest[0] in seps
    ensures TokenLength(t + rest, seps) == |t|
    decreases |t|
  {
    if |t| > 1 {
      assert (t + rest)[1..] == t[1..] + rest;
      TokenLengthOfToken(t[1..], rest, seps);
    } else {
      assert (t + rest)[1..] == rest;
    }
  }

  lemma SplitWholeToken(t: string, seps: set<char>)
    requires IsToken(t, seps)
    ensures Split(t, seps) == [t]
  {
    TokenLengthOfToken(t, [], seps);
    assert t + [] == t;
    assert t[..|t|] == t;
  }

  /** String.lastIndexOf(c): the last position holding c, or -1 when there is none. */
  function LastIndexOf(s: string, c: char): (i: int)
    ensures -1 <= i < |s|
    ensures i >= 0 ==> s[i] == c && forall j :: i < j < |s| ==> s[j] != c
    ensures i == -1 ==> forall j :: 0 <= j < |s| ==> s[j] != c
  {
    if s == [] then -1
    else if s[|s| - 1] == c then |s| - 1
    else LastIndexOf(s[..|s| - 1], c)
  }

  /** StringUtils.substringBeforeLast(str, sep) for a one-character separator: the part before
      the last occurrence of sep, or the whole string when sep does not occur. */
  function SubstringBeforeLast(s: string, sep: char): (r: string)
    ensures r <= s
  {
    var i := LastIndexOf(s, sep);
    if i == -1 then s else s[..i]
  }

  /** The decimal digits of n, as Integer.toString prints them. */
  function NatToString(n: nat): (r: string)
    ensures r != []
    decreases n
  {
    if n < 10 then [Digit(n)] else NatToString(n / 10) + [Digit(n % 10)]
  }

  function Digit(d: nat): char
    requires d < 10
  {
    "0123456789"[d]
  }
}
