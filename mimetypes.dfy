/** DocumentViewService.isMimeTypeGroup: does a mime type belong to one of some named groups
    of the repository's mime-type registry? */
module MimeTypes {
  import opened Outcomes
  import Strings

  /** The registry JCRContentUtils.getMimeTypes() returns: group name to its patterns. */
  type Registry = map<string, seq<string>>

  /** The separator characters of the string form: StringUtils.split(groups, ", "). */
  const GROUP_SEPARATORS: set<char> := {',', ' '}

  /** The characters Java's regex '.' does not match when DOTALL is off. */
  predicate IsLineTerminator(c: char) {
    c == '\n' || c == '\r' || c == '\U{85}' || c == '\U{2028}' || c == '\U{2029}'
  }

  /** The meaning of the regex a wildcard pattern is turned into (every '.' escaped, every '*'
      replaced by ".*", the whole mime type matched): characters other than '*' stand for
      themselves and '*' stands for any run of characters other than line terminators. */
  predicate GlobMatch(p: string, s: string)
    decreases |p| + |s|
  {
    if p == [] then s == []
    else if p[0] == '*' then
      GlobMatch(p[1..], s) || (s != [] && !IsLineTerminator(s[0]) && GlobMatch(p, s[1..]))
    else s != [] && s[0] == p[0] && GlobMatch(p[1..], s[1..])
  }

  /** The regex metacharacters the source leaves unescaped. */
  const REGEX_META: set<char> := {'\\', '[', ']', '(', ')', '{', '}', '?', '+', '^', '$', '|'}

  /** The assumption under which GlobMatch is what Pattern.matches computes: the registry's
      wildcard patterns hold no regex metacharacter other than '.' and '*'. */
  predicate RegexSafe(reg: Registry) {
    forall g, k, i :: g in reg && 0 <= k < |reg[g]| && '*' in reg[g][k] && 0 <= i < |reg[g][k]| ==>
      reg[g][k][i] !in REGEX_META
  }

  /** Whether one registered pattern accepts the mime type (lines 117-123). */
  predicate PatternMatches(p: string, mime: string) {
    if '*' in p then GlobMatch(p, mime) else p == mime
  }

  /** The specification of isMimeTypeGroup: the mime type is not null and some pattern of some
      listed group that is registered accepts it. */
  predicate InGroups(reg: Registry, mime: Option<string>, groups: seq<string>) {
    mime.Some? &&
    exists i, j :: 0 <= i < |groups| && groups[i] in reg && 0 <= j < |reg[groups[i]]| &&
      PatternMatches(reg[groups[i]][j], mime.value)
  }

  /** No pattern before pattern j of group gi accepts the mime type, in the order the source tries them. */
  predicate NoEarlierMatch(reg: Registry, mime: string, groups: seq<string>, gi: nat, j: nat)
    requires gi < |groups| && groups[gi] in reg && j <= |reg[groups[gi]]|
  {
    (forall i, k :: 0 <= i < gi && groups[i] in reg && 0 <= k < |reg[groups[i]]| ==>
       !PatternMatches(reg[groups[i]][k], mime)) &&
    (forall k :: 0 <= k < j ==> !PatternMatches(reg[groups[gi]][k], mime))
  }

  /** isMimeTypeGroup(String, String...) (lines 105-134). The ghost results name the pattern at
      which the search stopped: the first one, in group order and then pattern order, that matches. */
  method IsMimeTypeGroup(reg: Registry, mime: Option<string>, groups: seq<string>)
    returns (found: bool, ghost gi: nat, ghost pj: nat)
    requires RegexSafe(reg)
    ensures found <==> InGroups(reg, mime, groups)
    ensures found ==> (gi < |groups| && groups[gi] in reg && pj < |reg[groups[gi]]| &&
                       PatternMatches(reg[groups[gi]][pj], mime.value) &&
                       NoEarlierMatch(reg, mime.value, groups, gi, pj))
  {
    gi, pj := 0, 0;
    if mime.None? {
      return false, gi, pj;
    }
    var m := mime.value;
    found := false;
    var i := 0;
    while i < |groups|
      invariant 0 <= i <= |groups|
      invariant !found
      invariant forall i', k :: 0 <= i' < i && groups[i'] in reg && 0 <= k < |reg[groups[i']]| ==>
        !PatternMatches(reg[groups[i']][k], m)
    {
      var grp := groups[i];
      if grp !in reg {
        i := i + 1;
        continue;
      }
      var mimeTypes := reg[grp];
      var j := 0;
      while j < |mimeTypes|
        invariant 0 <= j <= |mimeTypes|
        invariant !found
        invariant forall k :: 0 <= k < j ==> !PatternMatches(mimeTypes[k], m)
      {
        var p := mimeTypes[j];
        if '*' in p {
          found := GlobMatch(p, m);
        } else {
          found := p == m;
        }
        if found {
          break;
        }
        j := j + 1;
      }
      if found {
        gi, pj := i, j;
        break;
      }
      i := i + 1;
    }
  }

  /** isMimeTypeGroup(String, String) (lines 92-94): the groups come as one string separated by
      commas and spaces. A null group string is split into a null array, on which the list form
      throws a NullPointerException once the mime type is known not to be null. */
  method IsMimeTypeGroupString(reg: Registry, mime: Option<string>, groupList: Option<string>)
    returns (r: Result<bool>)
    requires RegexSafe(reg)
    ensures mime.None? ==> r == Ok(false)
    ensures mime.Some? && groupList.None? ==> r == Err(NullPointer)
    ensures groupList.Some? ==> r == Ok(InGroups(reg, mime, Strings.Split(groupList.value, GROUP_SEPARATORS)))
  {
    if mime.None? {
      return Ok(false);
    }
    if groupList.None? {
      return Err(NullPointer);
    }
    var found, _, _ := IsMimeTypeGroup(reg, mime, Strings.Split(groupList.value, GROUP_SEPARATORS));
    r := Ok(found);
  }

  /** A null mime type belongs to no group, whatever the groups. */
  lemma NullInNoGroup(reg: Registry, groups: seq<string>)
    ensures !InGroups(reg, None, groups)
  {
  }

  /** The groups can be given in pieces: membership in a concatenation is membership in one of the parts. */
  lemma InGroupsAppend(reg: Registry, mime: Option<string>, g1: seq<string>, g2: seq<string>)
    ensures InGroups(reg, mime, g1 + g2) <==> InGroups(reg, mime, g1) || InGroups(reg, mime, g2)
  {
    var g := g1 + g2;
    if InGroups(reg, mime, g) {
      var i, j :| 0 <= i < |g| && g[i] in reg && 0 <= j < |reg[g[i]]| && PatternMatches(reg[g[i]][j], mime.value);
      if i >= |g1| {
        assert g2[i - |g1|] == g[i];
      }
    }
    if InGroups(reg, mime, g1) {
      var i, j :| 0 <= i < |g1| && g1[i] in reg && 0 <= j < |reg[g1[i]]| && PatternMatches(reg[g1[i]][j], mime.value);
      assert g[i] == g1[i];
    }
    if InGroups(reg, mime, g2) {
      var i, j :| 0 <= i < |g2| && g2[i] in reg && 0 <= j < |reg[g2[i]]| && PatternMatches(reg[g2[i]][j], mime.value);
      assert g[|g1| + i] == g2[i];
    }
  }

  /** A group missing from the registry is skipped: listing it changes nothing. */
  lemma UnregisteredGroupSkipped(reg: Registry, mime: Option<string>, g1: seq<string>, grp: string, g2: seq<string>)
    requires grp !in reg
    ensures InGroups(reg, mime, g1 + [grp] + g2) <==> InGroups(reg, mime, g1 + g2)
  {
    InGroupsAppend(reg, mime, g1 + [grp], g2);
    InGroupsAppend(reg, mime, g1, [grp]);
    InGroupsAppend(reg, mime, g1, g2);
  }

  /** Only which groups are listed matters, not their order or repetition: the configured set of
      supported formats can be turned into an array in any order. */
  lemma InGroupsSameGroups(reg: Registry, mime: Option<string>, g1: seq<string>, g2: seq<string>)
    requires forall x :: x in g1 <==> x in g2
    ensures InGroups(reg, mime, g1) <==> InGroups(reg, mime, g2)
  {
    if InGroups(reg, mime, g1) {
      var i, j :| 0 <= i < |g1| && g1[i] in reg && 0 <= j < |reg[g1[i]]| && PatternMatches(reg[g1[i]][j], mime.value);
      assert g1[i] in g2;
      var i' :| 0 <= i' < |g2| && g2[i'] == g1[i];
    }
    if InGroups(reg, mime, g2) {
      var i, j :| 0 <= i < |g2| && g2[i] in reg && 0 <= j < |reg[g2[i]]| && PatternMatches(reg[g2[i]][j], mime.value);
      assert g2[i] in g1;
      var i' :| 0 <= i' < |g1| && g1[i'] == g2[i];
    }
  }

  /** A single group, as in isMimeTypeGroup(type, "pdf"): some pattern registered for it accepts the type. */
  lemma InOneGroup(reg: Registry, mime: string, grp: string)
    ensures InGroups(reg, Some(mime), [grp]) <==>
      grp in reg && exists j :: 0 <= j < |reg[grp]| && PatternMatches(reg[grp][j], mime)
  {
    if InGroups(reg, Some(mime), [grp]) {
      var i, j :| 0 <= i < 1 && [grp][i] in reg && 0 <= j < |reg[[grp][i]]| && PatternMatches(reg[[grp][i]][j], mime);
      assert i == 0;
    }
    if grp in reg && exists j :: 0 <= j < |reg[grp]| && PatternMatches(reg[grp][j], mime) {
      var j :| 0 <= j < |reg[grp]| && PatternMatches(reg[grp][j], mime);
      assert [grp][0] == grp;
    }
  }

  /** A pattern without '*' is a literal: the glob reading equals equality, so the exact-match
      branch agrees with the wildcard branch on such patterns. */
  lemma {:induction false} GlobLiteral(p: string, s: string)
    requires '*' !in p
    ensures GlobMatch(p, s) <==> p == s
    decreases |p| + |s|
  {
    if p != [] && s != [] {
      assert '*' !in p[1..] by {
        forall k | 0 <= k < |p[1..]| ensures p[1..][k] != '*' {
          assert p[1..][k] == p[k + 1];
        }
      }
      GlobLiteral(p[1..], s[1..]);
      if p[1..] == s[1..] && p[0] == s[0] {
        assert p == [p[0]] + p[1..];
        assert s == [s[0]] + s[1..];
      }
    }
  }

  /** A literal prefix must be matched character for character. */
  lemma {:induction false} GlobLiteralPrefix(a: string, rest: string, s: string)
    requires '*' !in a
    ensures GlobMatch(a + rest, s) <==> |a| <= |s| && s[..|a|] == a && GlobMatch(rest, s[|a|..])
    decreases |a|
  {
    if a != [] {
      assert (a + rest)[0] == a[0];
      assert (a + rest)[1..] == a[1..] + rest;
      assert '*' !in a[1..] by {
        forall k | 0 <= k < |a[1..]| ensures a[1..][k] != '*' {
          assert a[1..][k] == a[k + 1];
        }
      }
      if s != [] {
        GlobLiteralPrefix(a[1..], rest, s[1..]);
        if |a| <= |s| {
          assert s[1..][|a| - 1..] == s[|a|..];
          assert s[..|a|] == [s[0]] + s[1..][..|a| - 1];
          assert a == [a[0]] + a[1..];
        }
      }
    } else {
      assert a + rest == rest;
    }
  }

  predicate NoLineTerminator(s: string) {
    forall k :: 0 <= k < |s| ==> !IsLineTerminator(s[k])
  }

  /** '*' followed by a literal: the string ends with the literal and what precedes it holds no
      line terminator. */
  lemma {:induction false} GlobStarLiteral(b: string, t: string)
    requires '*' !in b
    ensures GlobMatch(['*'] + b, t) <==> |b| <= |t| && t[|t| - |b|..] == b && NoLineTerminator(t[..|t| - |b|])
    decreases |t|
  {
    var p := ['*'] + b;
    assert p[0] == '*' && p[1..] == b;
    GlobLiteral(b, t);
    if t == [] {
    } else {
      GlobStarLiteral(b, t[1..]);
      var n := |t| - |b|;
      if |b| <= |t| - 1 {
        assert t[1..][|t| - 1 - |b|..] == t[n..];
        assert t[..n] == [t[0]] + t[1..][..n - 1];
        assert NoLineTerminator(t[..n]) <==> !IsLineTerminator(t[0]) && NoLineTerminator(t[1..][..n - 1]) by {
          if !IsLineTerminator(t[0]) && NoLineTerminator(t[1..][..n - 1]) {
            forall k | 0 <= k < n ensures !IsLineTerminator(t[..n][k]) {
              if k > 0 { assert t[..n][k] == t[1..][..n - 1][k - 1]; }
            }
          }
          if NoLineTerminator(t[..n]) {
            var u := t[1..][..n - 1];
            forall k | 0 <= k < n - 1 ensures !IsLineTerminator(u[k]) {
              assert u[k] == t[..n][k + 1];
            }
          }
        }
      }
      if |b| == |t| {
        assert t[n..] == t;
      }
    }
  }

  /** A pattern with a single wildcard, literal text a before it and b after it, accepts exactly
      the strings that start with a, end with b (without overlap) and hold no line terminator in
      between. */
  lemma SingleWildcard(a: string, b: string, s: string)
    requires '*' !in a && '*' !in b
    ensures GlobMatch(a + ['*'] + b, s) <==>
      |a| + |b| <= |s| && s[..|a|] == a && s[|s| - |b|..] == b && NoLineTerminator(s[|a|..|s| - |b|])
  {
    var rest := ['*'] + b;
    assert a + ['*'] + b == a + rest;
    GlobLiteralPrefix(a, rest, s);
    if |a| <= |s| {
      StarSuffix(b, s, |a|);
    }
  }

  lemma StarSuffix(b: string, s: string, k: nat)
    requires '*' !in b && k <= |s|
    ensures GlobMatch(['*'] + b, s[k..]) <==>
      k + |b| <= |s| && s[|s| - |b|..] == b && NoLineTerminator(s[k..|s| - |b|])
  {
    var t := s[k..];
    GlobStarLiteral(b, t);
    if |b| <= |t| {
      var n := |s| - |b|;
      assert t[|t| - |b|..] == s[n..];
      assert t[..|t| - |b|] == s[k..n];
    }
  }

  /** '.' in a pattern is literal: "application/vnd.ms-*" does not accept "application/vndxms-excel". */
  lemma DotIsLiteral()
    ensures !GlobMatch("application/vnd.ms-*", "application/vndxms-excel")
  {
    var p, s := "application/vnd.ms-*", "application/vndxms-excel";
    GlobLiteralPrefix(p[..15], p[15..], s);
    assert p == p[..15] + p[15..];
    assert p[15..][0] == '.' && s[15..][0] == 'x';
  }

  // A trailing wildcard accepts any suffix: the pattern text/ followed by a star accepts "text/plain".
  lemma TrailingWildcard()
    ensures GlobMatch("text/*", "text/plain")
  {
    var a, s := "text/", "text/plain";
    assert "text/*" == a + ['*'] + [];
    SingleWildcard(a, [], s);
    assert s[..5] == a;
    var mid := s[5..10];
    forall k | 0 <= k < |mid| ensures !IsLineTerminator(mid[k]) {
      assert mid[k] in "plain";
    }
  }
}
