/**
 * Case-sensitive shell-style matching of a whole path string against a
 * pattern, as `fnmatchcase` does: `*` matches any run of characters
 * (including '.' and newlines), `?` matches one character, every other
 * character matches itself.
 */
module Glob {
  import Strings

  predicate IsWild(c: char) {
    c == '*' || c == '?'
  }

  /** The pattern has no wildcard, so it can only match itself. */
  predicate Literal(p: string) {
    forall k :: 0 <= k < |p| ==> !IsWild(p[k])
  }

  lemma LiteralWithoutWildcards(p: string)
    requires '*' !in p && '?' !in p
    ensures Literal(p)
  {
    forall k | 0 <= k < |p| ensures !IsWild(p[k]) {
      assert p[k] in p;
    }
  }

  predicate Match(p: string, s: string)
    decreases |p| + |s|
  {
    if |p| == 0 then |s| == 0
    else if p[0] == '*' then Match(p[1..], s) || (|s| > 0 && Match(p, s[1..]))
    else if |s| == 0 then false
    else if p[0] == '?' then Match(p[1..], s[1..])
    else p[0] == s[0] && Match(p[1..], s[1..])
  }

  /** A wildcard-free pattern matches exactly the string it spells. */
  lemma {:induction false} LiteralMatch(p: string, s: string)
    requires Literal(p)
    ensures Match(p, s) <==> p == s
    decreases |p| + |s|
  {
    if |p| > 0 && |s| > 0 {
      LiteralMatch(p[1..], s[1..]);
      if p[0] == s[0] && p[1..] == s[1..] {
        assert p == [p[0]] + p[1..] && s == [s[0]] + s[1..];
      }
    }
  }

  /** `*` followed by a literal matches exactly the strings ending with that literal. */
  lemma {:induction false} StarSuffixMatch(lit: string, s: string)
    requires Literal(lit)
    ensures Match("*" + lit, s) <==> Strings.EndsWith(s, lit)
    decreases |s|
  {
    var p := "*" + lit;
    assert p[1..] == lit;
    LiteralMatch(lit, s);
    if |s| > 0 {
      StarSuffixMatch(lit, s[1..]);
      if |lit| <= |s| - 1 {
        assert s[1..][|s| - 1 - |lit|..] == s[|s| - |lit|..];
      }
      if |lit| == |s| {
        assert s[|s| - |lit|..] == s;
      }
    } else {
      assert Strings.EndsWith(s, lit) <==> lit == s;
    }
  }
}
