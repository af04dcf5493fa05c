/** The SQL `LIKE` operator the controllers' searches compile to, read the
    way MySQL reads a pattern with its default escape character `\`:
    `%` matches any run of characters, `_` any single character, `\x` the
    character x itself, and a `\` that ends the pattern stands for itself.
    Characters are compared exactly (no collation). */
module SqlLike {
  import opened Common

  datatype Token = AnyRun | AnyChar | Lit(c: char)

  predicate IsWildcard(c: char) {
    c == '%' || c == '_'
  }

  /** The token an unescaped character stands for. */
  function HeadToken(c: char): Token {
    if c == '%' then AnyRun else if c == '_' then AnyChar else Lit(c)
  }

  /** The tokens of a pattern, left to right. */
  function Tokens(p: string): (r: seq<Token>)
    ensures |r| <= |p|
  {
    if p == [] then []
    else if p[0] == '\\' && |p| >= 2 then [Lit(p[1])] + Tokens(p[2..])
    else [HeadToken(p[0])] + Tokens(p[1..])
  }

  lemma TokensUnescapedHead(p: string)
    requires p != [] && p[0] != '\\'
    ensures Tokens(p) == [HeadToken(p[0])] + Tokens(p[1..])
  {
  }

  lemma TokensEscapedHead(p: string)
    requires |p| >= 2 && p[0] == '\\'
    ensures Tokens(p) == [Lit(p[1])] + Tokens(p[2..])
  {
  }

  /** Whether the whole of `t` matches the token sequence `ts`. */
  predicate MatchTokens(t: string, ts: seq<Token>)
    decreases |ts|, |t|
  {
    if ts == [] then t == []
    else match ts[0]
      case Lit(c) => t != [] && t[0] == c && MatchTokens(t[1..], ts[1..])
      case AnyChar => t != [] && MatchTokens(t[1..], ts[1..])
      case AnyRun => MatchTokens(t, ts[1..]) || (t != [] && MatchTokens(t[1..], ts))
  }

  /** `t LIKE p`. */
  predicate Like(t: string, p: string) {
    MatchTokens(t, Tokens(p))
  }

  /** The pattern `%s%` the controllers build around a search term. */
  function Wrapped(s: string): (p: string)
    ensures |p| == |s| + 2 && p[0] == '%' && p[|p| - 1] == '%' && p[1..|p| - 1] == s
  {
    "%" + s + "%"
  }

  /** The tokens that match exactly the characters of `s`. */
  function Lits(s: string): (r: seq<Token>)
    ensures |r| == |s|
    ensures forall i :: 0 <= i < |s| ==> r[i] == Lit(s[i])
  {
    if s == [] then [] else [Lit(s[0])] + Lits(s[1..])
  }

  lemma LitsHead(s: string)
    requires s != []
    ensures Lits(s) == [Lit(s[0])] + Lits(s[1..])
  {
  }

  lemma {:induction false} AnyRunMatchesAll(t: string)
    ensures MatchTokens(t, [AnyRun])
    decreases |t|
  {
    assert [AnyRun][1..] == [];
    if t != [] {
      AnyRunMatchesAll(t[1..]);
    }
  }

  /** A leading `%` matches exactly when some suffix of `t` matches the rest. */
  lemma {:induction false} AnyRunPrefix(t: string, rest: seq<Token>)
    ensures MatchTokens(t, [AnyRun] + rest) <==>
            exists k :: 0 <= k <= |t| && MatchTokens(t[k..], rest)
    decreases |t|
  {
    var ts := [AnyRun] + rest;
    assert ts[1..] == rest;
    if t == [] {
      assert t[0..] == t;
    } else {
      AnyRunPrefix(t[1..], rest);
      if MatchTokens(t, ts) {
        if MatchTokens(t, rest) {
          assert t[0..] == t;
        } else {
          var k :| 0 <= k <= |t[1..]| && MatchTokens(t[1..][k..], rest);
          assert t[1..][k..] == t[k + 1..];
        }
      } else {
        forall k | 0 <= k <= |t| ensures !MatchTokens(t[k..], rest) {
          if k == 0 {
            assert t[0..] == t;
          } else {
            assert t[1..][k - 1..] == t[k..];
          }
        }
      }
    }
  }

  /** A run of literal tokens matches exactly that prefix. */
  lemma {:induction false} LitsPrefix(t: string, s: string, rest: seq<Token>)
    ensures MatchTokens(t, Lits(s) + rest) <==>
            |s| <= |t| && t[..|s|] == s && MatchTokens(t[|s|..], rest)
    decreases |s|
  {
    if s == [] {
      assert Lits(s) + rest == rest;
      assert t[0..] == t;
    } else {
      var ts := Lits(s) + rest;
      assert ts[0] == Lit(s[0]);
      assert ts[1..] == Lits(s[1..]) + rest;
      if t != [] {
        LitsPrefix(t[1..], s[1..], rest);
        if |s| <= |t| {
          assert t[1..][|s| - 1..] == t[|s|..];
          assert t[..|s|] == [t[0]] + t[1..][..|s| - 1];
          assert s == [s[0]] + s[1..];
        }
      }
    }
  }

  /** `%`-wrapped literal tokens match exactly the strings containing `s`. */
  lemma ExactSubstring(t: string, s: string)
    ensures MatchTokens(t, [AnyRun] + (Lits(s) + [AnyRun])) <==> Contains(t, s)
  {
    AnyRunPrefix(t, Lits(s) + [AnyRun]);
    if Contains(t, s) {
      var i :| 0 <= i <= |t| - |s| && OccursAt(t, s, i);
      LitsPrefix(t[i..], s, [AnyRun]);
      AnyRunMatchesAll(t[i..][|s|..]);
    }
    if MatchTokens(t, [AnyRun] + (Lits(s) + [AnyRun])) {
      var k :| 0 <= k <= |t| && MatchTokens(t[k..], Lits(s) + [AnyRun]);
      LitsPrefix(t[k..], s, [AnyRun]);
      assert t[k..][..|s|] == t[k..k + |s|];
      assert OccursAt(t, s, k);
    }
  }

  /** Without a backslash, tokenizing is compositional. */
  lemma {:induction false} TokensAppend(a: string, b: string)
    requires '\\' !in a
    ensures Tokens(a + b) == Tokens(a) + Tokens(b)
    decreases |a|
  {
    if a != [] {
      assert (a + b)[1..] == a[1..] + b;
      TokensAppend(a[1..], b);
    } else {
      assert a + b == b;
    }
  }

  /** A leading `%` may absorb the first character. */
  lemma AnyRunAbsorbsOne(t: string, rest: seq<Token>)
    requires t != [] && MatchTokens(t[1..], rest)
    ensures MatchTokens(t, [AnyRun] + rest)
  {
    var ts := [AnyRun] + rest;
    assert ts[1..] == rest;
    assert MatchTokens(t[1..], ts);
  }

  /** The token of a character matches that character. */
  lemma HeadTokenMatchesItself(t: string, rest: seq<Token>)
    requires t != [] && MatchTokens(t[1..], rest)
    ensures MatchTokens(t, [HeadToken(t[0])] + rest)
  {
    if t[0] == '%' {
      AnyRunAbsorbsOne(t, rest);
    } else {
      assert ([HeadToken(t[0])] + rest)[1..] == rest;
    }
  }

  /** A pattern without backslash matches itself followed by anything its
      continuation matches: `%` and `_` also match the literal characters. */
  lemma {:induction false} PatternMatchesItself(s: string, v: string, rest: seq<Token>)
    requires '\\' !in s
    requires MatchTokens(v, rest)
    ensures MatchTokens(s + v, Tokens(s) + rest)
    decreases |s|
  {
    if s == [] {
      assert s + v == v && Tokens(s) + rest == rest;
    } else {
      PatternMatchesItself(s[1..], v, rest);
      var t := s + v;
      var tail := Tokens(s[1..]) + rest;
      assert t[1..] == s[1..] + v && t[0] == s[0];
      TokensUnescapedHead(s);
      assert Tokens(s) + rest == [HeadToken(s[0])] + tail;
      HeadTokenMatchesItself(t, tail);
    }
  }

  /** A plain string (no `%`, `_` or `\`) reads as its own literals. */
  lemma {:induction false} PlainTokens(s: string)
    requires forall i :: 0 <= i < |s| ==> !IsWildcard(s[i]) && s[i] != '\\'
    ensures Tokens(s) == Lits(s)
    decreases |s|
  {
    if s != [] {
      PlainTokens(s[1..]);
    }
  }

  /** Tokens of a wrapped pattern. */
  lemma WrappedTokens(s: string)
    requires '\\' !in s
    ensures Tokens(Wrapped(s)) == [AnyRun] + (Tokens(s) + [AnyRun])
  {
    var p := Wrapped(s);
    assert p[1..] == s + "%";
    TokensAppend(s, "%");
    assert Tokens("%") == [AnyRun] + Tokens([]);
  }

  /** A raw search term `s` without backslash finds every string that
      contains it; `%` and `_` in it stay wildcards, so it may find more. */
  lemma RawSearchFindsContaining(t: string, s: string)
    requires '\\' !in s
    requires Contains(t, s)
    ensures Like(t, Wrapped(s))
  {
    var i :| 0 <= i <= |t| - |s| && OccursAt(t, s, i);
    WrappedTokens(s);
    var after := t[i + |s|..];
    AnyRunMatchesAll(after);
    PatternMatchesItself(s, after, [AnyRun]);
    assert t[i..] == s + after;
    AnyRunPrefix(t, Tokens(s) + [AnyRun]);
  }

  /** A raw search term with none of `%`, `_`, `\` finds exactly the strings
      that contain it. */
  lemma RawPlainSearchIsSubstring(t: string, s: string)
    requires forall i :: 0 <= i < |s| ==> !IsWildcard(s[i]) && s[i] != '\\'
    ensures Like(t, Wrapped(s)) <==> Contains(t, s)
  {
    WrappedTokens(s);
    PlainTokens(s);
    ExactSubstring(t, s);
  }

  /** `_` in a raw search term is a wildcard: "a_c" finds "abc". */
  lemma RawSearchUnderscoreIsWildcard()
    ensures Like("abc", Wrapped("a_c")) && !Contains("abc", "a_c")
  {
    var ts := Tokens(Wrapped("a_c"));
    assert Wrapped("a_c") == "%a_c%";
    assert ts == [AnyRun, Lit('a'), AnyChar, Lit('c'), AnyRun];
    assert MatchTokens("", [AnyRun]);
    assert MatchTokens("c", [Lit('c'), AnyRun]);
    assert MatchTokens("bc", [AnyChar, Lit('c'), AnyRun]);
    assert MatchTokens("abc", [Lit('a'), AnyChar, Lit('c'), AnyRun]);
    assert MatchTokens("abc", ts);
    assert "abc"[0..3][1] == 'b' && "a_c"[1] == '_';
  }
}
