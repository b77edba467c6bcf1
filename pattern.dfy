/** SQL `LIKE` as the catalog's title and author searches use it: `%` matches
    any run of characters (the empty run included), `_` matches exactly one
    character, every other character matches itself, and letters are compared
    without regard to ASCII case. */
module Pattern {

  const AnyRun: char := '%'
  const AnyChar: char := '_'

  /** ASCII upper-case letters to lower case; every other character is kept. */
  function FoldChar(c: char): (d: char)
    ensures 'A' <= c <= 'Z' ==> 'a' <= d <= 'z' && d as int - c as int == 32
    ensures !('A' <= c <= 'Z') ==> d == c
  {
    if 'A' <= c <= 'Z' then (c as int + 32) as char else c
  }

  function Fold(s: string): (r: string)
    ensures |r| == |s|
    ensures forall i :: 0 <= i < |s| ==> r[i] == FoldChar(s[i])
  {
    seq(|s|, i requires 0 <= i < |s| => FoldChar(s[i]))
  }

  /** Equality under the NOCASE collation of the catalog's text columns. */
  predicate SameNoCase(a: string, b: string)
    ensures SameNoCase(a, b) <==> |a| == |b| && forall i :: 0 <= i < |a| ==> FoldChar(a[i]) == FoldChar(b[i])
  {
    assert |a| == |b| && (forall i :: 0 <= i < |a| ==> FoldChar(a[i]) == FoldChar(b[i])) ==> Fold(a) == Fold(b);
    Fold(a) == Fold(b)
  }

  /** True when `p` holds neither wildcard, so that it can only match itself. */
  predicate Literal(p: string)
  {
    forall i :: 0 <= i < |p| ==> p[i] != AnyRun && p[i] != AnyChar
  }

  /** The number of characters a match of `p` must consume: one per
      character of `p` other than `%`. */
  function Fixed(p: string): nat
  {
    if p == [] then 0 else (if p[0] == AnyRun then 0 else 1) + Fixed(p[1..])
  }

  /** Case-sensitive matching of the whole of `s` against the pattern `p`. A
      lone `%`, the default pattern of `findBook`, matches every string, and no
      string shorter than the pattern's other characters matches. */
  function Matches(p: string, s: string): (r: bool)
    ensures p == [AnyRun] ==> r
    ensures r ==> Fixed(p) <= |s|
    decreases |p| + |s|
  {
    if p == [] then s == []
    else if p[0] == AnyRun then Matches(p[1..], s) || (s != [] && Matches(p, s[1..]))
    else if p[0] == AnyChar then s != [] && Matches(p[1..], s[1..])
    else s != [] && s[0] == p[0] && Matches(p[1..], s[1..])
  }

  /** `s LIKE pattern`. `LIKE '%'`, the default title and author search of
      `findBook`, accepts every string, and no string shorter than the
      pattern's characters other than `%` is accepted. */
  predicate Like(s: string, pattern: string)
    ensures pattern == [AnyRun] ==> Like(s, pattern)
    ensures Like(s, pattern) ==> Fixed(pattern) <= |s|
  {
    assert pattern == [AnyRun] ==> Fold(pattern) == [AnyRun];
    FoldFixed(pattern);
    Matches(Fold(pattern), Fold(s))
  }

  /** Folding case twice is folding it once. */
  lemma FoldTwice(s: string)
    ensures Fold(Fold(s)) == Fold(s)
  {
  }

  /** Folding case keeps every `%` where it is. */
  lemma {:induction false} FoldFixed(p: string)
    ensures Fixed(Fold(p)) == Fixed(p)
  {
    if p != [] {
      assert Fold(p)[1..] == Fold(p[1..]);
      FoldFixed(p[1..]);
    }
  }

  /** A leading `%` may swallow any prefix of the subject. */
  lemma {:induction false} AnyRunSkips(p: string, s: string, k: nat)
    requires |p| > 0 && p[0] == AnyRun
    requires k <= |s| && Matches(p[1..], s[k..])
    ensures Matches(p, s)
  {
    if k > 0 {
      AnyRunSkips(p, s[1..], k - 1);
      assert s[1..][k - 1..] == s[k..];
    }
  }

  /** Every string matches itself taken as a pattern, wildcards and all. */
  lemma {:induction false} MatchesItself(p: string)
    ensures Matches(p, p)
  {
    if p != [] {
      MatchesItself(p[1..]);
      if p[0] == AnyRun {
        AnyRunSkips(p, p, 1);
      }
    }
  }

  /** A pattern of n `_` and nothing else matches exactly the strings of length n. */
  lemma {:induction false} AnyCharsMatchLength(n: nat, s: string)
    ensures Matches(seq(n, _ => AnyChar), s) <==> |s| == n
  {
    var p := seq(n, _ => AnyChar);
    if n > 0 {
      assert p[1..] == seq(n - 1, _ => AnyChar);
      if s != [] {
        AnyCharsMatchLength(n - 1, s[1..]);
      }
    }
  }

  /** `LIKE` with n `_` accepts exactly the strings of n characters. */
  lemma LikeAnyChars(n: nat, s: string)
    ensures Like(s, seq(n, _ => AnyChar)) <==> |s| == n
  {
    assert Fold(seq(n, _ => AnyChar)) == seq(n, _ => AnyChar);
    AnyCharsMatchLength(n, Fold(s));
  }

  /** Without wildcards a pattern matches exactly the one string it spells. */
  lemma {:induction false} LiteralMatchesOnlyItself(p: string, s: string)
    requires Literal(p)
    ensures Matches(p, s) <==> s == p
  {
    if p != [] && s != [] {
      assert Literal(p[1..]) by {
        forall i | 0 <= i < |p[1..]| ensures p[1..][i] != AnyRun && p[1..][i] != AnyChar {
          assert p[1..][i] == p[i + 1];
        }
      }
      LiteralMatchesOnlyItself(p[1..], s[1..]);
      if s[0] == p[0] && s[1..] == p[1..] {
        assert s == [s[0]] + s[1..] && p == [p[0]] + p[1..];
      }
    } else if p != [] {
      assert p[0] != AnyRun;
    }
  }

  /** A pattern `%q` matches `s` exactly when `q` matches some suffix of `s`. */
  lemma {:induction false} LeadingAnyRun(q: string, s: string)
    ensures Matches([AnyRun] + q, s) <==> exists k :: 0 <= k <= |s| && Matches(q, s[k..])
  {
    var p := [AnyRun] + q;
    assert p[1..] == q;
    if exists k :: 0 <= k <= |s| && Matches(q, s[k..]) {
      var k :| 0 <= k <= |s| && Matches(q, s[k..]);
      AnyRunSkips(p, s, k);
    }
    if Matches(p, s) {
      if !Matches(q, s) {
        assert s != [] && Matches(p, s[1..]);
        LeadingAnyRun(q, s[1..]);
        var k :| 0 <= k <= |s[1..]| && Matches(q, s[1..][k..]);
        assert s[1..][k..] == s[k + 1..];
      } else {
        assert s[0..] == s;
      }
    }
  }

  /** For a literal `q`, the pattern `q%` matches exactly the strings that start with `q`. */
  lemma {:induction false} TrailingAnyRun(q: string, s: string)
    requires Literal(q)
    ensures Matches(q + [AnyRun], s) <==> q <= s
  {
    if q == [] {
      assert q + [AnyRun] == [AnyRun];
    } else {
      assert (q + [AnyRun])[1..] == q[1..] + [AnyRun];
      assert Literal(q[1..]) by {
        forall i | 0 <= i < |q[1..]| ensures q[1..][i] != AnyRun && q[1..][i] != AnyChar {
          assert q[1..][i] == q[i + 1];
        }
      }
      assert q[0] != AnyRun && q[0] != AnyChar;
      if s != [] {
        TrailingAnyRun(q[1..], s[1..]);
        if |q| <= |s| {
          assert s[..|q|] == [s[0]] + s[1..][..|q| - 1];
          assert q == [q[0]] + q[1..];
        }
      }
    }
  }

  /** `s` contains `q` as a contiguous piece: `q` is a prefix of some suffix of `s`. */
  predicate Occurs(q: string, s: string)
  {
    exists k :: 0 <= k <= |s| && q <= s[k..]
  }

  /** For a literal `q`, the pattern `%q%` is a substring search for `q`. */
  lemma ContainsSearch(q: string, s: string)
    requires Literal(q)
    ensures Matches([AnyRun] + q + [AnyRun], s) <==> Occurs(q, s)
  {
    assert [AnyRun] + q + [AnyRun] == [AnyRun] + (q + [AnyRun]);
    LeadingAnyRun(q + [AnyRun], s);
    if Occurs(q, s) {
      var k :| 0 <= k <= |s| && q <= s[k..];
      TrailingAnyRun(q, s[k..]);
    }
    if Matches([AnyRun] + q + [AnyRun], s) {
      var k :| 0 <= k <= |s| && Matches(q + [AnyRun], s[k..]);
      TrailingAnyRun(q, s[k..]);
    }
  }

  /** Folding case leaves the wildcards where they are and adds none. */
  lemma FoldKeepsLiteral(q: string)
    ensures Literal(q) <==> Literal(Fold(q))
  {
    forall i | 0 <= i < |q|
      ensures (q[i] != AnyRun && q[i] != AnyChar) <==> (Fold(q)[i] != AnyRun && Fold(q)[i] != AnyChar)
    {
      assert Fold(q)[i] == FoldChar(q[i]);
    }
  }

  /** The case of letters, in the subject and in the pattern, makes no
      difference to `LIKE`. */
  lemma LikeIgnoresCase(s: string, pattern: string)
    ensures Like(s, pattern) <==> Like(Fold(s), pattern)
    ensures Like(s, pattern) <==> Like(s, Fold(pattern))
  {
    FoldTwice(s);
    FoldTwice(pattern);
  }

  /** A string is `LIKE` itself. */
  lemma LikeItself(s: string)
    ensures Like(s, s)
  {
    MatchesItself(Fold(s));
  }

  /** `LIKE` with a wildcard-free pattern is equality up to ASCII case. */
  lemma LikeLiteral(s: string, q: string)
    requires Literal(q)
    ensures Like(s, q) <==> SameNoCase(s, q)
  {
    FoldKeepsLiteral(q);
    LiteralMatchesOnlyItself(Fold(q), Fold(s));
  }

  /** `LIKE '%q%'` with a wildcard-free `q` is a case-insensitive substring search. */
  lemma LikeContains(s: string, q: string)
    requires Literal(q)
    ensures Like(s, [AnyRun] + q + [AnyRun]) <==> Occurs(Fold(q), Fold(s))
  {
    assert Fold([AnyRun] + q + [AnyRun]) == [AnyRun] + Fold(q) + [AnyRun];
    FoldKeepsLiteral(q);
    ContainsSearch(Fold(q), Fold(s));
  }
}
