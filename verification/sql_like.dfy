/** SQLite's `LIKE` operator, as the search query uses it: no ESCAPE clause,
    `%` matches any run of characters (possibly empty), `_` matches exactly one
    character, and every other pattern character matches itself, ignoring case
    for the 26 ASCII letters only (SQLite's default). The lemmas show what the
    three patterns the search builds mean once their literal parts are free of
    wildcards and ASCII letters: equality, prefix, and ordered containment. */
module SqlLike {
  import opened Text

  predicate IsAsciiLetter(c: char) {
    ('A' <= c <= 'Z') || ('a' <= c <= 'z')
  }

  /** SQLite's case folding for LIKE: ASCII upper case to lower case only. */
  function FoldCase(c: char): char {
    if 'A' <= c <= 'Z' then (c as int + 32) as char else c
  }

  /** `s LIKE p`. */
  predicate Like(p: string, s: string)
    decreases |p|, |s|
  {
    if p == [] then s == []
    else if p[0] == '%' then Like(p[1..], s) || (s != [] && Like(p, s[1..]))
    else s != [] && (p[0] == '_' || FoldCase(p[0]) == FoldCase(s[0])) && Like(p[1..], s[1..])
  }

  /** A pattern character that matches only itself. */
  predicate IsLiteralChar(c: char) {
    c != '%' && c != '_' && !IsAsciiLetter(c)
  }

  /** A pattern fragment that matches only itself: no wildcard, no ASCII letter. */
  predicate IsLiteral(w: string) {
    Every(w, IsLiteralChar)
  }

  /** `%`, then `ts[0]`, `%`, `ts[1]`, ..., `%`: the pattern the ordered
      containment test is written in. */
  function Gaps(ts: seq<string>): string
  {
    if ts == [] then "%" else "%" + ts[0] + Gaps(ts[1..])
  }

  lemma FoldCaseOfLiteral(a: char, b: char)
    requires !IsAsciiLetter(a)
    ensures FoldCase(a) == FoldCase(b) <==> a == b
  {
  }

  /** A lone `%` matches everything. */
  lemma {:induction false} LikeAnyRun(s: string)
    ensures Like("%", s)
    decreases |s|
  {
    assert "%"[1..] == [];
    if s != [] {
      LikeAnyRun(s[1..]);
    }
  }

  /** A leading `%` lets the rest of the pattern match any suffix. */
  lemma {:induction false} LikePercent(q: string, s: string)
    ensures Like("%" + q, s) <==> exists i :: 0 <= i <= |s| && Like(q, s[i..])
    decreases |s|
  {
    var p := "%" + q;
    assert p[0] == '%' && p[1..] == q;
    assert s[0..] == s;
    if s != [] {
      LikePercent(q, s[1..]);
      if Like(p, s) && !Like(q, s) {
        var i :| 0 <= i <= |s| - 1 && Like(q, s[1..][i..]);
        assert s[1..][i..] == s[i + 1..];
      }
      if exists i :: 0 <= i <= |s| && Like(q, s[i..]) {
        var i :| 0 <= i <= |s| && Like(q, s[i..]);
        if i > 0 {
          assert s[1..][i - 1..] == s[i..];
        }
      }
    }
  }

  lemma StartsWithStep(s: string, w: string)
    requires s != [] && w != []
    ensures StartsWith(s, w) <==> s[0] == w[0] && StartsWith(s[1..], w[1..])
  {
    if |w| <= |s| {
      assert s[..|w|] == [s[0]] + s[1..][..|w| - 1];
      assert w == [w[0]] + w[1..];
      if s[0] == w[0] && StartsWith(s[1..], w[1..]) {
        assert s[..|w|] == w;
      }
      if StartsWith(s, w) {
        assert s[..|w|][0] == s[0];
        assert s[..|w|][1..] == s[1..][..|w| - 1];
      }
    }
  }

  /** A literal prefix of the pattern must be a prefix of the text. */
  lemma {:induction false} LikeLiteral(w: string, q: string, s: string)
    requires IsLiteral(w)
    ensures Like(w + q, s) <==> StartsWith(s, w) && Like(q, s[|w|..])
    decreases |w|
  {
    if w == [] {
      assert w + q == q;
      assert s[0..] == s;
    } else {
      var p := w + q;
      assert p[0] == w[0] && p[1..] == w[1..] + q;
      assert IsLiteralChar(w[0]);
      if s != [] {
        FoldCaseOfLiteral(w[0], s[0]);
        assert IsLiteral(w[1..]) by {
          forall i | 0 <= i < |w[1..]|
            ensures IsLiteralChar(w[1..][i])
          {
            assert w[1..][i] == w[i + 1];
          }
        }
        LikeLiteral(w[1..], q, s[1..]);
        StartsWithStep(s, w);
        if |w| <= |s| {
          assert s[1..][|w| - 1..] == s[|w|..];
        }
      }
    }
  }

  /** A literal pattern is an equality test. */
  lemma {:induction false} LikeExact(w: string, s: string)
    requires IsLiteral(w)
    ensures Like(w, s) <==> s == w
  {
    LikeLiteral(w, [], s);
    assert w + [] == w;
  }

  /** A literal followed by `%` is a prefix test. */
  lemma LikePrefix(w: string, s: string)
    requires IsLiteral(w)
    ensures Like(w + "%", s) <==> StartsWith(s, w)
  {
    LikeLiteral(w, "%", s);
    if |w| <= |s| {
      LikeAnyRun(s[|w|..]);
    }
  }

  /** Every term is a literal. */
  predicate AllLiteral(ts: seq<string>) {
    forall k :: 0 <= k < |ts| ==> IsLiteral(ts[k])
  }

  /** `%t1%t2...%tn%` with literal terms is the ordered containment test. */
  lemma {:induction false} LikeGaps(ts: seq<string>, s: string)
    requires AllLiteral(ts)
    ensures Like(Gaps(ts), s) <==> ContainsInOrder(s, ts)
    decreases |ts|, 1
  {
    if ts == [] {
      LikeAnyRun(s);
    } else {
      var q := ts[0] + Gaps(ts[1..]);
      assert Gaps(ts) == "%" + q;
      LikePercent(q, s);
      if Like(Gaps(ts), s) {
        var i :| 0 <= i <= |s| && Like(q, s[i..]);
        LikeGapsAt(ts, s, i);
        assert OccursAt(s, ts[0], i) && ContainsInOrder(s[i + |ts[0]|..], ts[1..]);
      }
      if ContainsInOrder(s, ts) {
        var i :| 0 <= i <= |s| && OccursAt(s, ts[0], i) && ContainsInOrder(s[i + |ts[0]|..], ts[1..]);
        LikeGapsAt(ts, s, i);
        assert Like(q, s[i..]);
      }
    }
  }

  /** One step of `LikeGaps`: the first term placed at index `i`. */
  lemma {:induction false} LikeGapsAt(ts: seq<string>, s: string, i: int)
    requires AllLiteral(ts)
    requires ts != [] && 0 <= i <= |s|
    ensures Like(ts[0] + Gaps(ts[1..]), s[i..])
      <==> OccursAt(s, ts[0], i) && ContainsInOrder(s[i + |ts[0]|..], ts[1..])
    decreases |ts|, 0
  {
    var t := ts[0];
    assert IsLiteral(t);
    LikeLiteral(t, Gaps(ts[1..]), s[i..]);
    if i + |t| <= |s| {
      assert s[i..][..|t|] == s[i..i + |t|];
      assert s[i..][|t|..] == s[i + |t|..];
      assert AllLiteral(ts[1..]) by {
        assert forall k :: 0 <= k < |ts| - 1 ==> ts[1..][k] == ts[k + 1];
      }
      LikeGaps(ts[1..], s[i + |t|..]);
    }
  }

  /** The contains-all pattern as the search handler builds it: `%`, the terms joined by `%`, and `%`. */
  lemma {:induction false} JoinedGaps(ts: seq<string>)
    requires ts != []
    ensures "%" + Join(ts, "%") + "%" == Gaps(ts)
    decreases |ts|
  {
    if |ts| == 1 {
      assert Gaps(ts[1..]) == "%";
    } else {
      JoinedGaps(ts[1..]);
    }
  }

  /** The contains-all pattern, with literal terms, holds exactly when the text
      contains the terms in order. */
  lemma LikeContainsAll(ts: seq<string>, s: string)
    requires ts != [] && AllLiteral(ts)
    ensures Like("%" + Join(ts, "%") + "%", s) <==> ContainsInOrder(s, ts)
  {
    JoinedGaps(ts);
    LikeGaps(ts, s);
  }
}
