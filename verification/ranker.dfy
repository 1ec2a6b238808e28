/** What the search statement's WHERE, ORDER BY and LIMIT clauses compute,
    written as an explicit filter, an explicit sort key and a cut:
    candidates pass when their normalised name contains the terms in order;
    they are ordered by tier (0 exact, 1 starts with the first term, 2 other)
    and then by the length of the normalised name; at most 20 are kept.
    SQLite fixes no order among rows with equal keys, so the contract of
    `Rank` is a relation that any such order satisfies; the body picks the
    stable one. */
module Ranker {
  import opened Text
  import opened Records
  import opened SqlLike
  import opened Planner

  /** The LIMIT of the search statement. */
  const Limit: nat := 20

  datatype Key = Key(tier: nat, length: nat)

  /** ORDER BY tier, then LENGTH(name), both ascending. */
  predicate KeyLe(a: Key, b: Key) {
    a.tier < b.tier || (a.tier == b.tier && a.length <= b.length)
  }

  /** The ranking tier of a name. */
  function Tier(p: Plan, name: string): (t: nat)
    requires p.terms != []
    ensures t <= 2
  {
    if name == p.normalizedQuery then 0
    else if StartsWith(name, p.terms[0]) then 1
    else 2
  }

  function KeyOf(p: Plan, x: Student): Key
    requires p.terms != []
  {
    Key(Tier(p, x.normalized), |x.normalized|)
  }

  /** The WHERE clause, as the ordered-containment predicate. */
  predicate Passes(p: Plan, x: Student) {
    ContainsInOrder(x.normalized, p.terms)
  }

  /** The WHERE clause as written: `arabic_name_normalized LIKE fuzzyPattern`. */
  predicate SqlPasses(p: Plan, x: Student) {
    Like(p.fuzzyPattern, x.normalized)
  }

  /** The CASE expression as written: LIKE against the normalised query, then
      LIKE against the `startsWith` pattern. */
  function SqlTier(p: Plan, name: string): nat {
    if Like(p.normalizedQuery, name) then 0
    else if Like(p.startsWith, name) then 1
    else 2
  }

  /** For every plan the handler builds, the SQL clauses and the explicit
      predicates agree on every stored name. */
  lemma SqlAgrees(p: Plan, x: Student)
    requires WellFormed(p)
    ensures SqlPasses(p, x) <==> Passes(p, x)
    ensures SqlTier(p, x.normalized) == Tier(p, x.normalized)
  {
    PlanPatterns(p, x.normalized);
  }

  /** A name in tier 0 passes the filter and starts with the first term, so
      the first branch of the `CASE` never sees a row the `WHERE` drops. */
  lemma TierMeaning(p: Plan, name: string)
    requires WellFormed(p)
    ensures Tier(p, name) == 0 ==> ContainsInOrder(name, p.terms) && StartsWith(name, p.terms[0])
  {
    if name == p.normalizedQuery {
      ExactPassesFilterAndPrefix(p, name);
    }
  }

  /** The candidates that pass the filter, in the store's order. */
  function Matches(p: Plan, cands: seq<Student>): (r: seq<Student>)
    ensures forall x :: x in r <==> x in cands && Passes(p, x)
  {
    if cands == [] then []
    else
      assert cands == [cands[0]] + cands[1..];
      (if Passes(p, cands[0]) then [cands[0]] else []) + Matches(p, cands[1..])
  }

  /** The filter keeps every passing candidate as often as it occurs. */
  lemma {:induction false} MatchesCount(p: Plan, cands: seq<Student>)
    ensures forall x :: multiset(Matches(p, cands))[x] == if Passes(p, x) then multiset(cands)[x] else 0
    decreases |cands|
  {
    if cands != [] {
      MatchesCount(p, cands[1..]);
      assert cands == [cands[0]] + cands[1..];
    }
  }

  /** The sort key of the search statement as a function value. */
  function KeyFn(p: Plan): Student -> Key
    requires p.terms != []
  {
    x => KeyOf(p, x)
  }

  /** Ascending by `key`. */
  predicate Sorted(key: Student -> Key, s: seq<Student>) {
    forall i, j :: 0 <= i < j < |s| ==> KeyLe(key(s[i]), key(s[j]))
  }

  /** The head of a sorted sequence has the least key. */
  lemma SortedHead(key: Student -> Key, s: seq<Student>)
    requires Sorted(key, s) && s != []
    ensures forall y :: y in s ==> KeyLe(key(s[0]), key(y))
  {
    forall y | y in s
      ensures KeyLe(key(s[0]), key(y))
    {
      var j :| 0 <= j < |s| && s[j] == y;
    }
  }

  lemma SortedTail(key: Student -> Key, s: seq<Student>)
    requires Sorted(key, s) && s != []
    ensures Sorted(key, s[1..])
  {
    assert forall i :: 0 <= i < |s| - 1 ==> s[1..][i] == s[i + 1];
  }

  /** A key no larger than all of a sorted sequence's may go in front. */
  lemma SortedCons(key: Student -> Key, h: Student, t: seq<Student>)
    requires Sorted(key, t)
    requires forall y :: y in t ==> KeyLe(key(h), key(y))
    ensures Sorted(key, [h] + t)
  {
    var r := [h] + t;
    forall i, j | 0 <= i < j < |r|
      ensures KeyLe(key(r[i]), key(r[j]))
    {
      assert r[j] == t[j - 1];
      if i > 0 {
        assert r[i] == t[i - 1];
      } else {
        assert r[j] in t;
      }
    }
  }

  /** Places `x` in front of the first element whose key is not smaller. */
  function Insert(key: Student -> Key, x: Student, s: seq<Student>): (r: seq<Student>)
    requires Sorted(key, s)
    ensures Sorted(key, r)
    ensures multiset(r) == multiset(s) + multiset{x}
  {
    if s == [] then [x]
    else if KeyLe(key(x), key(s[0])) then
      SortedHead(key, s);
      SortedCons(key, x, s);
      [x] + s
    else
      SortedTail(key, s);
      SortedHead(key, s);
      var t := Insert(key, x, s[1..]);
      assert forall y :: y in s[1..] ==> y in s;
      assert forall y :: y in t ==> y == x || y in s[1..] by {
        forall y | y in t
          ensures y == x || y in s[1..]
        {
          assert y in multiset(t);
        }
      }
      SortedCons(key, s[0], t);
      assert s == [s[0]] + s[1..];
      [s[0]] + t
  }

  /** An insertion sort on the key: a sorted permutation of `s`. */
  function SortByKey(key: Student -> Key, s: seq<Student>): (r: seq<Student>)
    ensures Sorted(key, r)
    ensures multiset(r) == multiset(s)
  {
    if s == [] then []
    else
      assert s == [s[0]] + s[1..];
      Insert(key, s[0], SortByKey(key, s[1..]))
  }

  function Min(a: int, b: int): int {
    if a < b then a else b
  }

  /** What the statement's result may be: at most `Limit` passing candidates,
      as many as there are up to that cap, ordered by key, and no passing
      candidate left out has a smaller key than one kept. */
  predicate IsRanking(p: Plan, cands: seq<Student>, r: seq<Student>)
    requires p.terms != []
  {
    var m := Matches(p, cands);
    && |r| == Min(Limit, |m|)
    && multiset(r) <= multiset(m)
    && (forall y :: y in r ==> y in cands && Passes(p, y))
    && Sorted(KeyFn(p), r)
    && (forall x, y :: x in multiset(m) - multiset(r) && y in r ==> KeyLe(KeyFn(p)(y), KeyFn(p)(x)))
  }

  /** Filter, sort by key, keep the first `Limit`. */
  function Rank(p: Plan, cands: seq<Student>): (r: seq<Student>)
    requires p.terms != []
    ensures IsRanking(p, cands, r)
  {
    var m := Matches(p, cands);
    var key := KeyFn(p);
    var sorted := SortByKey(key, m);
    var k := Min(Limit, |sorted|);
    assert |sorted| == |m| by {
      assert |multiset(sorted)| == |multiset(m)|;
    }
    TopOfSorted(key, sorted, k);
    var r := sorted[..k];
    assert forall y :: y in r ==> y in cands && Passes(p, y) by {
      forall y | y in r
        ensures y in cands && Passes(p, y)
      {
        assert y in multiset(r);
        assert y in multiset(m);
      }
    }
    r
  }

  /** What a prefix leaves over is the rest of the sequence. */
  lemma SplitMultiset(t: seq<Student>, k: int)
    requires 0 <= k <= |t|
    ensures multiset(t[..k]) <= multiset(t)
    ensures multiset(t) - multiset(t[..k]) == multiset(t[k..])
  {
    assert t == t[..k] + t[k..];
  }

  lemma SortedPrefix(key: Student -> Key, t: seq<Student>, k: int)
    requires Sorted(key, t) && 0 <= k <= |t|
    ensures Sorted(key, t[..k])
  {
    assert forall i :: 0 <= i < k ==> t[..k][i] == t[i];
  }

  /** The first `k` elements of a sorted sequence are sorted, and none of the
      rest has a smaller key than any of them. */
  lemma TopOfSorted(key: Student -> Key, t: seq<Student>, k: int)
    requires Sorted(key, t) && 0 <= k <= |t|
    ensures Sorted(key, t[..k])
    ensures multiset(t[..k]) <= multiset(t)
    ensures forall x, y :: x in multiset(t) - multiset(t[..k]) && y in t[..k] ==> KeyLe(key(y), key(x))
  {
    SplitMultiset(t, k);
    SortedPrefix(key, t, k);
    forall x, y | x in multiset(t) - multiset(t[..k]) && y in t[..k]
      ensures KeyLe(key(y), key(x))
    {
      assert x in t[k..];
      var j :| 0 <= j < |t| - k && t[k..][j] == x;
      var i :| 0 <= i < k && t[..k][i] == y;
      assert t[k + j] == x && t[i] == y;
    }
  }

  /** When some candidate is an exact match, the first result is one. */
  lemma ExactMatchRanksFirst(p: Plan, cands: seq<Student>, r: seq<Student>, x: Student)
    requires WellFormed(p) && IsRanking(p, cands, r)
    requires x in cands && x.normalized == p.normalizedQuery
    ensures r != [] && r[0].normalized == p.normalizedQuery
  {
    TierMeaning(p, x.normalized);
    var m := Matches(p, cands);
    assert x in multiset(m);
    assert |m| > 0;
    if x in r {
      var i :| 0 <= i < |r| && r[i] == x;
      if i > 0 {
        assert KeyLe(KeyFn(p)(r[0]), KeyFn(p)(r[i]));
      }
    } else {
      assert x in multiset(m) - multiset(r);
      assert KeyLe(KeyFn(p)(r[0]), KeyFn(p)(x));
    }
    TierMeaning(p, r[0].normalized);
  }

  /** A single passing candidate is the whole answer. */
  lemma RankSingle(p: Plan, x: Student)
    requires p.terms != [] && Passes(p, x)
    ensures Rank(p, [x]) == [x]
  {
    assert Matches(p, [x]) == [x] by {
      assert [x][1..] == [];
    }
    var r := Rank(p, [x]);
    assert |r| == 1;
    assert r[0] in multiset(r);
  }

  /** The first term of a plan whose query is two words is the first word. */
  lemma FirstTermOfTwoWords(p: Plan, a: string, b: string)
    requires WellFormed(p) && p.normalizedQuery == a + " " + b
    requires a != [] && NoSpace(a)
    ensures p.terms[0] == a
  {
    WordsJoin(p.terms);
    var s := a + (" " + b);
    assert s == p.normalizedQuery;
    assert s[0] == a[0];
    TakeWordOf(a, " " + b);
  }

  /** For the query "احمد علي", the stored name "احمد علي" is tier 0 and
      "احمد محمد علي" is tier 1: it starts with the first term. */
  lemma TieringExample(p: Plan)
    requires WellFormed(p) && p.normalizedQuery == "احمد علي"
    ensures Tier(p, "احمد علي") == 0
    ensures Tier(p, "احمد محمد علي") == 1
  {
    assert "احمد" + " " + "علي" == "احمد علي";
    FirstTermOfTwoWords(p, "احمد", "علي");
    assert "احمد محمد علي"[..4] == "احمد";
  }
}
