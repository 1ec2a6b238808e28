/** Query planning in the `/search` handler: an absent or empty `q` is
    answered with `[]` at once; otherwise `q` is normalised and split into
    terms, and the three strings bound to the SQL statement are built from
    them. No plan means the database is never consulted. */
module Planner {
  import opened Text
  import opened Records
  import opened Normalizer
  import opened SqlLike

  /** The normalised query, its terms, and the two LIKE patterns bound next
      to it: `%t1%t2...%tn%` and `t1%`. */
  datatype Plan = Plan(normalizedQuery: string, terms: seq<string>, fuzzyPattern: string, startsWith: string)

  /** `!query` in JavaScript, for a string-valued or absent parameter. */
  predicate IsFalsy(q: Option<string>) {
    q.None? || q.value == []
  }

  /** What the handler knows about a plan it hands to the database: the
      normalised query is canonical and non-empty, its terms rebuild it, and
      the two patterns are built from the terms. */
  predicate WellFormed(p: Plan) {
    && p.normalizedQuery != []
    && Canonical(p.normalizedQuery)
    && p.terms != []
    && (forall k :: 0 <= k < |p.terms| ==> p.terms[k] != [] && NoSpace(p.terms[k]) && IsLiteral(p.terms[k]))
    && Join(p.terms, " ") == p.normalizedQuery
    && p.fuzzyPattern == "%" + Join(p.terms, "%") + "%"
    && p.startsWith == p.terms[0] + "%"
  }

  function PlanQuery(q: Option<string>): (r: Option<Plan>)
    ensures r.None? <==> IsFalsy(q) || Normalize(q.value) == []
    ensures r.Some? ==> WellFormed(r.value) && r.value.normalizedQuery == Normalize(q.value)
  {
    if IsFalsy(q) then None
    else
      var normalizedQuery := Normalize(q.value);
      var terms := Words(normalizedQuery);
      CanonicalTerms(normalizedQuery);
      if |terms| == 0 then None
      else Some(Plan(normalizedQuery, terms, "%" + Join(terms, "%") + "%", terms[0] + "%"))
  }

  /** Canonical text is free of LIKE wildcards and ASCII letters. */
  lemma CanonicalIsLiteral(s: string)
    requires Canonical(s)
    ensures IsLiteral(s)
  {
    assert forall i :: 0 <= i < |s| ==> InAlphabet(s[i]);
  }

  /** The words of canonical text rebuild it and are wildcard-free; there are
      none exactly when the text is empty. */
  lemma CanonicalTerms(s: string)
    requires Canonical(s)
    ensures Words(s) == [] <==> s == []
    ensures Join(Words(s), " ") == s
    ensures forall k :: 0 <= k < |Words(s)| ==>
      Words(s)[k] != [] && NoSpace(Words(s)[k]) && IsLiteral(Words(s)[k])
  {
    JoinWords(s);
    WordsShape(s);
    CanonicalIsLiteral(s);
    WordsKeep(s, IsLiteralChar);
  }

  /** The plan's three SQL strings mean, against any stored name: ordered
      containment of the terms, equality with the normalised query, and a
      prefix test with the first term. */
  lemma PlanPatterns(p: Plan, name: string)
    requires WellFormed(p)
    ensures Like(p.fuzzyPattern, name) <==> ContainsInOrder(name, p.terms)
    ensures Like(p.normalizedQuery, name) <==> name == p.normalizedQuery
    ensures Like(p.startsWith, name) <==> StartsWith(name, p.terms[0])
  {
    LikeContainsAll(p.terms, name);
    CanonicalIsLiteral(p.normalizedQuery);
    LikeExact(p.normalizedQuery, name);
    LikePrefix(p.terms[0], name);
  }

  /** A name equal to the normalised query also passes the contains-all
      filter and starts with the first term. */
  lemma ExactPassesFilterAndPrefix(p: Plan, name: string)
    requires WellFormed(p) && name == p.normalizedQuery
    ensures ContainsInOrder(name, p.terms)
    ensures StartsWith(name, p.terms[0])
  {
    JoinContainsInOrder(p.terms);
    JoinStartsWithFirst(p.terms, " ");
  }

  /** Terms need not line up with words: "حمد" lies inside "محمد" and "ل"
      inside "علي", so a plan with those two terms passes "محمد علي". */
  lemma InsideWordsExample(p: Plan)
    requires WellFormed(p) && p.terms == ["حمد", "ل"]
    ensures Like(p.fuzzyPattern, "محمد علي")
  {
    var s: string := "محمد علي";
    var t0: string, t1: string := "حمد", "ل";
    assert s[1..4] == t0;
    assert OccursAt(s, t0, 1);
    var rest := s[4..];
    assert rest[2..3] == t1;
    assert OccursAt(rest, t1, 2);
    assert ContainsInOrder(rest[3..], []);
    assert [t1][0] == t1 && [t1][1..] == [] && rest[2 + |t1|..] == rest[3..];
    assert ContainsInOrder(rest, [t1]);
    var ts := [t0, t1];
    assert ts[0] == t0 && ts[1..] == [t1] && s[1 + |ts[0]|..] == rest;
    assert OccursAt(s, ts[0], 1) && ContainsInOrder(s[1 + |ts[0]|..], ts[1..]);
    assert ContainsInOrder(s, ts);
    PlanPatterns(p, s);
  }
}
