/** The `/search` handler end to end: plan the query, rank the stored rows,
    answer with their display columns. */
module SearchHandler {
  import opened Records
  import opened Normalizer
  import opened Planner
  import opened Ranker
  import opened Ingestion

  function Project(rs: seq<Student>): (hs: seq<Hit>)
    ensures |hs| == |rs|
    ensures forall i :: 0 <= i < |rs| ==> hs[i] == HitOf(rs[i])
  {
    seq(|rs|, i requires 0 <= i < |rs| => HitOf(rs[i]))
  }

  /** A hit is the display columns of a stored row that passes the filter. */
  predicate FromPassing(p: Plan, db: seq<Student>, h: Hit) {
    exists x :: x in db && Passes(p, x) && h == HitOf(x)
  }

  /** The answer for a planned query: the display columns of a ranking of the
      stored rows, so its order and its cut are those of `IsRanking`. */
  function Answer(p: Plan, db: seq<Student>): (r: seq<Hit>)
    requires p.terms != []
    ensures exists rs :: IsRanking(p, db, rs) && r == Project(rs)
    ensures |r| == Min(Limit, |Matches(p, db)|)
    ensures forall h :: h in r ==> FromPassing(p, db, h)
  {
    var ranked := Rank(p, db);
    var r := Project(ranked);
    assert forall h :: h in r ==> FromPassing(p, db, h) by {
      forall h | h in r
        ensures FromPassing(p, db, h)
      {
        var i :| 0 <= i < |r| && r[i] == h;
        assert ranked[i] in ranked;
      }
    }
    r
  }

  /** The JSON array `/search?q=...` answers with, over the stored rows `db`. */
  function Search(q: Option<string>, db: seq<Student>): (r: seq<Hit>)
    ensures IsFalsy(q) ==> r == []
    ensures q.Some? && Normalize(q.value) == [] ==> r == []
    ensures |r| <= Limit
    ensures PlanQuery(q).Some? ==> |r| == Min(Limit, |Matches(PlanQuery(q).value, db)|)
    ensures PlanQuery(q).Some? ==> forall h :: h in r ==> FromPassing(PlanQuery(q).value, db, h)
    ensures PlanQuery(q).Some? ==> exists rs :: IsRanking(PlanQuery(q).value, db, rs) && r == Project(rs)
  {
    match PlanQuery(q)
    case None => []
    case Some(p) => Answer(p, db)
  }

  /** A stored name is found by any query that normalises to the same text:
      the index-time and query-time normalisers agree, and the row comes back
      as the only hit. */
  lemma StoredNameFindsItself(row: Row, q: Option<string>)
    requires row.arabicName.Some? && q.Some?
    requires Normalize(q.value) == Normalize(row.arabicName.value) != []
    ensures Search(q, Ingest([row])) == [HitOf(InsertFor(row).value)]
  {
    IngestOne(row);
    SearchExactSingle(q, InsertFor(row).value);
  }

  /** A store holding one row whose normalised name is the query's answers
      with that row. */
  lemma SearchExactSingle(q: Option<string>, x: Student)
    requires !IsFalsy(q) && Normalize(q.value) != [] && x.normalized == Normalize(q.value)
    ensures Search(q, [x]) == [HitOf(x)]
  {
    var p := PlanQuery(q).value;
    assert Passes(p, x) by {
      ExactPassesFilterAndPrefix(p, x.normalized);
    }
    AnswerSingle(p, x);
  }

  /** One passing row is answered with its own display columns. */
  lemma AnswerSingle(p: Plan, x: Student)
    requires p.terms != [] && Passes(p, x)
    ensures Answer(p, [x]) == [HitOf(x)]
  {
    RankSingle(p, x);
    assert Project([x]) == [HitOf(x)];
  }

  /** A query with no Arabic letter in it (Latin, digits, whitespace) is
      answered with no hits, whatever is stored. */
  lemma NoArabicNoHits(q: string, db: seq<Student>)
    requires forall i :: 0 <= i < |q| ==> !IsKept(q[i]) || q[i] == ' '
    ensures Search(Some(q), db) == []
  {
    NoArabicNormalizesEmpty(q);
  }
}
