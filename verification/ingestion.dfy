/** The CSV import script's per-row handler: normalise the row's
    `arabic_name` and insert (seating_no, arabic_name, total_degree,
    normalised name). `normalizeArabicName` of a missing name throws inside
    the `try`, so that row is reported and skipped and the import goes on. */
module Ingestion {
  import opened Records
  import opened Normalizer

  /** A parsed CSV row; `None` is a column the row does not have. */
  datatype Row = Row(seatingNo: Option<string>, arabicName: Option<string>, totalDegree: Option<string>)

  /** The insert one row leads to, or `None` when normalising throws. */
  function InsertFor(row: Row): (r: Option<Student>)
    ensures r.Some? <==> row.arabicName.Some?
    ensures r.Some? ==>
      && r.value.seatingNo == row.seatingNo
      && r.value.arabicName == row.arabicName.value
      && r.value.totalDegree == row.totalDegree
      && r.value.normalized == Normalize(row.arabicName.value)
  {
    match row.arabicName
    case None => None
    case Some(name) => Some(Student(row.seatingNo, name, row.totalDegree, Normalize(name)))
  }

  /** The stored normalised name is the normaliser applied to the stored
      display name. */
  predicate IsDerived(x: Student) {
    x.normalized == Normalize(x.arabicName)
  }

  /** The rows inserted by one import, in the order the CSV yields them. */
  function Ingest(rows: seq<Row>): seq<Student>
  {
    if rows == [] then []
    else
      var rest := Ingest(rows[1..]);
      match InsertFor(rows[0])
      case None => rest
      case Some(x) =>
        [x] + rest
  }

  /** Every inserted row carries the normalised form of its own display
      name, so the stored column never disagrees with the name. */
  lemma {:induction false} IngestDerived(rows: seq<Row>)
    ensures forall x :: x in Ingest(rows) ==> IsDerived(x)
    decreases |rows|
  {
    if rows != [] {
      IngestDerived(rows[1..]);
      var rest := Ingest(rows[1..]);
      if rows[0].arabicName.Some? {
        var x := InsertFor(rows[0]).value;
        assert IsDerived(x);
        assert Ingest(rows) == [x] + rest;
        assert forall y :: y in [x] + rest ==> y == x || y in rest;
      } else {
        assert Ingest(rows) == rest;
      }
    }
  }

  /** The positions of the rows that have a name. */
  function NamedRows(rows: seq<Row>): set<int> {
    set i | 0 <= i < |rows| && rows[i].arabicName.Some?
  }

  /** There is one insert per row that has a name, and none for the others. */
  lemma {:induction false} IngestCount(rows: seq<Row>)
    ensures |Ingest(rows)| == |NamedRows(rows)|
    decreases |rows|
  {
    if rows != [] {
      var init := rows[..|rows| - 1];
      var last := rows[|rows| - 1];
      assert rows == init + [last];
      IngestAppend(init, [last]);
      IngestCount(init);
      assert [last][1..] == [];
      NamedRowsSnoc(init, last);
    }
  }

  lemma NamedRowsSnoc(init: seq<Row>, last: Row)
    ensures |NamedRows(init + [last])| == |NamedRows(init)| + if last.arabicName.Some? then 1 else 0
  {
    var rows := init + [last];
    var extra: set<int> := if last.arabicName.Some? then {|init|} else {};
    forall i | i in NamedRows(rows)
      ensures i in NamedRows(init) + extra
    {
      if i < |init| {
        assert rows[i] == init[i];
      }
    }
    forall i | i in NamedRows(init) + extra
      ensures i in NamedRows(rows)
    {
      if i < |init| {
        assert rows[i] == init[i];
      }
    }
    assert NamedRows(rows) == NamedRows(init) + extra;
    assert |init| !in NamedRows(init);
  }

  /** A one-row import inserts that row's student. */
  lemma IngestOne(row: Row)
    requires row.arabicName.Some?
    ensures Ingest([row]) == [InsertFor(row).value]
  {
    assert [row][1..] == [];
  }

  /** Rows are handled independently: importing two batches one after the
      other inserts what importing each would. */
  lemma {:induction false} IngestAppend(a: seq<Row>, b: seq<Row>)
    ensures Ingest(a + b) == Ingest(a) + Ingest(b)
    decreases |a|
  {
    if a == [] {
      assert a + b == b;
    } else {
      assert (a + b)[0] == a[0];
      assert (a + b)[1..] == a[1..] + b;
      IngestAppend(a[1..], b);
    }
  }

  /** A row with a name is inserted exactly once, right after the inserts of
      the rows before it and before those of the rows after it. */
  lemma IngestNamed(a: seq<Row>, row: Row, b: seq<Row>)
    requires row.arabicName.Some?
    ensures Ingest(a + [row] + b) == Ingest(a) + [InsertFor(row).value] + Ingest(b)
  {
    IngestAppend(a + [row], b);
    IngestAppend(a, [row]);
    IngestOne(row);
  }

  /** A row whose name is missing inserts nothing: removing it from the file
      leaves the inserts as they are. */
  lemma IngestSkipsNameless(a: seq<Row>, row: Row, b: seq<Row>)
    requires row.arabicName.None?
    ensures Ingest(a + [row] + b) == Ingest(a + b)
  {
    IngestAppend(a + [row], b);
    IngestAppend(a, [row]);
    IngestAppend(a, b);
    assert [row][1..] == [];
  }
}
