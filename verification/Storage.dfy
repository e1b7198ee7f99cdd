/** The report table: rows with a unique test identifier, updated in place. */
module Storage {
  import opened Basics

  type Id = nat
  type Time = int

  const RECEIVED := "received"
  const UPLOADED := "uploaded"

  predicate IsSource(s: string) {
    s == RECEIVED || s == UPLOADED
  }

  /** A stored report: text nobody can read, or one that records where its message came from.
      `test` and `raw` are the test and the message it was computed from. */
  datatype Json = Unreadable | Json(source: string, test: Id, raw: string, body: string)

  /** A row; `origin` is the provenance its report recorded when the row was created. */
  datatype Row = Row(id: Id, testId: Id, raw: string, json: Json, createdAt: Time, origin: string)

  /** The provenance a stored report records, a received message when it records none. */
  function ReportSource(json: Json): (s: string)
    ensures IsSource(s)
    ensures s == "uploaded" <==> json.Json? && json.source == "uploaded"
  {
    if json.Unreadable? || !IsSource(json.source) then RECEIVED else json.source
  }

  // ---------------------------------------------------------------- the table as a value

  predicate HasTest(rows: seq<Row>, testId: Id) {
    exists i :: 0 <= i < |rows| && rows[i].testId == testId
  }

  predicate HasId(rows: seq<Row>, id: Id) {
    exists i :: 0 <= i < |rows| && rows[i].id == id
  }

  /** The newest row of a test, the first of them on a tie. */
  function Newest(rows: seq<Row>, testId: Id): (r: Option<Row>)
    ensures r.Some? <==> HasTest(rows, testId)
    ensures r.Some? ==> r.value in rows && r.value.testId == testId
                        && forall i :: 0 <= i < |rows| && rows[i].testId == testId ==> rows[i].createdAt <= r.value.createdAt
  {
    if rows == [] then None
    else
      var n := |rows| - 1;
      var before := Newest(rows[..n], testId);
      assert forall i :: 0 <= i < n ==> rows[..n][i] == rows[i];
      if rows[n].testId == testId && (before.None? || before.value.createdAt < rows[n].createdAt) then Some(rows[n])
      else before
  }

  /** The table with a row added at its end, or as it was when another has its test or its key. */
  function Created(rows: seq<Row>, row: Row): (r: seq<Row>)
    ensures r == rows || r == rows + [row]
    ensures r == rows + [row] <==> forall i :: 0 <= i < |rows| ==> rows[i].testId != row.testId && rows[i].id != row.id
  {
    if HasTest(rows, row.testId) || HasId(rows, row.id) then rows else rows + [row]
  }

  function Updated(rows: seq<Row>, testId: Id, json: Json): (r: seq<Row>)
    ensures |r| == |rows|
    ensures forall i :: 0 <= i < |rows| ==> r[i] == if rows[i].testId == testId then rows[i].(json := json) else rows[i]
  {
    seq(|rows|, i requires 0 <= i < |rows| => if rows[i].testId == testId then rows[i].(json := json) else rows[i])
  }

  /** The rows that are not older than a time, in order. */
  function Recent(rows: seq<Row>, olderThan: Time): (r: seq<Row>)
    ensures forall row :: row in r <==> row in rows && row.createdAt >= olderThan
    ensures |r| <= |rows|
  {
    if rows == [] then []
    else
      var n := |rows| - 1;
      assert rows == rows[..n] + [rows[n]];
      Recent(rows[..n], olderThan) + if rows[n].createdAt < olderThan then [] else [rows[n]]
  }

  /** What is kept of two tables together is what is kept of each, in order. */
  lemma {:induction false} RecentConcat(a: seq<Row>, b: seq<Row>, olderThan: Time)
    ensures Recent(a + b, olderThan) == Recent(a, olderThan) + Recent(b, olderThan)
    decreases |b|
  {
    if b == [] {
      assert a + b == a;
    } else {
      var n := |b| - 1;
      assert (a + b)[..|a + b| - 1] == a + b[..n];
      RecentConcat(a, b[..n], olderThan);
    }
  }

  // ---------------------------------------------------------------- the table in place

  class DbStorage {
    var rows: seq<Row>

    constructor ()
      ensures rows == []
    {
      rows := [];
    }

    /** Adds a row, unless its test or its key is taken: both carry a unique index. */
    method CreateReport(row: Row) returns (ok: bool)
      modifies this
      ensures rows == Created(old(rows), row)
      ensures ok <==> !HasTest(old(rows), row.testId) && !HasId(old(rows), row.id)
    {
      for i := 0 to |rows|
        invariant rows == old(rows)
        invariant forall k :: 0 <= k < i ==> rows[k].testId != row.testId && rows[k].id != row.id
      {
        if rows[i].testId == row.testId || rows[i].id == row.id {
          return false;
        }
      }
      rows := rows + [row];
      return true;
    }

    method ReportExists(testId: Id) returns (exists_: bool)
      ensures exists_ <==> HasTest(rows, testId)
    {
      for i := 0 to |rows|
        invariant forall k :: 0 <= k < i ==> rows[k].testId != testId
      {
        if rows[i].testId == testId {
          return true;
        }
      }
      return false;
    }

    /** The newest report of a test and the message it is about. */
    method GetReport(testId: Id) returns (r: Option<Row>)
      ensures r == Newest(rows, testId)
    {
      r := None;
      for i := 0 to |rows|
        invariant r == Newest(rows[..i], testId)
      {
        assert rows[..i + 1][..i] == rows[..i];
        if rows[i].testId == testId && (r.None? || r.value.createdAt < rows[i].createdAt) {
          r := Some(rows[i]);
        }
      }
      assert rows[..|rows|] == rows;
    }

    /** Replaces the report of a test, if the test has one. */
    method UpdateReport(testId: Id, json: Json) returns (found: bool)
      modifies this
      ensures rows == Updated(old(rows), testId, json)
      ensures found <==> HasTest(old(rows), testId)
    {
      found := false;
      for i := 0 to |rows|
        invariant |rows| == |old(rows)|
        invariant forall k :: 0 <= k < i ==> rows[k] == Updated(old(rows), testId, json)[k]
        invariant forall k :: i <= k < |rows| ==> rows[k] == old(rows)[k]
        invariant found <==> exists k :: 0 <= k < i && old(rows)[k].testId == testId
      {
        if rows[i].testId == testId {
          rows := rows[i := rows[i].(json := json)];
          found := true;
        }
      }
    }

    method DeleteOldReports(olderThan: Time) returns (deleted: nat)
      modifies this
      ensures rows == Recent(old(rows), olderThan)
      ensures deleted == |old(rows)| - |rows|
    {
      var kept: seq<Row> := [];
      for i := 0 to |rows|
        invariant rows == old(rows) && kept == Recent(rows[..i], olderThan)
      {
        assert rows[..i + 1][..i] == rows[..i];
        if rows[i].createdAt >= olderThan {
          kept := kept + [rows[i]];
        }
      }
      assert rows[..|rows|] == rows;
      deleted := |rows| - |kept|;
      rows := kept;
    }
  }
}
