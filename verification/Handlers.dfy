/** The three requests that write to the report table, each run from start to end: a message
    received, a file uploaded, a report generated again. */
module Handlers {
  import opened Basics
  import opened Storage
  import opened Lifecycle

  /** The analyzer: a report for a message, a test and where the message came from, or none. */
  type Analyzer = (string, Id, string) -> Option<Json>

  /** A report always records the provenance it was asked for. */
  ghost predicate Records(analyze: Analyzer) {
    forall raw, testId, source ::
      analyze(raw, testId, source).Some? ==> IsAnalysis(analyze(raw, testId, source).value, raw, testId, source)
  }

  datatype Answer = Done | Disabled | Invalid | NotFound | AnalysisFailed | StorageFailed

  class EmailReceiver {
    const storage: DbStorage
    const analyze: Analyzer

    constructor (storage: DbStorage, analyze: Analyzer)
      ensures this.storage == storage && this.analyze == analyze
    {
      this.storage := storage;
      this.analyze := analyze;
    }

    /** `recipient` is the test the address stands for, if any. */
    method ProcessEmailBytes(raw: string, recipient: Option<Id>, key: Id, now: Time) returns (answer: Answer)
      modifies storage
      ensures (storage.rows, answer) == Delivered(old(storage.rows), analyze, raw, recipient, key, now)
    {
      if recipient.None? {
        return Invalid;
      }
      var testId := recipient.value;
      var known := storage.ReportExists(testId);
      if known {
        return Done;
      }
      var result := analyze(raw, testId, RECEIVED);
      if result.None? {
        return AnalysisFailed;
      }
      var ok := storage.CreateReport(Row(key, testId, raw, result.value, now, RECEIVED));
      return if ok then Done else StorageFailed;
    }
  }

  class ApiHandler {
    const storage: DbStorage
    const analyze: Analyzer
    const disableEmlUpload: bool

    constructor (storage: DbStorage, analyze: Analyzer, disableEmlUpload: bool)
      ensures this.storage == storage && this.analyze == analyze && this.disableEmlUpload == disableEmlUpload
    {
      this.storage := storage;
      this.analyze := analyze;
      this.disableEmlUpload := disableEmlUpload;
    }

    /** `file` is the message uploaded, if it could be read; `testId` is drawn for it. */
    method UploadEml(file: Option<string>, testId: Id, key: Id, now: Time) returns (answer: Answer)
      modifies storage
      ensures disableEmlUpload ==> answer == Disabled && storage.rows == old(storage.rows)
      ensures !disableEmlUpload ==>
                (storage.rows, answer) == Uploaded(old(storage.rows), analyze, file, testId, key, now)
    {
      if disableEmlUpload {
        return Disabled;
      }
      if file.None? {
        return Invalid;
      }
      var result := analyze(file.value, testId, UPLOADED);
      if result.None? {
        return AnalysisFailed;
      }
      var ok := storage.CreateReport(Row(key, testId, file.value, result.value, now, UPLOADED));
      return if ok then Done else StorageFailed;
    }

    /** `id` is the test the address of the request stands for, if any. */
    method ReanalyzeReport(id: Option<Id>) returns (answer: Answer)
      modifies storage
      ensures (storage.rows, answer) == Reanalyzed(old(storage.rows), analyze, id)
    {
      if id.None? {
        return Invalid;
      }
      var previous := storage.GetReport(id.value);
      if previous.None? {
        return NotFound;
      }
      var result := analyze(previous.value.raw, id.value, ReportSource(previous.value.json));
      if result.None? {
        return AnalysisFailed;
      }
      var found := storage.UpdateReport(id.value, result.value);
      return if found then Done else StorageFailed;
    }
  }

  // ---------------------------------------------------------------- what each makes of the table

  function Inserted(rows: seq<Row>, row: Row): (seq<Row>, Answer) {
    (Created(rows, row), if HasTest(rows, row.testId) || HasId(rows, row.id) then StorageFailed else Done)
  }

  function Delivered(rows: seq<Row>, analyze: Analyzer, raw: string, recipient: Option<Id>, key: Id, now: Time): (seq<Row>, Answer) {
    if recipient.None? then (rows, Invalid)
    else if HasTest(rows, recipient.value) then (rows, Done)
    else
      var result := analyze(raw, recipient.value, RECEIVED);
      if result.None? then (rows, AnalysisFailed)
      else Inserted(rows, Row(key, recipient.value, raw, result.value, now, RECEIVED))
  }

  function Uploaded(rows: seq<Row>, analyze: Analyzer, file: Option<string>, testId: Id, key: Id, now: Time): (seq<Row>, Answer) {
    if file.None? then (rows, Invalid)
    else
      var result := analyze(file.value, testId, UPLOADED);
      if result.None? then (rows, AnalysisFailed)
      else Inserted(rows, Row(key, testId, file.value, result.value, now, UPLOADED))
  }

  function Reanalyzed(rows: seq<Row>, analyze: Analyzer, id: Option<Id>): (seq<Row>, Answer) {
    if id.None? then (rows, Invalid)
    else
      var previous := Newest(rows, id.value);
      if previous.None? then (rows, NotFound)
      else
        var result := analyze(previous.value.raw, id.value, ReportSource(previous.value.json));
        if result.None? then (rows, AnalysisFailed)
        else (Updated(rows, id.value, result.value), Done)
  }

  // ---------------------------------------------------------------- what comes of a request

  predicate NoRow(rows: seq<Row>, testId: Id) {
    forall i :: 0 <= i < |rows| ==> rows[i].testId != testId
  }

  predicate FreshKey(rows: seq<Row>, key: Id) {
    forall i :: 0 <= i < |rows| ==> rows[i].id != key
  }

  /** A delivery adds the analysis of its message, as a message received, to a test that has no
      row; its answer says what, if anything, stood in the way. */
  lemma DeliveryOutcome(rows: seq<Row>, analyze: Analyzer, raw: string, testId: Id, key: Id, now: Time)
    ensures Delivered(rows, analyze, raw, None, key, now) == (rows, Invalid)
    ensures var (after, answer) := Delivered(rows, analyze, raw, Some(testId), key, now);
            var report := analyze(raw, testId, "received");
            && answer in {Done, AnalysisFailed, StorageFailed}
            && (answer == AnalysisFailed <==> NoRow(rows, testId) && report.None?)
            && (answer == StorageFailed <==> NoRow(rows, testId) && report.Some? && !FreshKey(rows, key))
            && after == if NoRow(rows, testId) && report.Some? && FreshKey(rows, key)
                        then rows + [Row(key, testId, raw, report.value, now, "received")] else rows
  {
  }

  /** An upload does the same, as a message uploaded, and fails where a delivery has nothing to do. */
  lemma UploadOutcome(rows: seq<Row>, analyze: Analyzer, file: string, testId: Id, key: Id, now: Time)
    ensures Uploaded(rows, analyze, None, testId, key, now) == (rows, Invalid)
    ensures var (after, answer) := Uploaded(rows, analyze, Some(file), testId, key, now);
            var report := analyze(file, testId, "uploaded");
            && answer in {Done, AnalysisFailed, StorageFailed}
            && (answer == AnalysisFailed <==> report.None?)
            && (answer == Done <==> report.Some? && NoRow(rows, testId) && FreshKey(rows, key))
            && after == if answer == Done then rows + [Row(key, testId, file, report.value, now, "uploaded")] else rows
  {
  }

  /** A reanalysis replaces the report of the row of its test by a new one of the same message,
      for the same test and with the provenance recorded, and changes nothing else. */
  lemma ReanalysisOutcome(rows: seq<Row>, analyze: Analyzer, testId: Id, i: nat)
    requires Unique(rows) && i < |rows|
    ensures var (after, answer) := Reanalyzed(rows, analyze, Some(testId));
            var report := analyze(rows[i].raw, rows[i].testId, ReportSource(rows[i].json));
            && |after| == |rows|
            && (rows[i].testId == testId ==> answer == if report.Some? then Done else AnalysisFailed)
            && after[i] == if rows[i].testId == testId && report.Some? then rows[i].(json := report.value) else rows[i]
  {
    if rows[i].testId == testId {
      assert HasTest(rows, testId);
      UniqueRows(rows, rows[i], Newest(rows, testId).value);
    }
  }

  /** Where there is no such test, or none is named, it says so and changes nothing. */
  lemma NothingToReanalyze(rows: seq<Row>, analyze: Analyzer, testId: Id)
    requires NoRow(rows, testId)
    ensures Reanalyzed(rows, analyze, Some(testId)) == (rows, NotFound)
    ensures Reanalyzed(rows, analyze, None) == (rows, Invalid)
  {
  }

  // ---------------------------------------------------------------- each is its steps in a row

  /** The events happen one after the other, from one state to another. */
  predicate Leads(s: State, events: seq<Event>, s': State)
    decreases |events|
  {
    if events == [] then s == s'
    else Step(s, events[0]).Some? && Leads(Step(s, events[0]).value, events[1..], s')
  }

  lemma Then(s: State, e: Event, mid: State, rest: seq<Event>, s': State)
    requires Step(s, e) == Some(mid) && Leads(mid, rest, s')
    ensures Leads(s, [e] + rest, s')
  {
  }

  /** A request that is over leaves the requests in flight as they were. */
  lemma EndedAfresh(s: State, pid: Pid, p: Process)
    requires !InFlight(s, pid)
    ensures s.procs[pid := p] - {pid} == s.procs
  {
  }

  /** A delivery nothing comes between does to the table what its steps do to it one by one. */
  lemma DeliveryIsItsSteps(s: State, pid: Pid, analyze: Analyzer, raw: string, testId: Id, key: Id, now: Time)
    returns (events: seq<Event>, s': State)
    requires !InFlight(s, pid) && key !in s.used && Records(analyze)
    ensures Leads(s, events, s')
    ensures s'.rows == Delivered(s.rows, analyze, raw, Some(testId), key, now).0 && s'.procs == s.procs
  {
    hide Created, HasId, HasTest;
    var result := analyze(raw, testId, RECEIVED);
    var check := DeliverCheck(pid, testId, raw);
    var s1 := Step(s, check).value;
    if HasTest(s.rows, testId) {
      events, s' := [check] + [], s;
      Then(s, check, s, [], s);
    } else if result.None? {
      EndedAfresh(s, pid, DeliveryChecked(testId, raw));
      s' := Step(s1, Abort(pid)).value;
      Then(s1, Abort(pid), s', [], s');
      Then(s, check, s1, [Abort(pid)] + [], s');
      events := [check] + ([Abort(pid)] + []);
    } else {
      var analyzed, store := DeliverAnalyze(pid, result.value), DeliverStore(pid, key, now);
      EndedAfresh(s, pid, DeliveryAnalyzed(testId, raw, result.value));
      var s2 := Step(s1, analyzed).value;
      s' := Step(s2, store).value;
      Then(s2, store, s', [], s');
      Then(s1, analyzed, s2, [store] + [], s');
      Then(s, check, s1, [analyzed] + ([store] + []), s');
      events := [check] + ([analyzed] + ([store] + []));
    }
  }

  /** So does an upload. */
  lemma UploadIsItsSteps(s: State, pid: Pid, analyze: Analyzer, raw: string, testId: Id, key: Id, now: Time)
    returns (events: seq<Event>, s': State)
    requires !InFlight(s, pid) && key !in s.used && Records(analyze)
    ensures Leads(s, events, s')
    ensures s'.rows == Uploaded(s.rows, analyze, Some(raw), testId, key, now).0 && s'.procs == s.procs
  {
    hide Created, HasId, HasTest;
    var result := analyze(raw, testId, UPLOADED);
    if result.None? {
      events, s' := [], s;
    } else {
      var analyzed, store := UploadAnalyze(pid, testId, raw, result.value), UploadStore(pid, key, now);
      EndedAfresh(s, pid, UploadAnalyzed(testId, raw, result.value));
      var s1 := Step(s, analyzed).value;
      s' := Step(s1, store).value;
      Then(s1, store, s', [], s');
      Then(s, analyzed, s1, [store] + [], s');
      events := [analyzed] + ([store] + []);
    }
  }

  /** So does a reanalysis. */
  lemma ReanalysisIsItsSteps(s: State, pid: Pid, analyze: Analyzer, testId: Id)
    returns (events: seq<Event>, s': State)
    requires !InFlight(s, pid) && Records(analyze)
    ensures Leads(s, events, s')
    ensures s'.rows == Reanalyzed(s.rows, analyze, Some(testId)).0 && s'.procs == s.procs
  {
    hide Updated, HasTest, Newest, ReportSource;
    var read := ReanalyzeRead(pid, testId);
    var r := Newest(s.rows, testId);
    var s1 := Step(s, read).value;
    if r.None? {
      events, s' := [read] + [], s;
      Then(s, read, s, [], s);
    } else {
      var source := ReportSource(r.value.json);
      var result := analyze(r.value.raw, testId, source);
      if result.None? {
        EndedAfresh(s, pid, ReanalysisRead(testId, r.value.id, r.value.raw, source));
        s' := Step(s1, Abort(pid)).value;
        Then(s1, Abort(pid), s', [], s');
        Then(s, read, s1, [Abort(pid)] + [], s');
        events := [read] + ([Abort(pid)] + []);
      } else {
        var analyzed, write := ReanalyzeAnalyze(pid, result.value), ReanalyzeWrite(pid);
        EndedAfresh(s, pid, ReanalysisAnalyzed(testId, r.value.id, r.value.raw, source, result.value));
        var s2 := Step(s1, analyzed).value;
        s' := Step(s2, write).value;
        Then(s2, write, s', [], s');
        Then(s1, analyzed, s2, [write] + [], s');
        Then(s, read, s1, [analyzed] + ([write] + []), s');
        events := [read] + ([analyzed] + ([write] + []));
      }
    }
  }

  // ---------------------------------------------------------------- provenance, undisturbed

  /** A reanalysis nothing comes between changes the provenance of no row, whatever the rows
      record, and nothing else of a row but its report. */
  lemma ReanalysisKeepsSources(rows: seq<Row>, analyze: Analyzer, id: Option<Id>, i: nat)
    requires Unique(rows) && Records(analyze) && i < |rows|
    ensures var after := Reanalyzed(rows, analyze, id).0;
            && |after| == |rows|
            && SameRow(rows[i], after[i])
            && ReportSource(after[i].json) == ReportSource(rows[i].json)
  {
  }

  /** A message delivered again to a test that has a report changes nothing, and says it is done. */
  lemma SecondDeliveryIgnored(rows: seq<Row>, analyze: Analyzer, raw: string, again: string, testId: Id, key: Id, key': Id, now: Time, later: Time)
    ensures var (once, answer) := Delivered(rows, analyze, raw, Some(testId), key, now);
            answer == Done ==> Delivered(once, analyze, again, Some(testId), key', later) == (once, Done)
  {
    var (once, answer) := Delivered(rows, analyze, raw, Some(testId), key, now);
    if answer == Done && !HasTest(rows, testId) {
      assert once[|rows|].testId == testId;
    }
  }
}
