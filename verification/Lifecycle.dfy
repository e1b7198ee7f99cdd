/** The life of a report: deliveries, uploads, reanalyses and cleanups, each a few steps on the
    shared table, interleaved in any order. */
module Lifecycle {
  import opened Basics
  import opened Storage

  type Pid = nat

  /** A request in flight, between two of its steps. `rowId` is the row a reanalysis has read. */
  datatype Process =
    | DeliveryChecked(testId: Id, raw: string)
    | DeliveryAnalyzed(testId: Id, raw: string, json: Json)
    | UploadAnalyzed(testId: Id, raw: string, json: Json)
    | ReanalysisRead(testId: Id, rowId: Id, raw: string, source: string)
    | ReanalysisAnalyzed(testId: Id, rowId: Id, raw: string, source: string, json: Json)

  /** The table, the keys it has ever given out, and the requests in flight. */
  datatype State = State(rows: seq<Row>, used: set<Id>, procs: map<Pid, Process>)

  const EMPTY := State([], {}, map[])

  datatype Event =
    | DeliverCheck(pid: Pid, testId: Id, raw: string)
    | DeliverAnalyze(pid: Pid, json: Json)
    | DeliverStore(pid: Pid, rowId: Id, now: Time)
    | UploadAnalyze(pid: Pid, testId: Id, raw: string, json: Json)
    | UploadStore(pid: Pid, rowId: Id, now: Time)
    | ReanalyzeRead(pid: Pid, testId: Id)
    | ReanalyzeAnalyze(pid: Pid, json: Json)
    | ReanalyzeWrite(pid: Pid)
    | Cleanup(olderThan: Time)
    | Abort(pid: Pid)

  // ---------------------------------------------------------------- what a step may do

  /** The analyzer computes a report from the message and the test it is given, and records the
      provenance it is told, a received message by default. */
  predicate IsAnalysis(json: Json, raw: string, testId: Id, source: string) {
    json.Json? && json.raw == raw && json.test == testId && json.source == if source == "" then RECEIVED else source
  }

  predicate InFlight(s: State, pid: Pid) {
    pid in s.procs
  }

  function Ended(s: State, pid: Pid): State {
    s.(procs := s.procs - {pid})
  }

  /** Creating a row: refused when the test has one; row keys are drawn afresh. */
  function Stored(s: State, pid: Pid, row: Row): State {
    Ended(s, pid).(rows := Created(s.rows, row), used := s.used + {row.id})
  }

  /** The state after an event, when the event can happen. */
  function Step(s: State, e: Event): Option<State> {
    match e
    case DeliverCheck(pid, testId, raw) =>
      if InFlight(s, pid) then None
      else if HasTest(s.rows, testId) then Some(s)
      else Some(s.(procs := s.procs[pid := DeliveryChecked(testId, raw)]))
    case DeliverAnalyze(pid, json) =>
      if InFlight(s, pid) && s.procs[pid].DeliveryChecked?
         && IsAnalysis(json, s.procs[pid].raw, s.procs[pid].testId, RECEIVED) then
        Some(s.(procs := s.procs[pid := DeliveryAnalyzed(s.procs[pid].testId, s.procs[pid].raw, json)]))
      else None
    case DeliverStore(pid, rowId, now) =>
      if InFlight(s, pid) && s.procs[pid].DeliveryAnalyzed? && rowId !in s.used then
        var p := s.procs[pid];
        Some(Stored(s, pid, Row(rowId, p.testId, p.raw, p.json, now, RECEIVED)))
      else None
    case UploadAnalyze(pid, testId, raw, json) =>
      if InFlight(s, pid) || !IsAnalysis(json, raw, testId, UPLOADED) then None
      else Some(s.(procs := s.procs[pid := UploadAnalyzed(testId, raw, json)]))
    case UploadStore(pid, rowId, now) =>
      if InFlight(s, pid) && s.procs[pid].UploadAnalyzed? && rowId !in s.used then
        var p := s.procs[pid];
        Some(Stored(s, pid, Row(rowId, p.testId, p.raw, p.json, now, UPLOADED)))
      else None
    case ReanalyzeRead(pid, testId) =>
      if InFlight(s, pid) then None
      else
        var r := Newest(s.rows, testId);
        if r.None? then Some(s)
        else Some(s.(procs := s.procs[pid := ReanalysisRead(testId, r.value.id, r.value.raw, ReportSource(r.value.json))]))
    case ReanalyzeAnalyze(pid, json) =>
      if InFlight(s, pid) && s.procs[pid].ReanalysisRead?
         && IsAnalysis(json, s.procs[pid].raw, s.procs[pid].testId, s.procs[pid].source) then
        var p := s.procs[pid];
        Some(s.(procs := s.procs[pid := ReanalysisAnalyzed(p.testId, p.rowId, p.raw, p.source, json)]))
      else None
    case ReanalyzeWrite(pid) =>
      if InFlight(s, pid) && s.procs[pid].ReanalysisAnalyzed? then
        Some(Ended(s, pid).(rows := Updated(s.rows, s.procs[pid].testId, s.procs[pid].json)))
      else None
    case Cleanup(olderThan) => Some(s.(rows := Recent(s.rows, olderThan)))
    case Abort(pid) => if InFlight(s, pid) then Some(Ended(s, pid)) else None
  }

  /** A run: states from the empty table on, each reached from the one before by an event. */
  predicate IsRun(states: seq<State>, events: seq<Event>) {
    && |states| == |events| + 1
    && states[0] == EMPTY
    && forall i :: 0 <= i < |events| ==> Step(states[i], events[i]) == Some(states[i + 1])
  }

  // ---------------------------------------------------------------- one row a test

  predicate Unique(rows: seq<Row>) {
    forall i, j :: 0 <= i < j < |rows| ==> rows[i].testId != rows[j].testId && rows[i].id != rows[j].id
  }

  predicate Keyed(s: State) {
    forall i :: 0 <= i < |s.rows| ==> s.rows[i].id in s.used
  }

  lemma CreatedUnique(rows: seq<Row>, row: Row)
    requires Unique(rows)
    ensures Unique(Created(rows, row))
  {
  }

  lemma {:induction false} RecentUnique(rows: seq<Row>, olderThan: Time)
    requires Unique(rows)
    ensures Unique(Recent(rows, olderThan))
  {
    hide Recent;
    RecentSnoc(rows, olderThan);
    if rows != [] {
      var n := |rows| - 1;
      RecentUnique(rows[..n], olderThan);
      forall row | row in Recent(rows[..n], olderThan)
        ensures row.testId != rows[n].testId && row.id != rows[n].id
      {
        assert row in rows[..n];
      }
    }
  }

  lemma RecentSnoc(rows: seq<Row>, olderThan: Time)
    ensures Recent(rows, olderThan) ==
              if rows == [] then []
              else
                var n := |rows| - 1;
                Recent(rows[..n], olderThan) + if rows[n].createdAt < olderThan then [] else [rows[n]]
  {
  }

  /** Rows of a unique table are told apart by their key and by their test. */
  lemma UniqueRows(rows: seq<Row>, a: Row, b: Row)
    requires Unique(rows) && a in rows && b in rows
    ensures a.id == b.id <==> a == b
    ensures a.testId == b.testId <==> a == b
  {
  }

  // ---------------------------------------------------------------- what every step keeps

  /** The provenance recorded by what a request is about to store. */
  predicate Sourced(p: Process) {
    match p
    case DeliveryChecked(_, _) => true
    case DeliveryAnalyzed(testId, raw, json) => IsAnalysis(json, raw, testId, RECEIVED)
    case UploadAnalyzed(testId, raw, json) => IsAnalysis(json, raw, testId, UPLOADED)
    case ReanalysisRead(_, _, _, source) => IsSource(source)
    case ReanalysisAnalyzed(testId, _, raw, source, json) => IsSource(source) && IsAnalysis(json, raw, testId, source)
  }

  predicate IsReanalysis(p: Process) {
    p.ReanalysisRead? || p.ReanalysisAnalyzed?
  }

  /** As long as the row a reanalysis has read lives, it is the row of its test, with the
      message it has read. */
  predicate Follows(p: Process, rows: seq<Row>) {
    IsReanalysis(p) ==>
      forall row :: row in rows && row.id == p.rowId ==> row.testId == p.testId && row.raw == p.raw
  }

  ghost predicate Inv(s: State) {
    && Unique(s.rows) && Keyed(s)
    && (forall pid :: pid in s.procs ==> Sourced(s.procs[pid]) && Follows(s.procs[pid], s.rows))
    && (forall pid :: pid in s.procs && IsReanalysis(s.procs[pid]) ==> s.procs[pid].rowId in s.used)
  }

  /** A row and its later self: only its report may have changed. */
  predicate SameRow(a: Row, b: Row) {
    a.id == b.id && a.testId == b.testId && a.raw == b.raw && a.createdAt == b.createdAt && a.origin == b.origin
  }

  /** A row kept through a step is the same row, its report apart. */
  ghost predicate RowsKept(s: State, s': State) {
    forall a, b :: a in s.rows && b in s'.rows && a.id == b.id ==> SameRow(a, b)
  }

  /** Every row of the later table was there before, or carries a key never used before. */
  ghost predicate RowsComeFrom(s: State, s': State) {
    forall b :: b in s'.rows && b.id in s.used ==> exists a :: a in s.rows && SameRow(a, b)
  }

  lemma UpdatedRow(rows: seq<Row>, testId: Id, json: Json, b: Row) returns (a: Row)
    requires b in Updated(rows, testId, json)
    ensures a in rows && SameRow(a, b) && b == if a.testId == testId then a.(json := json) else a
  {
    var i :| 0 <= i < |rows| && Updated(rows, testId, json)[i] == b;
    a := rows[i];
  }

  /** The rows after a step: unique, and each the later self of a row before, or new. */
  lemma StepRows(s: State, e: Event, s': State)
    requires Inv(s) && Step(s, e) == Some(s')
    ensures Unique(s'.rows) && Keyed(s') && RowsComeFrom(s, s')
  {
    match e
    case Cleanup(olderThan) =>
      RecentUnique(s.rows, olderThan);
      forall i | 0 <= i < |s'.rows|
        ensures s'.rows[i].id in s.used
      {
        assert s'.rows[i] in s.rows;
      }
    case ReanalyzeWrite(pid) =>
      forall b | b in s'.rows
        ensures exists a :: a in s.rows && SameRow(a, b)
      {
        var a := UpdatedRow(s.rows, s.procs[pid].testId, s.procs[pid].json, b);
      }
    case DeliverStore(pid, rowId, now) =>
      CreatedUnique(s.rows, Row(rowId, s.procs[pid].testId, s.procs[pid].raw, s.procs[pid].json, now, RECEIVED));
    case UploadStore(pid, rowId, now) =>
      CreatedUnique(s.rows, Row(rowId, s.procs[pid].testId, s.procs[pid].raw, s.procs[pid].json, now, UPLOADED));
    case _ =>
  }

  lemma StepUsed(s: State, e: Event, s': State)
    requires Step(s, e) == Some(s')
    ensures s.used <= s'.used
  {
  }

  /** The reanalysis has just read the row. */
  predicate Reads(p: Process, row: Row)
    requires IsReanalysis(p)
  {
    row.id == p.rowId && row.testId == p.testId && row.raw == p.raw && p.source == ReportSource(row.json)
  }

  /** The reanalysis is the one that was in flight before. */
  predicate CarriesOn(p: Process, q: Process)
    requires IsReanalysis(p)
  {
    IsReanalysis(q) && q.rowId == p.rowId && q.testId == p.testId && q.raw == p.raw && q.source == p.source
  }

  /** A reanalysis in flight after a step either has just read a row of an unchanged table, or
      was in flight before. */
  lemma StepProcs(s: State, e: Event, s': State, pid: Pid) returns (read: bool, row: Row)
    requires Inv(s) && Step(s, e) == Some(s') && pid in s'.procs
    ensures Sourced(s'.procs[pid])
    ensures IsReanalysis(s'.procs[pid]) ==>
              if read then s'.rows == s.rows && row in s.rows && Reads(s'.procs[pid], row)
              else pid in s.procs && CarriesOn(s'.procs[pid], s.procs[pid])
  {
    hide Follows;
    read := false;
    row := Row(0, 0, "", Unreadable, 0, "");
    if e.ReanalyzeRead? && e.pid == pid {
      read := true;
      if HasTest(s.rows, e.testId) {
        row := Newest(s.rows, e.testId).value;
      } else {
        read := false;
      }
    }
  }

  /** The earlier self of a row whose key was in use before the step. */
  lemma EarlierSelf(s: State, s': State, b: Row) returns (a: Row)
    requires RowsComeFrom(s, s') && b in s'.rows && b.id in s.used
    ensures a in s.rows && SameRow(a, b)
  {
    a :| a in s.rows && SameRow(a, b);
  }

  lemma StepKeepsRows(s: State, e: Event, s': State)
    requires Inv(s) && Step(s, e) == Some(s')
    ensures RowsKept(s, s')
  {
    hide Step, Sourced, Follows;
    StepRows(s, e, s');
    forall a, b | a in s.rows && b in s'.rows && a.id == b.id
      ensures SameRow(a, b)
    {
      var c := EarlierSelf(s, s', b);
      UniqueRows(s.rows, a, c);
    }
  }

  /** A request goes on following its row through a step. */
  lemma StepFollows(s: State, e: Event, s': State, pid: Pid)
    requires Inv(s) && Step(s, e) == Some(s') && pid in s'.procs
    ensures Follows(s'.procs[pid], s'.rows)
    ensures IsReanalysis(s'.procs[pid]) ==> s'.procs[pid].rowId in s.used
  {
    hide Step, Sourced, SameRow;
    var read, r := StepProcs(s, e, s', pid);
    StepRows(s, e, s');
    var p := s'.procs[pid];
    if IsReanalysis(p) {
      forall row | row in s'.rows && row.id == p.rowId
        ensures row.testId == p.testId && row.raw == p.raw
      {
        if read {
          UniqueRows(s.rows, row, r);
        } else {
          var c := EarlierSelf(s, s', row);
          SameRowFields(c, row);
        }
      }
    }
  }

  lemma SameRowFields(a: Row, b: Row)
    requires SameRow(a, b)
    ensures a.id == b.id && a.testId == b.testId && a.raw == b.raw && a.origin == b.origin
  {
  }

  /** Every event keeps the invariant: one row a test, and every request in flight still about
      the message it was given. */
  lemma StepKeepsInv(s: State, e: Event, s': State)
    requires Inv(s) && Step(s, e) == Some(s')
    ensures Inv(s') && RowsKept(s, s')
  {
    hide Step, Sourced, Follows, RowsKept, RowsComeFrom, Unique;
    StepRows(s, e, s');
    StepUsed(s, e, s');
    StepKeepsRows(s, e, s');
    forall pid | pid in s'.procs
      ensures Sourced(s'.procs[pid]) && Follows(s'.procs[pid], s'.rows)
      ensures IsReanalysis(s'.procs[pid]) ==> s'.procs[pid].rowId in s'.used
    {
      var _, _ := StepProcs(s, e, s', pid);
      StepFollows(s, e, s', pid);
    }
  }

  // ---------------------------------------------------------------- whole runs

  lemma {:induction false} RunKeepsInv(states: seq<State>, events: seq<Event>, i: nat)
    requires IsRun(states, events) && i < |states|
    ensures Inv(states[i])
    decreases i
  {
    hide Step, Inv;
    if i == 0 {
      EmptyInv();
    } else {
      RunKeepsInv(states, events, i - 1);
      StepKeepsInv(states[i - 1], events[i - 1], states[i]);
    }
  }

  lemma EmptyInv()
    ensures Inv(EMPTY)
  {
  }

  /** In every interleaving, a test has at most one row. */
  lemma OneRowPerTest(states: seq<State>, events: seq<Event>, i: nat, a: Row, b: Row)
    requires IsRun(states, events) && i < |states|
    requires a in states[i].rows && b in states[i].rows && a.testId == b.testId
    ensures a == b
  {
    RunKeepsInv(states, events, i);
    UniqueRows(states[i].rows, a, b);
  }

  predicate Lives(s: State, id: Id) {
    exists row :: row in s.rows && row.id == id
  }

  /** In every interleaving, the message of a row never changes while the row lives, nor does
      anything of it but its report. */
  lemma {:induction false} RowStable(states: seq<State>, events: seq<Event>, i: nat, j: nat, a: Row, b: Row)
    requires IsRun(states, events) && i <= j < |states|
    requires forall k :: i <= k <= j ==> Lives(states[k], a.id)
    requires a in states[i].rows && b in states[j].rows && a.id == b.id
    ensures SameRow(a, b)
    decreases j - i
  {
    hide Step, SameRow, Inv;
    RunKeepsInv(states, events, i);
    if i == j {
      InvUnique(states[i]);
      UniqueRows(states[i].rows, a, b);
      SameRowSelf(a);
    } else {
      assert Lives(states[i + 1], a.id);
      var c :| c in states[i + 1].rows && c.id == a.id;
      StepKeepsInv(states[i], events[i], states[i + 1]);
      assert SameRow(a, c);
      RowStable(states, events, i + 1, j, c, b);
      SameRowTwice(a, c, b);
    }
  }

  lemma InvUnique(s: State)
    requires Inv(s)
    ensures Unique(s.rows) && Keyed(s)
  {
  }

  lemma SameRowSelf(a: Row)
    ensures SameRow(a, a)
  {
  }

  lemma SameRowTwice(a: Row, b: Row, c: Row)
    requires SameRow(a, b) && SameRow(b, c)
    ensures SameRow(a, c)
  {
  }

  // ---------------------------------------------------------------- provenance

  /** Every row records the provenance it was created with. */
  ghost predicate Honest(s: State) {
    forall row :: row in s.rows ==> ReportSource(row.json) == row.origin
  }

  /** A reanalysis whose row still lives has read the provenance the row was created with. */
  ghost predicate Faithful(s: State) {
    forall pid, row :: pid in s.procs && IsReanalysis(s.procs[pid]) && row in s.rows && row.id == s.procs[pid].rowId
      ==> s.procs[pid].source == row.origin
  }

  /** The row of the test a reanalysis is about to write to. */
  function Target(s: State, pid: Pid): Option<Row>
    requires InFlight(s, pid)
  {
    Newest(s.rows, s.procs[pid].testId)
  }

  lemma AnalysisSource(json: Json, raw: string, testId: Id, source: string)
    requires IsAnalysis(json, raw, testId, source) && IsSource(source)
    ensures ReportSource(json) == source
  {
  }

  /** A step other than a reanalysis's write keeps the table honest. */
  lemma StepHonest(s: State, e: Event, s': State)
    requires Inv(s) && Honest(s) && Step(s, e) == Some(s') && !e.ReanalyzeWrite?
    ensures Honest(s')
  {
  }

  lemma StepFaithful(s: State, e: Event, s': State)
    requires Inv(s) && Honest(s) && Faithful(s) && Step(s, e) == Some(s')
    ensures Faithful(s')
  {
    hide Step, Sourced, Follows, SameRow, Inv;
    StepInvRows(s, e, s');
    forall pid, row | pid in s'.procs && IsReanalysis(s'.procs[pid]) && row in s'.rows && row.id == s'.procs[pid].rowId
      ensures s'.procs[pid].source == row.origin
    {
      var read, r := StepProcs(s, e, s', pid);
      StepFollows(s, e, s', pid);
      var c := EarlierSelf(s, s', row);
      SameRowFields(c, row);
      InvUnique(s);
      if read {
        UniqueRows(s.rows, c, r);
      }
    }
  }

  lemma StepInvRows(s: State, e: Event, s': State)
    requires Inv(s) && Step(s, e) == Some(s')
    ensures RowsComeFrom(s, s')
  {
    StepRows(s, e, s');
  }

  /** The write of a reanalysis keeps every recorded provenance exactly when the test has no
      row left, or the one it has is the row that was read, or one created with the same
      provenance. */
  lemma WriteHonest(s: State, pid: Pid, s': State)
    requires Inv(s) && Honest(s) && Faithful(s) && Step(s, ReanalyzeWrite(pid)) == Some(s')
    ensures Honest(s') <==>
              var t := Target(s, pid);
              t.None? || t.value.id == s.procs[pid].rowId || t.value.origin == s.procs[pid].source
  {
    hide Follows;
    var p := s.procs[pid];
    AnalysisSource(p.json, p.raw, p.testId, p.source);
    var t := Target(s, pid);
    forall b | b in s'.rows
      ensures ReportSource(b.json) == b.origin
           || (t.Some? && b.testId == p.testId && b.origin == t.value.origin && ReportSource(b.json) == p.source)
    {
      var a := UpdatedRow(s.rows, p.testId, p.json, b);
      if a.testId == p.testId {
        UniqueRows(s.rows, a, t.value);
      }
    }
    if t.Some? {
      var i :| 0 <= i < |s.rows| && s.rows[i] == t.value;
      assert s'.rows[i] == t.value.(json := p.json) && s'.rows[i] in s'.rows;
    }
  }

  /** The event, when it writes a reanalysis, meets no row, the row it read, or one created with
      the provenance it read. */
  predicate WritesTrue(s: State, e: Event) {
    e.ReanalyzeWrite? && InFlight(s, e.pid) && s.procs[e.pid].ReanalysisAnalyzed? ==>
      var t := Target(s, e.pid);
      t.None? || t.value.id == s.procs[e.pid].rowId || t.value.origin == s.procs[e.pid].source
  }

  ghost predicate HonestUpTo(states: seq<State>, i: nat)
    requires i < |states|
  {
    forall k :: 0 <= k <= i ==> Honest(states[k])
  }

  ghost predicate WritesTrueUpTo(states: seq<State>, events: seq<Event>, i: nat)
    requires i <= |states| && i <= |events|
  {
    forall k :: 0 <= k < i ==> WritesTrue(states[k], events[k])
  }

  /** From an honest and faithful state, a step is honest exactly when what it writes is true. */
  lemma StepHonestExactly(s: State, e: Event, s': State)
    requires Inv(s) && Honest(s) && Faithful(s) && Step(s, e) == Some(s')
    ensures Honest(s') <==> WritesTrue(s, e)
    ensures Faithful(s')
  {
    hide Honest, Faithful, Inv, Target;
    StepFaithful(s, e, s');
    if e.ReanalyzeWrite? {
      WriteHonest(s, e.pid, s');
    } else {
      StepHonest(s, e, s');
    }
  }

  /** In every interleaving, whatever its cleanups delete: every report has always recorded the
      provenance its row was created with exactly when every write so far was a true one. */
  lemma {:induction false} ProvenanceKeptExactly(states: seq<State>, events: seq<Event>, i: nat)
    requires IsRun(states, events) && i < |states|
    ensures HonestUpTo(states, i) <==> WritesTrueUpTo(states, events, i)
    ensures HonestUpTo(states, i) ==> Faithful(states[i])
    decreases i
  {
    hide Step, Inv, Honest, Faithful, WritesTrue;
    if i == 0 {
      EmptyHonest();
    } else {
      ProvenanceKeptExactly(states, events, i - 1);
      RunKeepsInv(states, events, i - 1);
      if HonestUpTo(states, i - 1) {
        StepHonestExactly(states[i - 1], events[i - 1], states[i]);
      }
    }
  }

  lemma EmptyHonest()
    ensures Honest(EMPTY) && Faithful(EMPTY)
  {
  }

  // ---------------------------------------------------------------- what reports are about

  /** Every report was computed from the message of its row, for the test of its row. */
  ghost predicate OfOwnMessage(s: State) {
    forall row :: row in s.rows ==> row.json.Json? && row.json.raw == row.raw && row.json.test == row.testId
  }

  /** The event, when it writes a reanalysis, meets no row, or one that holds the message read. */
  predicate WritesOwn(s: State, e: Event) {
    e.ReanalyzeWrite? && InFlight(s, e.pid) && s.procs[e.pid].ReanalysisAnalyzed? ==>
      var t := Target(s, e.pid);
      t.None? || t.value.raw == s.procs[e.pid].raw
  }

  /** Where every report is of its own message, a step keeps it so exactly when what it writes
      is of the message it writes to. */
  lemma StepOwnExactly(s: State, e: Event, s': State)
    requires Inv(s) && OfOwnMessage(s) && Step(s, e) == Some(s')
    ensures OfOwnMessage(s') <==> WritesOwn(s, e)
  {
    hide Follows;
    if e.ReanalyzeWrite? {
      WriteOwn(s, e.pid, s');
    } else {
      StepOwn(s, e, s');
    }
  }

  lemma StepOwn(s: State, e: Event, s': State)
    requires Inv(s) && OfOwnMessage(s) && Step(s, e) == Some(s') && !e.ReanalyzeWrite?
    ensures OfOwnMessage(s')
  {
    hide Follows;
  }

  lemma WriteOwn(s: State, pid: Pid, s': State)
    requires Inv(s) && OfOwnMessage(s) && Step(s, ReanalyzeWrite(pid)) == Some(s')
    ensures OfOwnMessage(s') <==> Target(s, pid).None? || Target(s, pid).value.raw == s.procs[pid].raw
  {
    hide Follows;
    var p, t := s.procs[pid], Target(s, pid);
    forall b | b in s'.rows
      ensures (b.json.Json? && b.json.raw == b.raw && b.json.test == b.testId)
           || (t.Some? && b.testId == p.testId && b.raw == t.value.raw && b.json.Json? && b.json.raw == p.raw && b.json.test == b.testId)
    {
      var a := UpdatedRow(s.rows, p.testId, p.json, b);
      if a.testId == p.testId {
        UniqueRows(s.rows, a, t.value);
      }
    }
    if t.Some? {
      var i :| 0 <= i < |s.rows| && s.rows[i] == t.value;
      assert s'.rows[i] == t.value.(json := p.json) && s'.rows[i] in s'.rows;
    }
  }

  ghost predicate OwnUpTo(states: seq<State>, i: nat)
    requires i < |states|
  {
    forall k :: 0 <= k <= i ==> OfOwnMessage(states[k])
  }

  ghost predicate WritesOwnUpTo(states: seq<State>, events: seq<Event>, i: nat)
    requires i <= |states| && i <= |events|
  {
    forall k :: 0 <= k < i ==> WritesOwn(states[k], events[k])
  }

  /** In every interleaving: every report has always been one of its row's own message exactly
      when every reanalysis found, at its write, no row of its test or one holding the message
      it had read. */
  lemma {:induction false} OwnMessageExactly(states: seq<State>, events: seq<Event>, i: nat)
    requires IsRun(states, events) && i < |states|
    ensures OwnUpTo(states, i) <==> WritesOwnUpTo(states, events, i)
    decreases i
  {
    hide Step, Inv, OfOwnMessage, WritesOwn;
    if i == 0 {
      NothingToOwn();
    } else {
      OwnMessageExactly(states, events, i - 1);
      RunKeepsInv(states, events, i - 1);
      if OwnUpTo(states, i - 1) {
        StepOwnExactly(states[i - 1], events[i - 1], states[i]);
      }
    }
  }

  lemma NothingToOwn()
    ensures OfOwnMessage(EMPTY)
  {
  }

  // ---------------------------------------------------------------- runs that tend their rows

  /** The event deletes no row that a reanalysis in flight has read. */
  ghost predicate Careful(s: State, e: Event) {
    e.Cleanup? ==>
      forall pid, row :: pid in s.procs && IsReanalysis(s.procs[pid]) && row in s.rows && row.id == s.procs[pid].rowId
        ==> row.createdAt >= e.olderThan
  }

  /** Every reanalysis in flight still has its row. */
  ghost predicate Tended(s: State) {
    forall pid :: pid in s.procs && IsReanalysis(s.procs[pid]) ==> Lives(s, s.procs[pid].rowId)
  }

  /** A row goes on living through any step but a cleanup that deletes it. */
  lemma RowLivesOn(s: State, e: Event, s': State, a: Row)
    requires Step(s, e) == Some(s') && a in s.rows && (e.Cleanup? ==> a.createdAt >= e.olderThan)
    ensures Lives(s', a.id)
  {
  }

  lemma StepTended(s: State, e: Event, s': State)
    requires Inv(s) && Tended(s) && Careful(s, e) && Step(s, e) == Some(s')
    ensures Tended(s')
  {
    hide Step, Sourced, Follows;
    forall pid | pid in s'.procs && IsReanalysis(s'.procs[pid])
      ensures Lives(s', s'.procs[pid].rowId)
    {
      var read, r := StepProcs(s, e, s', pid);
      if !read {
        assert Lives(s, s.procs[pid].rowId);
        var a :| a in s.rows && a.id == s.procs[pid].rowId;
        RowLivesOn(s, e, s', a);
      }
    }
  }

  lemma TendedWriteHonest(s: State, pid: Pid, s': State)
    requires Inv(s) && Honest(s) && Faithful(s) && Tended(s) && Step(s, ReanalyzeWrite(pid)) == Some(s')
    ensures Honest(s')
  {
    hide Honest;
    var p := s.procs[pid];
    assert Lives(s, p.rowId);
    var row :| row in s.rows && row.id == p.rowId;
    assert Follows(p, s.rows);
    var t := Target(s, pid);
    if t.Some? {
      UniqueRows(s.rows, row, t.value);
    }
    WriteHonest(s, pid, s');
  }

  /** A reanalysis whose row lives writes to that row, and so to the message it has read. */
  lemma TendedWriteOwn(s: State, e: Event)
    requires Inv(s) && Tended(s)
    ensures WritesOwn(s, e)
  {
    if e.ReanalyzeWrite? && InFlight(s, e.pid) && s.procs[e.pid].ReanalysisAnalyzed? && Target(s, e.pid).Some? {
      var p := s.procs[e.pid];
      assert Lives(s, p.rowId);
      var row :| row in s.rows && row.id == p.rowId;
      assert Follows(p, s.rows);
      UniqueRows(s.rows, row, Target(s, e.pid).value);
    }
  }

  lemma {:induction false} CarefulRunKeeps(states: seq<State>, events: seq<Event>, i: nat)
    requires IsRun(states, events) && i < |states|
    requires forall k :: 0 <= k < i ==> Careful(states[k], events[k])
    ensures Honest(states[i]) && Faithful(states[i]) && Tended(states[i])
    decreases i
  {
    hide Step, Inv, Careful;
    if i > 0 {
      var s, e, s' := states[i - 1], events[i - 1], states[i];
      CarefulRunKeeps(states, events, i - 1);
      RunKeepsInv(states, events, i - 1);
      StepFaithful(s, e, s');
      StepTended(s, e, s');
      if e.ReanalyzeWrite? {
        TendedWriteHonest(s, e.pid, s');
      } else {
        StepHonest(s, e, s');
      }
    }
  }

  /** In every interleaving whose cleanups spare the rows being reanalysed, the provenance a
      report records stays the one its row was created with, however often it is reanalysed. */
  lemma ProvenanceKept(states: seq<State>, events: seq<Event>, i: nat, row: Row)
    requires IsRun(states, events) && i < |states| && row in states[i].rows
    requires forall k :: 0 <= k < i ==> Careful(states[k], events[k])
    ensures ReportSource(row.json) == row.origin
  {
    CarefulRunKeeps(states, events, i);
  }

  /** Nor does a report, in such an interleaving, ever stop being one of its row's message. */
  lemma ReportsOwnMessage(states: seq<State>, events: seq<Event>, i: nat, row: Row)
    requires IsRun(states, events) && i < |states| && row in states[i].rows
    requires forall k :: 0 <= k < i ==> Careful(states[k], events[k])
    ensures row.json.Json? && row.json.raw == row.raw && row.json.test == row.testId
  {
    hide Step, Inv, Careful, WritesOwn;
    forall k | 0 <= k < i
      ensures WritesOwn(states[k], events[k])
    {
      CarefulRunKeeps(states, events, k);
      RunKeepsInv(states, events, k);
      TendedWriteOwn(states[k], events[k]);
    }
    OwnMessageExactly(states, events, i);
  }

  const UPLOAD := Json(UPLOADED, 7, "old", "")
  const MAIL := Json(RECEIVED, 7, "new", "")
  const OLDER := Row(1, 7, "old", UPLOAD, 0, UPLOADED)
  const NEWER := Row(2, 7, "new", MAIL, 5, RECEIVED)
  const NOBODY: map<Pid, Process> := map[]
  const READY: map<Pid, Process> := map[0 := ReanalysisAnalyzed(7, 1, "old", UPLOADED, UPLOAD)]

  /** The states of the race: an upload is stored, read and analysed again, then cleaned up. */
  function RaceStart(): seq<State> {
    [EMPTY,
     State([], {}, map[0 := UploadAnalyzed(7, "old", UPLOAD)]),
     State([OLDER], {1}, NOBODY),
     State([OLDER], {1}, map[0 := ReanalysisRead(7, 1, "old", UPLOADED)]),
     State([OLDER], {1}, READY),
     State([], {1}, READY)]
  }

  /** Then a message is delivered to the same test, and the reanalysis writes over its report. */
  function RaceEnd(): seq<State> {
    [State([], {1}, READY[1 := DeliveryChecked(7, "new")]),
     State([], {1}, READY[1 := DeliveryAnalyzed(7, "new", MAIL)]),
     State([NEWER], {1, 2}, READY),
     State([NEWER.(json := UPLOAD)], {1, 2}, NOBODY)]
  }

  lemma RaceStarts()
    ensures var s := RaceStart();
            && Step(s[0], UploadAnalyze(0, 7, "old", UPLOAD)) == Some(s[1])
            && Step(s[1], UploadStore(0, 1, 0)) == Some(s[2])
  {
    var s := RaceStart();
    SoleRow(OLDER);
    assert s[1].procs - {0} == NOBODY && {} + {1} == {1};
  }

  lemma RaceGoesOn()
    ensures var s := RaceStart();
            && Step(s[2], ReanalyzeRead(0, 7)) == Some(s[3])
            && Step(s[3], ReanalyzeAnalyze(0, UPLOAD)) == Some(s[4])
            && Step(s[4], Cleanup(3)) == Some(s[5])
  {
    var s := RaceStart();
    SoleRow(OLDER);
    assert s[3].procs[0 := ReanalysisAnalyzed(7, 1, "old", UPLOADED, UPLOAD)] == READY;
  }

  lemma RaceEnds()
    ensures var s, t := RaceStart()[5], RaceEnd();
            && Step(s, DeliverCheck(1, 7, "new")) == Some(t[0])
            && Step(t[0], DeliverAnalyze(1, MAIL)) == Some(t[1])
            && Step(t[1], DeliverStore(1, 2, 5)) == Some(t[2])
            && Step(t[2], ReanalyzeWrite(0)) == Some(t[3])
  {
    var t := RaceEnd();
    SoleRow(NEWER);
    assert t[0].procs[1 := DeliveryAnalyzed(7, "new", MAIL)] == t[1].procs;
    assert t[1].procs - {1} == READY && {1} + {2} == {1, 2};
    assert t[2].procs - {0} == NOBODY;
  }

  /** Without that proviso provenance can be lost: an upload is read for reanalysis, a cleanup
      deletes it, a message delivered to the same test takes its place, and the reanalysis
      writes its report over the newcomer's. */
  lemma CleanupRace() returns (states: seq<State>, events: seq<Event>)
    ensures IsRun(states, events) && !Honest(states[|events|]) && !OfOwnMessage(states[|events|])
  {
    hide Step;
    RaceStarts();
    RaceGoesOn();
    RaceEnds();
    states := RaceStart() + RaceEnd();
    events := [
      UploadAnalyze(0, 7, "old", UPLOAD), UploadStore(0, 1, 0), ReanalyzeRead(0, 7), ReanalyzeAnalyze(0, UPLOAD),
      Cleanup(3), DeliverCheck(1, 7, "new"), DeliverAnalyze(1, MAIL), DeliverStore(1, 2, 5), ReanalyzeWrite(0)];
    assert NEWER.(json := UPLOAD) in states[9].rows;
  }

  /** What the table operations make of a table of one row. */
  lemma SoleRow(row: Row)
    ensures Created([], row) == [row]
    ensures Newest([row], row.testId) == Some(row)
    ensures forall t :: Recent([row], t) == if row.createdAt < t then [] else [row]
    ensures forall json :: Updated([row], row.testId, json) == [row.(json := json)]
  {
  }
}
