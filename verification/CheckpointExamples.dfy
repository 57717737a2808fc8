/** Two months of one TA in a sandbox slot, one signed off by staff and one exported, on which the two triggers on
    work_logs act; and what the order of the catalog makes of a restore. Columns the triggers and the foreign keys
    between these tables do not read are left out. */
module CheckpointExamples {
  import opened Relational
  import opened Triggers
  import opened Greedy
  import opened Checkpoint
  import opened SavedRows
  import opened SavedCheckpoints

  // ----- The tables the triggers join -----

  const USERS := Name("users")
  const TERMS := Name("academic_terms")
  const COURSES := Name("teaching_courses")
  const SECTIONS := Name("sections")
  const ASSIGNMENTS := Name("ta_request_assignments")
  const PERIODS := Name("submission_periods")
  const STATUSES := Name("submission_period_status")
  const LOGS := Name("work_logs")
  const NOTICES := Name("notifications")

  lemma NamesDiffer()
    ensures |USERS.text| == 5 && |TERMS.text| == 14 && |COURSES.text| == 16 && |SECTIONS.text| == 8
    ensures |ASSIGNMENTS.text| == 22 && |PERIODS.text| == 18 && |STATUSES.text| == 24 && |LOGS.text| == 9
    ensures |NOTICES.text| == 13
  {}

  const ID := Column("id")
  const TERM_ID := Column("term_id")
  const COURSE_ID := Column("teaching_course_id")
  const SECTION_ID := Column("section_id")
  const TA_ID := Column("ta_id")
  const PERIOD_ID := Column("submission_period_id")
  const ASSIGNMENT_ID := Column("assignment_id")
  const USER_ID := Column("user_id")
  const REVIEWED_BY := Column("staff_reviewed_by")
  const STATUS := Column("status")

  lemma ColumnsDiffer()
    ensures |ID.text| == 2 && |TERM_ID.text| == 7 && |COURSE_ID.text| == 18 && |SECTION_ID.text| == 10
    ensures |TA_ID.text| == 5 && |PERIOD_ID.text| == 20 && |ASSIGNMENT_ID.text| == 13 && |USER_ID.text| == 7
    ensures |REVIEWED_BY.text| == 17 && |STATUS.text| == 6
  {}

  function Reference(child: Name, col: Column, parent: Name): ForeignKey {
    ForeignKey(child, [col], parent, [ID])
  }

  function References(): set<ForeignKey> {
    {
      Reference(COURSES, TERM_ID, TERMS),
      Reference(SECTIONS, COURSE_ID, COURSES),
      Reference(ASSIGNMENTS, SECTION_ID, SECTIONS),
      Reference(ASSIGNMENTS, TA_ID, USERS),
      Reference(PERIODS, TERM_ID, TERMS),
      Reference(STATUSES, PERIOD_ID, PERIODS),
      Reference(STATUSES, TA_ID, USERS),
      Reference(STATUSES, COURSE_ID, COURSES),
      Reference(STATUSES, REVIEWED_BY, USERS),
      Reference(LOGS, ASSIGNMENT_ID, ASSIGNMENTS),
      Reference(NOTICES, USER_ID, USERS)
    }
  }

  // ----- Their rows -----

  const ONE := Value("1")
  const TWO := Value("2")

  const TA: Row := map[ID := ONE]
  const OFFICER: Row := map[ID := TWO]
  const TERM: Row := map[ID := ONE]
  const COURSE: Row := map[ID := ONE, TERM_ID := ONE]
  const SECTION: Row := map[ID := ONE, COURSE_ID := ONE]
  const ASSIGNMENT: Row := map[ID := ONE, SECTION_ID := ONE, TA_ID := ONE]
  const PERIOD: Row := map[ID := ONE, TERM_ID := ONE]
  const LOG: Row := map[ID := ONE, ASSIGNMENT_ID := ONE]
  const NOTICE: Row := map[ID := ONE, USER_ID := TWO]

  const PENDING: Row := map[ID := ONE, PERIOD_ID := ONE, TA_ID := ONE, COURSE_ID := ONE, STATUS := Value("pending")]
  const REVIEWED: Row := PENDING[STATUS := Value("staff_reviewed")][REVIEWED_BY := TWO]
  const EXPORTED: Row := PENDING[STATUS := Value("exported")]

  // The slot with the month's status row as given.
  function Month(status: Row): Db {
    map[
      USERS := [TA, OFFICER], TERMS := [TERM], COURSES := [COURSE], SECTIONS := [SECTION], ASSIGNMENTS := [ASSIGNMENT],
      PERIODS := [PERIOD], STATUSES := [status], LOGS := [LOG], NOTICES := []
    ]
  }

  // ----- The triggers -----

  // The rows both triggers join the log to.
  const JOINED: set<(Name, Row)> := {
    (ASSIGNMENTS, ASSIGNMENT), (SECTIONS, SECTION), (COURSES, COURSE), (TERMS, TERM), (PERIODS, PERIOD)
  }

  // A notice for the officer, if the officer is there to be told.
  function Notify(db: Db): Rows {
    (if NOTICES in db then db[NOTICES] else []) + (if HasRow(db, USERS, OFFICER) then [NOTICE] else [])
  }

  function ResetReview(): Echo {
    Echo(LOGS, LOG, JOINED + {(USERS, TA)}, STATUSES, REVIEWED, PENDING, NOTICES, Notify)
  }

  function LockedMonth(): Refusal {
    Refusal(LOGS, LOG, JOINED + {(STATUSES, EXPORTED)})
  }

  function MonthSchema(): Schema {
    Schema(References(), {LockedMonth()}, map[], [ResetReview()])
  }

  // The catalog with the logs before the status, and the other way round.
  const PARENTS := [USERS, TERMS, COURSES, SECTIONS, ASSIGNMENTS, PERIODS]
  const LOGS_FIRST := PARENTS + [LOGS, STATUSES, NOTICES]
  const STATUSES_FIRST := PARENTS + [STATUSES, LOGS, NOTICES]

  // ----- The month is a case of the general results -----

  lemma StatusesDiffer()
    ensures REVIEWED != PENDING && EXPORTED != PENDING && EXPORTED != REVIEWED
  {
    assert PENDING[STATUS].text[0] == 'p' && REVIEWED[STATUS].text[0] == 's' && EXPORTED[STATUS].text[0] == 'e';
  }

  lemma WrittenTables(t: Name)
    ensures IsTarget(MonthSchema(), t) <==> t == STATUSES
    ensures IsAside(MonthSchema(), t) <==> t == NOTICES
  {
    assert ResetReview() in MonthSchema().echoes;
    assert forall f :: f in MonthSchema().echoes ==> f == ResetReview();
  }

  lemma KeysAreKept()
    ensures KeepsKeys(MonthSchema())
  {
    NamesDiffer();
    assert forall f :: f in MonthSchema().echoes ==> f == ResetReview();
    assert forall fk :: fk in References() ==> fk.parent != STATUSES;
  }

  lemma ReferencesAreCleared()
    ensures ClearsReferences(MonthSchema())
  {
    ColumnsDiffer();
    assert forall f :: f in MonthSchema().echoes ==> f == ResetReview();
    forall fk | fk in References() && fk.child == STATUSES
      ensures ClearsOnly(fk.cols, REVIEWED, PENDING)
    {
      NamesDiffer();
      assert fk.cols[0] in {PERIOD_ID, TA_ID, COURSE_ID, REVIEWED_BY};
    }
  }

  lemma JoinedRowsStay(tr: (Name, Row))
    requires tr in JOINED + {(USERS, TA), (STATUSES, EXPORTED)}
    ensures Steady(MonthSchema(), tr.0, tr.1)
  {
    NamesDiffer();
    StatusesDiffer();
    WrittenTables(tr.0);
    assert forall f :: f in MonthSchema().echoes ==> f == ResetReview();
  }

  lemma PresenceIsSteady()
    ensures SteadyPresence(MonthSchema())
  {
    var sch := MonthSchema();
    assert forall f :: f in sch.echoes ==> f == ResetReview();
    forall rf, tr | rf in sch.refusals && tr in rf.presence
      ensures Steady(sch, tr.0, tr.1)
    {
      JoinedRowsStay(tr);
    }
    forall e, tr | e in sch.echoes && tr in e.presence
      ensures Steady(sch, tr.0, tr.1)
    {
      JoinedRowsStay(tr);
    }
  }

  lemma NoticesAreLeaves()
    ensures AsidesAreLeaves(MonthSchema())
  {
    NamesDiffer();
    NoticesRefer();
    assert forall f :: f in MonthSchema().echoes ==> f == ResetReview();
    forall fk | fk in References()
      ensures !IsAside(MonthSchema(), fk.parent)
    {
      WrittenTables(fk.parent);
    }
  }

  lemma MonthIsHarmless()
    ensures Harmless(MonthSchema())
  {
    var sch := MonthSchema();
    NamesDiffer();
    StatusesDiffer();
    WrittenTables(STATUSES);
    assert forall f :: f in sch.echoes ==> f == ResetReview();
    KeysAreKept();
    ReferencesAreCleared();
    PresenceIsSteady();
    NoticesAreLeaves();
  }

  lemma NoticesRefer()
    ensures SendsRefer(MonthSchema(), ResetReview())
  {
    NamesDiffer();
    ColumnsDiffer();
    var sch := MonthSchema();
    forall db: Db, fk | fk in sch.fks && fk.child == NOTICES && NOTICES in db && RowsRefer(db, fk, db[NOTICES])
      ensures RowsRefer(db, fk, Notify(db))
    {
      assert fk == Reference(NOTICES, USER_ID, USERS);
      if HasRow(db, USERS, OFFICER) {
        assert Matches(fk, NOTICE, OFFICER);
      }
    }
  }

  // ----- The month is consistent -----

  lemma RefersTo(db: Db, fk: ForeignKey, col: Column, row: Row, target: Row)
    requires fk == Reference(fk.child, col, fk.parent) && fk.parent in db && target in db[fk.parent]
    requires col in row && ID in target && row[col] == target[ID]
    ensures RefersWithinDb(db, fk, row)
  {
    assert Matches(fk, row, target);
  }

  lemma RefersToNull(db: Db, fk: ForeignKey, col: Column, row: Row)
    requires fk == Reference(fk.child, col, fk.parent) && col !in row
    ensures RefersWithinDb(db, fk, row)
  {
    assert fk.cols[0] !in row;
  }

  lemma MonthIsConsistent(status: Row)
    requires status in {REVIEWED, EXPORTED}
    ensures Consistent(MonthSchema(), Month(status))
  {
    NamesDiffer();
    ColumnsDiffer();
    var db := Month(status);
    forall fk, row | fk in References() && fk.child in db && row in db[fk.child]
      ensures RefersWithinDb(db, fk, row)
    {
      MonthRefers(status, fk, row);
    }
  }

  lemma MonthRefers(status: Row, fk: ForeignKey, row: Row)
    requires status in {REVIEWED, EXPORTED} && fk in References()
    requires fk.child in Month(status) && row in Month(status)[fk.child]
    ensures RefersWithinDb(Month(status), fk, row)
  {
    NamesDiffer();
    if fk.child == STATUSES {
      StatusRefers(status, fk);
    } else if fk.child == ASSIGNMENTS {
      AssignmentRefers(status, fk);
    } else if fk.child == LOGS || fk.child == SECTIONS {
      LogOrSectionRefers(status, fk, row);
    } else {
      TermRefers(status, fk, row);
    }
  }

  lemma AssignmentRefers(status: Row, fk: ForeignKey)
    requires fk in References() && fk.child == ASSIGNMENTS
    ensures RefersWithinDb(Month(status), fk, ASSIGNMENT)
  {
    NamesDiffer();
    ColumnsDiffer();
    if fk == Reference(ASSIGNMENTS, SECTION_ID, SECTIONS) {
      RefersTo(Month(status), fk, SECTION_ID, ASSIGNMENT, SECTION);
    } else {
      RefersTo(Month(status), fk, TA_ID, ASSIGNMENT, TA);
    }
  }

  lemma LogOrSectionRefers(status: Row, fk: ForeignKey, row: Row)
    requires fk in References() && fk.child in {LOGS, SECTIONS} && row in Month(status)[fk.child]
    ensures RefersWithinDb(Month(status), fk, row)
  {
    NamesDiffer();
    ColumnsDiffer();
    if fk.child == LOGS {
      RefersTo(Month(status), fk, ASSIGNMENT_ID, LOG, ASSIGNMENT);
    } else {
      RefersTo(Month(status), fk, COURSE_ID, SECTION, COURSE);
    }
  }

  lemma TermRefers(status: Row, fk: ForeignKey, row: Row)
    requires fk in References() && fk.child in {COURSES, PERIODS, NOTICES} && row in Month(status)[fk.child]
    ensures RefersWithinDb(Month(status), fk, row)
  {
    NamesDiffer();
    ColumnsDiffer();
    if fk.child != NOTICES {
      RefersTo(Month(status), fk, TERM_ID, row, TERM);
    }
  }

  lemma StatusRefers(status: Row, fk: ForeignKey)
    requires status in {REVIEWED, EXPORTED} && fk in References() && fk.child == STATUSES
    ensures RefersWithinDb(Month(status), fk, status)
  {
    NamesDiffer();
    ColumnsDiffer();
    var db := Month(status);
    if fk == Reference(STATUSES, PERIOD_ID, PERIODS) {
      RefersTo(db, fk, PERIOD_ID, status, PERIOD);
    } else if fk == Reference(STATUSES, TA_ID, USERS) {
      RefersTo(db, fk, TA_ID, status, TA);
    } else if fk == Reference(STATUSES, COURSE_ID, COURSES) {
      RefersTo(db, fk, COURSE_ID, status, COURSE);
    } else if REVIEWED_BY in status {
      RefersTo(db, fk, REVIEWED_BY, status, OFFICER);
    } else {
      RefersToNull(db, fk, REVIEWED_BY, status);
    }
  }

  // ----- Restoring the month -----

  // A slot restored to the month it is in.
  ghost function MonthJob(status: Row): Job
    requires status in {REVIEWED, EXPORTED}
    ensures CanStart(MonthSchema(), Month(status), Month(status))
    ensures MonthJob(status) == Started(MonthSchema(), Month(status), Month(status))
  {
    MonthIsHarmless();
    MonthIsConsistent(status);
    Started(MonthSchema(), Month(status), Month(status))
  }

  lemma MonthWith(status: Row, done: set<Name>)
    requires status in {REVIEWED, EXPORTED}
    ensures var job := MonthJob(status);
      && job.With(done).Keys == Month(status).Keys
      && (forall t :: t in Month(status) ==> job.RowsOf(t) == Month(status)[t])
      && (forall t :: t in Month(status) ==> job.With(done)[t] == if t in done then Month(status)[t] else [])
  {
    var job, db := MonthJob(status), Month(status);
    forall t | t in db
      ensures job.base[t] == [] && job.RowsOf(t) == db[t]
    {}
  }

  lemma MonthWhole(status: Row)
    requires status in {REVIEWED, EXPORTED}
    ensures MonthJob(status).With(Month(status).Keys) == Month(status)
  {
    MonthWith(status, Month(status).Keys);
  }

  predicate IsMonthOrder(o: seq<Name>) {
    |o| == 9 && o[..6] == PARENTS && o[8] == NOTICES && (o[6..8] == [LOGS, STATUSES] || o[6..8] == [STATUSES, LOGS])
  }

  lemma MonthOrders()
    ensures IsMonthOrder(LOGS_FIRST) && IsMonthOrder(STATUSES_FIRST)
  {
    assert LOGS_FIRST[..6] == PARENTS && LOGS_FIRST[6..8] == [LOGS, STATUSES];
    assert STATUSES_FIRST[..6] == PARENTS && STATUSES_FIRST[6..8] == [STATUSES, LOGS];
  }

  lemma MonthOrderAt(o: seq<Name>)
    requires IsMonthOrder(o)
    ensures o[0] == USERS && o[1] == TERMS && o[2] == COURSES && o[3] == SECTIONS && o[4] == ASSIGNMENTS && o[5] == PERIODS
    ensures (o[6] == LOGS && o[7] == STATUSES) || (o[6] == STATUSES && o[7] == LOGS)
    ensures o[8] == NOTICES
  {
    assert forall i :: 0 <= i < 6 ==> o[i] == o[..6][i];
    assert o[6] == o[6..8][0] && o[7] == o[6..8][1];
  }

  lemma MonthTables(status: Row)
    ensures Month(status).Keys == {USERS, TERMS, COURSES, SECTIONS, ASSIGNMENTS, PERIODS, STATUSES, LOGS, NOTICES}
  {}

  lemma MonthOrderIsDistinct(o: seq<Name>)
    requires IsMonthOrder(o)
    ensures Distinct(o)
  {
    NamesDiffer();
    MonthOrderAt(o);
    var sizes := [5, 14, 16, 8, 22, 18, |o[6].text|, |o[7].text|, 13];
    assert forall i :: 0 <= i < 9 ==> |o[i].text| == sizes[i];
    assert forall i, j :: 0 <= i < j < 9 ==> sizes[i] != sizes[j];
  }

  lemma MonthOrderLists(o: seq<Name>, status: Row)
    requires IsMonthOrder(o)
    ensures Lists(o, Month(status).Keys)
  {
    MonthOrderAt(o);
    MonthTables(status);
    MonthOrderIsDistinct(o);
    assert o == [o[0], o[1], o[2], o[3], o[4], o[5], o[6], o[7], o[8]];
  }

  lemma MonthOrderIsParentsFirst(o: seq<Name>, status: Row)
    requires IsMonthOrder(o)
    ensures ParentsFirst(MonthSchema(), Month(status), o)
  {
    NamesDiffer();
    MonthOrderAt(o);
    forall i, fk | 0 <= i < |o| && fk in References() && fk.child == o[i]
      ensures fk.parent in o[..i]
    {
      var p := if fk.parent == USERS then 0 else if fk.parent == TERMS then 1 else if fk.parent == COURSES then 2
               else if fk.parent == SECTIONS then 3 else if fk.parent == ASSIGNMENTS then 4 else 5;
      assert p < i && o[..i][p] == fk.parent;
    }
  }

  lemma MonthOrderIsPlainlyLegal(o: seq<Name>, status: Row)
    requires IsMonthOrder(o) && status in {REVIEWED, EXPORTED}
    ensures IsRun(MonthJob(status), o) && MonthJob(status).AsRules().WithoutRefusals().Legal({}, o)
  {
    MonthOrderLists(o, status);
    MonthOrderIsParentsFirst(o, status);
    MonthWhole(status);
    MonthIsConsistent(status);
    ParentsFirstIsLegal(MonthJob(status), o, 0);
    assert o[0..] == o && Elems(o[..0]) == {};
  }

  lemma OnlyTheLogIsRefused(db: Db, t: Name, rows: Rows)
    requires t in db && t == LOGS ==> rows == [LOG]
    requires t in db
    ensures TriggerRefuses(MonthSchema(), db, t, rows) <==> t == LOGS && AllThere(LockedMonth().presence, db)
  {
    assert forall rf :: rf in MonthSchema().refusals <==> rf == LockedMonth();
    if t == LOGS {
      assert [LOG][..0] == [] && db[LOGS] + [] == db[LOGS];
      assert Insert(db, LOGS, [LOG][..0]) == db;
      assert RefusesRow(LockedMonth(), db, LOGS, [LOG], 0) <==> AllThere(LockedMonth().presence, db);
    }
  }

  // The tables the refusing trigger reads.
  const READ: set<Name> := {ASSIGNMENTS, SECTIONS, COURSES, TERMS, PERIODS, STATUSES}

  lemma ThereIff(presence: set<(Name, Row)>, db: Db, done: set<Name>)
    requires forall tr :: tr in presence ==> (HasRow(db, tr.0, tr.1) <==> tr.0 in done)
    ensures AllThere(presence, db) <==> (set tr | tr in presence :: tr.0) <= done
  {
    assert forall tr :: tr in presence ==> tr.0 in (set x | x in presence :: x.0);
  }

  lemma LockedTables()
    ensures (set tr | tr in LockedMonth().presence :: tr.0) == READ
  {
    var p := LockedMonth().presence;
    assert (ASSIGNMENTS, ASSIGNMENT) in p && (SECTIONS, SECTION) in p && (COURSES, COURSE) in p;
    assert (TERMS, TERM) in p && (PERIODS, PERIOD) in p && (STATUSES, EXPORTED) in p;
  }

  lemma JoinedRowsAreThere(status: Row, tr: (Name, Row))
    requires tr in JOINED + {(USERS, TA), (STATUSES, status)}
    ensures tr.0 in Month(status) && tr.1 in Month(status)[tr.0]
  {
    NamesDiffer();
  }

  // With these tables in, the log is refused exactly when the month is exported and all its rows are there.
  lemma RefusedIff(status: Row, done: set<Name>, t: Name)
    requires status in {REVIEWED, EXPORTED} && t in Month(status) && t !in done
    ensures MonthJob(status).AsRules().refused(done, t) <==> t == LOGS && status == EXPORTED && READ <= done
  {
    MonthWith(status, done);
    var job := MonthJob(status);
    var db := job.With(done);
    assert job.RowsOf(t) == Month(status)[t];
    MonthHasLog(status);
    OnlyTheLogIsRefused(db, t, job.RowsOf(t));
    LockedPresence(status, done, db);
  }

  lemma LockedPresence(status: Row, done: set<Name>, db: Db)
    requires status in {REVIEWED, EXPORTED} && db.Keys == Month(status).Keys
    requires forall t :: t in Month(status) ==> db[t] == if t in done then Month(status)[t] else []
    ensures AllThere(LockedMonth().presence, db) <==> status == EXPORTED && READ <= done
  {
    StatusesDiffer();
    if status == EXPORTED {
      forall tr | tr in LockedMonth().presence
        ensures HasRow(db, tr.0, tr.1) <==> tr.0 in done
      {
        JoinedRowsAreThere(EXPORTED, tr);
      }
      ThereIff(LockedMonth().presence, db, done);
      LockedTables();
    } else {
      assert Month(status)[STATUSES] == [REVIEWED] by {
        NamesDiffer();
      }
      assert (STATUSES, EXPORTED) in LockedMonth().presence && !HasRow(db, STATUSES, EXPORTED);
    }
  }

  /** With the month exported, the same checkpoint restores when the catalog lists work_logs before
      submission_period_status, and can never be restored the other way round. */
  lemma ExportedMonthDependsOnCatalogOrder()
    ensures var sch, db := MonthSchema(), Month(EXPORTED);
      && CanStart(sch, db, db) && ForeignKeysAdmitOrder(sch, db, db)
      && Lists(LOGS_FIRST, db.Keys) && Restores(sch, db, db, LOGS_FIRST)
      && Lists(STATUSES_FIRST, db.Keys) && !Restores(sch, db, db, STATUSES_FIRST)
  {
    var job := MonthJob(EXPORTED);
    MonthOrders();
    MonthOrderLists(LOGS_FIRST, EXPORTED);
    MonthOrderLists(STATUSES_FIRST, EXPORTED);
    MonthOrderIsPlainlyLegal(LOGS_FIRST, EXPORTED);
    LogsFirstIsLegal(EXPORTED);
    LegalListingIsItsOrder(job.AsRules(), LOGS_FIRST);
    StatusesFirstIsRefused();
    RestoreIsSettle(job.sch, Month(EXPORTED), Month(EXPORTED), LOGS_FIRST);
    RestoreIsSettle(job.sch, Month(EXPORTED), Month(EXPORTED), STATUSES_FIRST);
    assert job.AsRules().WithoutRefusals().all == Elems(LOGS_FIRST);
  }

  lemma NotRefusedAt(status: Row, o: seq<Name>, k: nat)
    requires status in {REVIEWED, EXPORTED} && IsMonthOrder(o) && k < 9
    requires status == EXPORTED && o[k] == LOGS ==> STATUSES !in Elems(o[..k])
    ensures !MonthJob(status).AsRules().refused(Elems(o[..k]), o[k])
  {
    MonthOrderIsPlainlyLegal(o, status);
    RunNext(MonthJob(status), o, k);
    RefusedIff(status, Elems(o[..k]), o[k]);
  }

  lemma NoneRefused(status: Row, o: seq<Name>, n: nat)
    requires status in {REVIEWED, EXPORTED} && IsMonthOrder(o) && n <= 9
    requires status == EXPORTED ==> forall k :: 0 <= k < n && o[k] == LOGS ==> STATUSES !in Elems(o[..k])
    ensures forall k :: 0 <= k < n ==> !MonthJob(status).AsRules().refused(Elems(o[..k]), o[k])
  {
    forall k | 0 <= k < n
      ensures !MonthJob(status).AsRules().refused(Elems(o[..k]), o[k])
    {
      NotRefusedAt(status, o, k);
    }
  }

  // Up to a log that finds its status in place, every insert succeeds.
  lemma MonthIsLegal(status: Row, o: seq<Name>, n: nat)
    requires status in {REVIEWED, EXPORTED} && IsMonthOrder(o) && n <= 9
    requires status == EXPORTED ==> forall k :: 0 <= k < n && o[k] == LOGS ==> STATUSES !in Elems(o[..k])
    ensures MonthJob(status).AsRules().Legal({}, o[..n])
  {
    MonthOrderIsPlainlyLegal(o, status);
    NoneRefused(status, o, n);
    NotRefusedIsLegal(MonthJob(status).AsRules(), o, n);
  }

  lemma LogsFirstIsLegal(status: Row)
    requires status in {REVIEWED, EXPORTED}
    ensures MonthJob(status).AsRules().Legal({}, LOGS_FIRST)
  {
    MonthOrders();
    LogsBeforeStatuses();
    MonthIsLegal(status, LOGS_FIRST, 9);
    assert LOGS_FIRST[..9] == LOGS_FIRST;
  }

  lemma UpToTheLogs(status: Row)
    requires status in {REVIEWED, EXPORTED}
    ensures MonthJob(status).AsRules().Legal({}, STATUSES_FIRST[..7])
  {
    MonthOrders();
    LogsAfterStatuses();
    MonthIsLegal(status, STATUSES_FIRST, 7);
  }

  lemma LogsComeLast(done: set<Name>)
    requires done == Elems(STATUSES_FIRST[..7])
    ensures READ <= done && LOGS !in done && USERS in done
  {
    MonthOrders();
    MonthOrderAt(STATUSES_FIRST);
    MonthOrderIsDistinct(STATUSES_FIRST);
    var o := STATUSES_FIRST[..7];
    assert forall i :: 0 <= i < 7 ==> o[i] == STATUSES_FIRST[i] && o[i] in done;
  }

  lemma LogsAreRefused()
    ensures STATUSES_FIRST[7] == LOGS && MonthJob(EXPORTED).AsRules().refused(Elems(STATUSES_FIRST[..7]), LOGS)
  {
    MonthOrders();
    MonthOrderAt(STATUSES_FIRST);
    MonthTables(EXPORTED);
    LogsComeLast(Elems(STATUSES_FIRST[..7]));
    RefusedIff(EXPORTED, Elems(STATUSES_FIRST[..7]), LOGS);
  }

  lemma StatusesFirstIsRefused()
    ensures !MonthJob(EXPORTED).AsRules().Succeeds(STATUSES_FIRST)
  {
    MonthOrders();
    MonthOrderLists(STATUSES_FIRST, EXPORTED);
    RulesAreValid(MonthJob(EXPORTED));
    UpToTheLogs(EXPORTED);
    LogsAreRefused();
    RefusedInListingFails(MonthJob(EXPORTED).AsRules(), STATUSES_FIRST, 7);
  }

  // ----- Whether the month signed off comes back -----

  lemma ReviewedNeverRefused(o: seq<Name>)
    requires IsMonthOrder(o)
    ensures MonthJob(REVIEWED).AsRules().Legal({}, o) && Lists(o, Month(REVIEWED).Keys)
  {
    MonthOrderLists(o, REVIEWED);
    StatusesDiffer();
    MonthIsLegal(REVIEWED, o, 9);
    assert o[..9] == o;
  }

  lemma ReviewedRestores(o: seq<Name>)
    requires IsMonthOrder(o)
    ensures MonthJob(REVIEWED).Valid() && Lists(o, Month(REVIEWED).Keys)
    ensures CanStart(MonthSchema(), Month(REVIEWED), Month(REVIEWED))
    ensures Restores(MonthSchema(), Month(REVIEWED), Month(REVIEWED), o)
    ensures InsertOrder(MonthSchema(), Month(REVIEWED), Month(REVIEWED), o) == o
  {
    var job := MonthJob(REVIEWED);
    ReviewedNeverRefused(o);
    LegalListingIsItsOrder(job.AsRules(), o);
    RestoreIsSettle(job.sch, Month(REVIEWED), Month(REVIEWED), o);
  }

  lemma ResetIsArmed()
    ensures Armed(ResetReview(), Month(REVIEWED))
  {
    forall tr | tr in ResetReview().presence
      ensures HasRow(Month(REVIEWED), tr.0, tr.1)
    {
      JoinedRowsAreThere(REVIEWED, tr);
    }
    JoinedRowsAreThere(REVIEWED, (STATUSES, REVIEWED));
  }

  lemma MonthHasLog(status: Row)
    ensures LOGS in Month(status) && Month(status)[LOGS] == [LOG]
  {
    NamesDiffer();
  }

  lemma MonthTriggers(status: Row)
    requires status in {REVIEWED, EXPORTED}
    ensures MonthJob(status).Valid() && MonthJob(status).sch.echoes == [ResetReview()] && MonthJob(status).cp == Month(status)
  {}

  lemma ResetIsLoaded()
    ensures Loaded(MonthJob(REVIEWED), ResetReview())
  {
    MonthTriggers(REVIEWED);
    MonthWhole(REVIEWED);
    ResetWatchesLog();
    ResetIsArmed();
  }

  lemma OnlyResetIsLoaded(e: Echo)
    requires Loaded(MonthJob(REVIEWED), e)
    ensures e == ResetReview()
  {
    MonthTriggers(REVIEWED);
  }

  lemma ResetWatchesLog()
    ensures LOGS in MonthJob(REVIEWED).cp && ResetReview().row in MonthJob(REVIEWED).RowsOf(LOGS)
  {
    MonthHasLog(REVIEWED);
    MonthWith(REVIEWED, {});
  }

  lemma ResetNeeds()
    ensures Needs(MonthJob(REVIEWED), ResetReview()) == READ + {USERS}
  {
    NamesDiffer();
    MonthTables(REVIEWED);
    var e := ResetReview();
    assert (ASSIGNMENTS, ASSIGNMENT) in e.presence && (SECTIONS, SECTION) in e.presence && (COURSES, COURSE) in e.presence;
    assert (TERMS, TERM) in e.presence && (PERIODS, PERIOD) in e.presence && (USERS, TA) in e.presence;
    forall tr | tr in e.presence
      ensures tr.0 in READ + {USERS} && tr.0 in Month(REVIEWED) && tr.0 != LOGS
    {}
  }

  /** With the month signed off, a restore in either order succeeds. It gives the saved rows back when the catalog
      lists work_logs before submission_period_status; the other way round the sign-off is gone. */
  lemma ReviewedMonthDependsOnCatalogOrder()
    ensures var sch, db := MonthSchema(), Month(REVIEWED);
      && CanStart(sch, db, db)
      && Lists(LOGS_FIRST, db.Keys) && GivesBack(sch, db, db, LOGS_FIRST)
      && Lists(STATUSES_FIRST, db.Keys) && Restores(sch, db, db, STATUSES_FIRST) && !GivesBack(sch, db, db, STATUSES_FIRST)
  {
    var sch, db := MonthSchema(), Month(REVIEWED);
    MonthOrders();
    ReviewedRestores(LOGS_FIRST);
    ReviewedRestores(STATUSES_FIRST);
    ResetIsLoaded();
    forall e | Loaded(MonthJob(REVIEWED), e)
      ensures e == ResetReview()
    {
      OnlyResetIsLoaded(e);
    }
    ResetNeeds();
    ReviewedIsStoredAsGiven();
    LogsBeforeStatuses();
    LogsAfterAll();
    GivesBackIff(sch, db, db, LOGS_FIRST);
    GivesBackIff(sch, db, db, STATUSES_FIRST);
  }

  /** ... and what is left in its place is a month pending review again. */
  lemma ReviewedMonthLosesItsSignOff()
    ensures var sch, db := MonthSchema(), Month(REVIEWED);
      && Lists(STATUSES_FIRST, db.Keys) && (forall t :: t in STATUSES_FIRST ==> t in db)
      && STATUSES in db && Restored(sch, db, db, STATUSES_FIRST)[STATUSES] == [PENDING]
  {
    var sch, db := MonthSchema(), Month(REVIEWED);
    ReviewedMonthDependsOnCatalogOrder();
    ReviewedIsStoredAsGiven();
    MonthTables(REVIEWED);
    AsSavedIsSame(sch, db);
    var e := NotBackMeansLost(sch, db, db, STATUSES_FIRST);
    StatusBecomesPending(e, Restored(sch, db, db, STATUSES_FIRST));
  }

  lemma AsSavedIsSame(sch: Schema, db: Db)
    ensures AsSaved(sch, db, db) == db
  {}

  lemma StatusBecomesPending(e: Echo, after: Db)
    requires Like(MonthSchema(), Month(REVIEWED), after) && e in MonthSchema().echoes && Gone(e, after)
    ensures after[STATUSES] == [PENDING]
  {
    NamesDiffer();
    WrittenTables(STATUSES);
    assert Month(REVIEWED)[STATUSES] == [REVIEWED];
    assert LikeRows(MonthSchema(), STATUSES, [REVIEWED], after[STATUSES]);
    assert SameRow(MonthSchema(), STATUSES, [REVIEWED][0], after[STATUSES][0]);
    assert forall f :: f in MonthSchema().echoes ==> f == ResetReview();
  }

  lemma ReviewedIsStoredAsGiven()
    ensures StoredAsGiven(MonthSchema(), Month(REVIEWED))
  {
    var db := Month(REVIEWED);
    forall t | t in db
      ensures Stored(MonthSchema(), t, db[t]) == db[t]
    {}
  }

  lemma LogsBeforeStatuses()
    ensures forall k :: 0 <= k < 9 && LOGS_FIRST[k] == LOGS ==> STATUSES !in Elems(LOGS_FIRST[..k])
    ensures !ComesAfter(LOGS_FIRST, LOGS, READ + {USERS})
  {
    MonthOrders();
    MonthOrderAt(LOGS_FIRST);
    MonthOrderIsDistinct(LOGS_FIRST);
    forall k | 0 <= k < |LOGS_FIRST| && LOGS_FIRST[k] == LOGS
      ensures STATUSES !in Elems(LOGS_FIRST[..k])
    {
      assert k == 6;
    }
  }

  lemma LogsAfterStatuses()
    ensures forall k :: 0 <= k < 7 ==> STATUSES_FIRST[k] != LOGS
  {
    MonthOrders();
    MonthOrderAt(STATUSES_FIRST);
    MonthOrderIsDistinct(STATUSES_FIRST);
  }

  lemma LogsAfterAll()
    ensures ComesAfter(STATUSES_FIRST, LOGS, READ + {USERS})
  {
    MonthOrders();
    MonthOrderAt(STATUSES_FIRST);
    LogsComeLast(Elems(STATUSES_FIRST[..7]));
    assert STATUSES_FIRST[7] == LOGS;
  }
}
