/** When the outcome of a restore does not depend on the order in which the catalog lists the tables. */
module CatalogOrders {
  import opened Options
  import opened Relational
  import opened Triggers
  import opened Greedy
  import opened Checkpoint
  import opened SavedRows

  // ----- One row that triggers look for -----

  lemma ArmedWhere(sch: Schema, ideal: Db, db: Db, e: Echo)
    requires Harmless(sch) && Like(sch, ideal, db) && e in sch.echoes
    ensures Armed(e, db) ==> Armed(e, ideal)
    ensures Armed(e, ideal) ==> (Armed(e, db) || Gone(e, db))
  {
    SamePresence(sch, ideal, db, e.presence);
    assert !IsAside(sch, e.target);
    if HasRow(db, e.target, e.from) {
      var i :| 0 <= i < |db[e.target]| && db[e.target][i] == e.from;
      assert LikeRows(sch, e.target, ideal[e.target], db[e.target]);
      NotProduced(sch, e, ideal[e.target][i]);
    }
  }

  // What the first trigger of an inserted row makes of row `a` of table u, if one finds it.
  function RowsFirst(echoes: seq<Echo>, ideal: Db, t: Name, row: Row, u: Name, a: Row): Option<Row> {
    if echoes == [] then None
    else
      var f := echoes[0];
      if f.table == t && f.row == row && f.target == u && f.from == a && Armed(f, ideal) then Some(f.to)
      else RowsFirst(echoes[1..], ideal, t, row, u, a)
  }

  // What the first one of all inserted rows makes of it.
  function First(echoes: seq<Echo>, ideal: Db, t: Name, rows: Rows, u: Name, a: Row): Option<Row> {
    if rows == [] then None
    else
      var r := RowsFirst(echoes, ideal, t, rows[0], u, a);
      if r.Some? then r else First(echoes, ideal, t, rows[1..], u, a)
  }

  function Either(r: Option<Row>, other: Option<Row>): Option<Row> {
    if r.Some? then r else other
  }

  // Wherever the ideal table holds row `a`, the real one holds it, or what the first trigger made of it.
  ghost predicate Becomes(ideal: Db, db: Db, u: Name, a: Row, r: Option<Row>) {
    && u in ideal && u in db && |ideal[u]| == |db[u]|
    && forall i :: 0 <= i < |ideal[u]| && ideal[u][i] == a ==> db[u][i] == if r.Some? then r.value else a
  }

  // No trigger looks for what the first one made.
  ghost predicate Final(sch: Schema, u: Name, r: Option<Row>) {
    r.Some? ==> forall f :: f in sch.echoes && f.target == u ==> f.from != r.value
  }

  lemma FireKeepsMade(sch: Schema, ideal: Db, db: Db, f: Echo, u: Name, a: Row, r: Option<Row>)
    requires f in sch.echoes && u != f.aside && Becomes(ideal, db, u, a, r) && Final(sch, u, r) && r.Some?
    ensures Becomes(ideal, Fire(f, db), u, a, r)
  {
    FireElsewhere(f, db, u);
  }

  lemma FireMakes(sch: Schema, ideal: Db, db: Db, f: Echo, u: Name, a: Row)
    requires Harmless(sch) && Like(sch, ideal, db) && f in sch.echoes && u != f.aside && Becomes(ideal, db, u, a, None)
    ensures Becomes(ideal, Fire(f, db), u, a, if f.target == u && f.from == a && Armed(f, ideal) then Some(f.to) else None)
  {
    ArmedWhere(sch, ideal, db, f);
    FireElsewhere(f, db, u);
  }

  lemma FireBecomes(sch: Schema, ideal: Db, db: Db, f: Echo, u: Name, a: Row, r: Option<Row>)
    requires Harmless(sch) && Like(sch, ideal, db) && f in sch.echoes && !IsAside(sch, u)
    requires Becomes(ideal, db, u, a, r) && Final(sch, u, r)
    ensures var r' := if r.None? && f.target == u && f.from == a && Armed(f, ideal) then Some(f.to) else r;
      Becomes(ideal, Fire(f, db), u, a, r') && Final(sch, u, r')
  {
    if r.Some? {
      FireKeepsMade(sch, ideal, db, f, u, a, r);
    } else {
      FireMakes(sch, ideal, db, f, u, a);
    }
  }

  lemma {:induction false} AfterRowBecomes(sch: Schema, ideal: Db, echoes: seq<Echo>, t: Name, row: Row, db: Db, u: Name, a: Row, r: Option<Row>)
    requires Harmless(sch) && Like(sch, ideal, db) && !IsAside(sch, u) && forall f :: f in echoes ==> f in sch.echoes
    requires Becomes(ideal, db, u, a, r) && Final(sch, u, r)
    ensures var r' := Either(r, RowsFirst(echoes, ideal, t, row, u, a));
      Becomes(ideal, AfterRow(echoes, t, row, db), u, a, r') && Final(sch, u, r')
    decreases |echoes|
  {
    if echoes != [] {
      var f := echoes[0];
      if f.table == t && f.row == row {
        FireBecomes(sch, ideal, db, f, u, a, r);
        FireKeepsLike(sch, ideal, db, f);
        var r' := if r.None? && f.target == u && f.from == a && Armed(f, ideal) then Some(f.to) else r;
        AfterRowBecomes(sch, ideal, echoes[1..], t, row, Fire(f, db), u, a, r');
      } else {
        AfterRowBecomes(sch, ideal, echoes[1..], t, row, db, u, a, r);
      }
    }
  }

  lemma {:induction false} AfterRowsBecome(sch: Schema, ideal: Db, t: Name, rows: Rows, db: Db, u: Name, a: Row, r: Option<Row>)
    requires Harmless(sch) && Like(sch, ideal, db) && !IsAside(sch, u)
    requires Becomes(ideal, db, u, a, r) && Final(sch, u, r)
    ensures var r' := Either(r, First(sch.echoes, ideal, t, rows, u, a));
      Becomes(ideal, AfterRows(sch.echoes, t, rows, db), u, a, r') && Final(sch, u, r')
    decreases |rows|
  {
    if rows != [] {
      var r' := Either(r, RowsFirst(sch.echoes, ideal, t, rows[0], u, a));
      AfterRowBecomes(sch, ideal, sch.echoes, t, rows[0], db, u, a, r);
      AfterRowKeepsLike(sch, ideal, db, sch.echoes, t, rows[0]);
      AfterRowsBecome(sch, ideal, t, rows[1..], AfterRow(sch.echoes, t, rows[0], db), u, a, r');
    }
  }

  // The trigger that came first was armed.
  lemma {:induction false} RowsFirstIsArmed(echoes: seq<Echo>, ideal: Db, t: Name, row: Row, u: Name, a: Row) returns (f: Echo)
    requires RowsFirst(echoes, ideal, t, row, u, a).Some?
    ensures f in echoes && f.table == t && f.row == row && f.target == u && f.from == a && Armed(f, ideal)
    ensures RowsFirst(echoes, ideal, t, row, u, a) == Some(f.to)
    decreases |echoes|
  {
    f := echoes[0];
    if !(f.table == t && f.row == row && f.target == u && f.from == a && Armed(f, ideal)) {
      f := RowsFirstIsArmed(echoes[1..], ideal, t, row, u, a);
    }
  }

  lemma {:induction false} FirstIsArmed(echoes: seq<Echo>, ideal: Db, t: Name, rows: Rows, u: Name, a: Row) returns (f: Echo)
    requires First(echoes, ideal, t, rows, u, a).Some?
    ensures f in echoes && f.table == t && f.row in rows && f.target == u && f.from == a && Armed(f, ideal)
    ensures First(echoes, ideal, t, rows, u, a) == Some(f.to)
    decreases |rows|
  {
    if RowsFirst(echoes, ideal, t, rows[0], u, a).Some? {
      f := RowsFirstIsArmed(echoes, ideal, t, rows[0], u, a);
    } else {
      f := FirstIsArmed(echoes, ideal, t, rows[1..], u, a);
    }
  }

  // Two databases on which the same of these triggers are armed.
  ghost predicate ArmAlike(echoes: seq<Echo>, x: Db, y: Db, t: Name, rows: Rows, u: Name, a: Row) {
    forall f :: f in echoes && f.table == t && f.row in rows && f.target == u && f.from == a ==> (Armed(f, x) <==> Armed(f, y))
  }

  lemma {:induction false} RowsFirstAlike(echoes: seq<Echo>, x: Db, y: Db, t: Name, row: Row, u: Name, a: Row)
    requires ArmAlike(echoes, x, y, t, [row], u, a)
    ensures RowsFirst(echoes, x, t, row, u, a) == RowsFirst(echoes, y, t, row, u, a)
    decreases |echoes|
  {
    if echoes != [] {
      assert echoes[0] in echoes && row in [row];
      RowsFirstAlike(echoes[1..], x, y, t, row, u, a);
    }
  }

  lemma {:induction false} FirstAlike(echoes: seq<Echo>, x: Db, y: Db, t: Name, rows: Rows, u: Name, a: Row)
    requires ArmAlike(echoes, x, y, t, rows, u, a)
    ensures First(echoes, x, t, rows, u, a) == First(echoes, y, t, rows, u, a)
    decreases |rows|
  {
    if rows != [] {
      assert rows[0] in rows;
      RowsFirstAlike(echoes, x, y, t, rows[0], u, a);
      FirstAlike(echoes, x, y, t, rows[1..], u, a);
    }
  }

  lemma {:induction false} ArmedComesFirst(echoes: seq<Echo>, ideal: Db, t: Name, rows: Rows, u: Name, a: Row, e: Echo)
    requires e in echoes && e.table == t && e.row in rows && e.target == u && e.from == a && Armed(e, ideal)
    ensures First(echoes, ideal, t, rows, u, a).Some?
    decreases |rows|
  {
    if rows[0] == e.row {
      ArmedComesFirstOfRow(echoes, ideal, t, rows[0], u, a, e);
    } else {
      ArmedComesFirst(echoes, ideal, t, rows[1..], u, a, e);
    }
  }

  lemma {:induction false} ArmedComesFirstOfRow(echoes: seq<Echo>, ideal: Db, t: Name, row: Row, u: Name, a: Row, e: Echo)
    requires e in echoes && e.table == t && e.row == row && e.target == u && e.from == a && Armed(e, ideal)
    ensures RowsFirst(echoes, ideal, t, row, u, a).Some?
    decreases |echoes|
  {
    if echoes[0] != e {
      ArmedComesFirstOfRow(echoes[1..], ideal, t, row, u, a, e);
    }
  }

  // ----- What a run makes of it -----

  // After n tables the database is the ideal one but for what triggers did.
  ghost predicate LikeAt(job: Job, o: seq<Name>, n: nat)
    requires job.Valid() && IsRun(job, o) && n <= |o|
  {
    Like(job.sch, job.With(Elems(o[..n])), After(job, o, n))
  }

  lemma LikeFirst(job: Job, o: seq<Name>)
    requires job.Valid() && IsRun(job, o)
    ensures LikeAt(job, o, 0)
  {
    RunStart(job, o);
    LikeItself(job.sch, After(job, o, 0));
  }

  lemma LikeNext(job: Job, o: seq<Name>, n: nat)
    requires job.Valid() && IsRun(job, o) && n < |o| && LikeAt(job, o, n)
    ensures LikeAt(job, o, n + 1)
  {
    RunStep(job, o, n);
    PerformKeepsLike(job.sch, job.With(Elems(o[..n])), After(job, o, n), o[n], job.RowsOf(o[n]));
  }

  lemma {:induction false} RunIsLike(job: Job, o: seq<Name>, n: nat)
    requires job.Valid() && IsRun(job, o) && n <= |o|
    ensures LikeAt(job, o, n)
    decreases n
  {
    if n == 0 {
      LikeFirst(job, o);
    } else {
      var m := n - 1;
      RunIsLike(job, o, m);
      LikeNext(job, o, m);
      assert n == m + 1;
    }
  }

  // What the INSERT of table t after `done` makes of row `a` of table u.
  ghost function StepTo(job: Job, done: set<Name>, t: Name, u: Name, a: Row): Option<Row>
    requires job.Valid()
  {
    if t in job.cp then First(job.sch.echoes, job.With(done + {t}), t, job.RowsOf(t), u, a) else None
  }

  // What the first n tables of a run make of it.
  ghost function RunTo(job: Job, o: seq<Name>, n: nat, u: Name, a: Row): Option<Row>
    requires job.Valid() && n <= |o|
    decreases n
  {
    if n == 0 then None
    else Either(RunTo(job, o, n - 1, u, a), StepTo(job, Elems(o[..n - 1]), o[n - 1], u, a))
  }

  // A trigger fires during the INSERT of a table only if the checkpoint would set it off and all it needs is in.
  lemma StepToIsLoaded(job: Job, done: set<Name>, t: Name, u: Name, a: Row) returns (f: Echo)
    requires job.Valid() && t in job.cp && done <= job.cp.Keys && StepTo(job, done, t, u, a).Some?
    ensures Loaded(job, f) && f.table == t && f.target == u && f.from == a && Needs(job, f) <= done
  {
    f := FirstIsArmed(job.sch.echoes, job.With(done + {t}), t, job.RowsOf(t), u, a);
    FiresOnceNeedsAreIn(job, done, f);
  }

  // Once the row has been changed its table is in.
  ghost predicate ChangedAt(job: Job, o: seq<Name>, n: nat, u: Name, a: Row)
    requires job.Valid() && IsRun(job, o) && n <= |o|
  {
    && Becomes(job.With(Elems(o[..n])), After(job, o, n), u, a, RunTo(job, o, n, u, a))
    && Final(job.sch, u, RunTo(job, o, n, u, a))
    && (RunTo(job, o, n, u, a).Some? && u in job.cp ==> u in Elems(o[..n]))
  }

  lemma InsertBecomes(ideal: Db, db: Db, t: Name, rows: Rows, u: Name, a: Row, r: Option<Row>)
    requires t in ideal && t in db && Becomes(ideal, db, u, a, r) && (t == u ==> r.None?)
    ensures Becomes(Insert(ideal, t, rows), Insert(db, t, rows), u, a, r)
  {}

  lemma StepPutsTableIn(job: Job, o: seq<Name>, m: nat, u: Name, a: Row)
    requires job.Valid() && IsRun(job, o) && m < |o| && u in job.cp
    requires StepTo(job, Elems(o[..m]), o[m], u, a).Some?
    ensures u in Elems(o[..m + 1])
  {
    RunNext(job, o, m);
    var f := StepToIsLoaded(job, Elems(o[..m]), o[m], u, a);
    assert u != f.table ==> u in Needs(job, f);
  }

  lemma ChangedNext(job: Job, o: seq<Name>, m: nat, u: Name, a: Row)
    requires job.Valid() && IsRun(job, o) && m < |o| && !IsAside(job.sch, u) && LikeAt(job, o, m) && ChangedAt(job, o, m, u, a)
    ensures ChangedAt(job, o, m + 1, u, a)
  {
    var done, t := Elems(o[..m]), o[m];
    RunStep(job, o, m);
    var db, rows, r := After(job, o, m), job.RowsOf(t), RunTo(job, o, m, u, a);
    InsertBecomes(job.With(done), db, t, rows, u, a, r);
    LikeInsert(job.sch, job.With(done), db, t, rows);
    AfterRowsBecome(job.sch, job.With(done + {t}), t, rows, Insert(db, t, rows), u, a, r);
    if u in job.cp && StepTo(job, done, t, u, a).Some? {
      StepPutsTableIn(job, o, m, u, a);
    }
  }

  lemma {:induction false} RunChanges(job: Job, o: seq<Name>, n: nat, u: Name, a: Row)
    requires job.Valid() && IsRun(job, o) && n <= |o| && !IsAside(job.sch, u) && u in job.base
    ensures ChangedAt(job, o, n, u, a)
    decreases n
  {
    if n == 0 {
      RunStart(job, o);
    } else {
      var m := n - 1;
      RunChanges(job, o, m, u, a);
      RunIsLike(job, o, m);
      ChangedNext(job, o, m, u, a);
      assert n == m + 1;
    }
  }

  // ----- Which order makes what of it -----

  // Triggers that look for the same row and that the checkpoint would set off watch the same table and need the same
  // tables.
  ghost predicate OneTriggerEach(job: Job)
    requires job.Valid()
  {
    forall e, f :: Loaded(job, e) && Loaded(job, f) && e.target == f.target && e.from == f.from ==>
      e.table == f.table && Needs(job, e) == Needs(job, f)
  }

  // The triggers that look for the same row as e, as OneTriggerEach has them.
  ghost predicate LikeTheOthers(job: Job, e: Echo)
    requires job.Valid()
  {
    forall f :: Loaded(job, f) && f.target == e.target && f.from == e.from ==> f.table == e.table && Needs(job, f) == Needs(job, e)
  }

  lemma AllAlike(job: Job, e: Echo)
    requires job.Valid() && OneTriggerEach(job) && Loaded(job, e)
    ensures LikeTheOthers(job, e)
  {}

  // A whole run.
  ghost predicate Full(job: Job, o: seq<Name>) {
    IsRun(job, o) && Elems(o) == job.cp.Keys
  }

  // What the triggers on table t make of row `a` of table u once all is in: the first in the order of the inserted rows,
  // and then of the triggers, decides.
  ghost function Winner(job: Job, t: Name, u: Name, a: Row): Option<Row>
    requires job.Valid()
  {
    if t in job.cp then First(job.sch.echoes, job.With(job.cp.Keys), t, job.RowsOf(t), u, a) else None
  }

  lemma OtherTablesSpare(job: Job, done: set<Name>, t: Name, e: Echo)
    requires job.Valid() && LikeTheOthers(job, e) && Loaded(job, e) && t in job.cp && done <= job.cp.Keys && t != e.table
    ensures StepTo(job, done, t, e.target, e.from).None?
  {
    if StepTo(job, done, t, e.target, e.from).Some? {
      var f := StepToIsLoaded(job, done, t, e.target, e.from);
    }
  }

  lemma OwnTableDecides(job: Job, done: set<Name>, e: Echo)
    requires job.Valid() && LikeTheOthers(job, e) && Loaded(job, e) && done <= job.cp.Keys
    ensures StepTo(job, done, e.table, e.target, e.from)
         == if Needs(job, e) <= done then Winner(job, e.table, e.target, e.from) else None
  {
    var t, u, a := e.table, e.target, e.from;
    if Needs(job, e) <= done {
      forall f | f in job.sch.echoes && f.table == t && f.row in job.RowsOf(t) && f.target == u && f.from == a
        ensures Armed(f, job.With(done + {t})) <==> Armed(f, job.With(job.cp.Keys))
      {
        FiresOnceNeedsAreIn(job, done, f);
      }
      FirstAlike(job.sch.echoes, job.With(done + {t}), job.With(job.cp.Keys), t, job.RowsOf(t), u, a);
    } else if StepTo(job, done, t, u, a).Some? {
      var f := StepToIsLoaded(job, done, t, u, a);
    }
  }

  lemma WinnerExists(job: Job, e: Echo)
    requires job.Valid() && Loaded(job, e)
    ensures Winner(job, e.table, e.target, e.from).Some?
  {
    ArmedComesFirst(job.sch.echoes, job.With(job.cp.Keys), e.table, job.RowsOf(e.table), e.target, e.from, e);
  }

  // Position of the trigger's table in the run, and what has been made of the row before and after it.
  lemma {:induction false} RunDecides(job: Job, o: seq<Name>, n: nat, e: Echo, m: nat)
    requires job.Valid() && LikeTheOthers(job, e) && IsRun(job, o) && n <= |o| && Loaded(job, e) && m < |o| && o[m] == e.table
    ensures RunTo(job, o, n, e.target, e.from)
         == if n > m && Needs(job, e) <= Elems(o[..m]) then Winner(job, e.table, e.target, e.from) else None
    decreases n
  {
    if n > 0 {
      var k := n - 1;
      RunDecides(job, o, k, e, m);
      RunNext(job, o, k);
      if k == m {
        OwnTableDecides(job, Elems(o[..k]), e);
      } else {
        assert o[k] != o[m];
        OtherTablesSpare(job, Elems(o[..k]), o[k], e);
      }
      WinnerExists(job, e);
    }
  }

  lemma {:induction false} NothingDecides(job: Job, o: seq<Name>, n: nat, u: Name, a: Row)
    requires job.Valid() && IsRun(job, o) && n <= |o| && forall e :: Loaded(job, e) ==> e.target != u || e.from != a
    ensures RunTo(job, o, n, u, a).None?
    decreases n
  {
    if n > 0 {
      var k := n - 1;
      NothingDecides(job, o, k, u, a);
      RunNext(job, o, k);
      if StepTo(job, Elems(o[..k]), o[k], u, a).Some? {
        var f := StepToIsLoaded(job, Elems(o[..k]), o[k], u, a);
      }
    }
  }

  lemma ComesAfterAt(o: seq<Name>, m: nat, needs: set<Name>)
    requires Distinct(o) && m < |o|
    ensures ComesAfter(o, o[m], needs) <==> needs <= Elems(o[..m])
  {}

  // What becomes of a row that some trigger would change.
  lemma RunToIs(job: Job, o: seq<Name>, e: Echo)
    requires job.Valid() && LikeTheOthers(job, e) && Full(job, o) && Loaded(job, e)
    ensures RunTo(job, o, |o|, e.target, e.from)
         == if ComesAfter(o, e.table, Needs(job, e)) then Winner(job, e.table, e.target, e.from) else None
  {
    var m := PositionOf(o, e.table);
    ComesAfterAt(o, m, Needs(job, e));
    RunDecides(job, o, |o|, e, m);
  }

  // ----- Two runs -----

  // The same rows in every table but those that triggers write aside into.
  ghost predicate SameRows(sch: Schema, a: Db, b: Db) {
    a.Keys == b.Keys && forall t :: t in a && !IsAside(sch, t) ==> a[t] == b[t]
  }

  // What is at one place after a run.
  lemma RowAfter(job: Job, o: seq<Name>, t: Name, i: nat)
    requires job.Valid() && Full(job, o) && t in job.base && !IsAside(job.sch, t)
    ensures |After(job, o, |o|)[t]| == |job.With(job.cp.Keys)[t]|
    ensures i < |After(job, o, |o|)[t]| ==>
      var a := job.With(job.cp.Keys)[t][i]; var r := RunTo(job, o, |o|, t, a);
      After(job, o, |o|)[t][i] == if r.Some? then r.value else a
  {
    assert o[..|o|] == o;
    RunIsLike(job, o, |o|);
    assert LikeRows(job.sch, t, job.With(job.cp.Keys)[t], After(job, o, |o|)[t]);
    if i < |After(job, o, |o|)[t]| {
      RunChanges(job, o, |o|, t, job.With(job.cp.Keys)[t][i]);
    }
  }

  // The trigger acts alike in both runs.
  ghost predicate ActsAlike(job: Job, o: seq<Name>, p: seq<Name>, e: Echo) {
    ComesAfter(o, e.table, Needs(job, e)) <==> ComesAfter(p, e.table, Needs(job, e))
  }

  lemma SameFate(job: Job, o: seq<Name>, p: seq<Name>, t: Name, a: Row)
    requires job.Valid() && OneTriggerEach(job) && Full(job, o) && Full(job, p)
    requires forall e :: Loaded(job, e) ==> ActsAlike(job, o, p, e)
    ensures RunTo(job, o, |o|, t, a) == RunTo(job, p, |p|, t, a)
  {
    if e :| Loaded(job, e) && e.target == t && e.from == a {
      assert ActsAlike(job, o, p, e);
      AllAlike(job, e);
      RunToIs(job, o, e);
      RunToIs(job, p, e);
    } else {
      NothingDecides(job, o, |o|, t, a);
      NothingDecides(job, p, |p|, t, a);
    }
  }

  lemma AlikeRuns(job: Job, o: seq<Name>, p: seq<Name>)
    requires job.Valid() && OneTriggerEach(job) && Full(job, o) && Full(job, p)
    requires forall e :: Loaded(job, e) ==> ActsAlike(job, o, p, e)
    ensures SameRows(job.sch, After(job, o, |o|), After(job, p, |p|))
  {
    forall t | t in job.base && !IsAside(job.sch, t)
      ensures After(job, o, |o|)[t] == After(job, p, |p|)[t]
    {
      RowAfter(job, o, t, 0);
      RowAfter(job, p, t, 0);
      forall i: nat | i < |job.With(job.cp.Keys)[t]|
        ensures After(job, o, |o|)[t][i] == After(job, p, |p|)[t][i]
      {
        RowAfter(job, o, t, i);
        RowAfter(job, p, t, i);
        SameFate(job, o, p, t, job.With(job.cp.Keys)[t][i]);
      }
    }
  }

  // What a trigger makes of a row is another row.
  lemma WinnerDiffers(job: Job, e: Echo)
    requires job.Valid() && Loaded(job, e)
    ensures Winner(job, e.table, e.target, e.from).Some? && Winner(job, e.table, e.target, e.from).value != e.from
  {
    WinnerExists(job, e);
    var f := FirstIsArmed(job.sch.echoes, job.With(job.cp.Keys), e.table, job.RowsOf(e.table), e.target, e.from);
  }

  lemma UnlikeRuns(job: Job, o: seq<Name>, p: seq<Name>, e: Echo)
    requires job.Valid() && OneTriggerEach(job) && Full(job, o) && Full(job, p) && Loaded(job, e)
    requires SameRows(job.sch, After(job, o, |o|), After(job, p, |p|))
    ensures ActsAlike(job, o, p, e)
  {
    var t := e.target;
    assert !IsAside(job.sch, t);
    var i :| 0 <= i < |job.With(job.cp.Keys)[t]| && job.With(job.cp.Keys)[t][i] == e.from;
    RowAfter(job, o, t, i);
    RowAfter(job, p, t, i);
    AllAlike(job, e);
    RunToIs(job, o, e);
    RunToIs(job, p, e);
    WinnerDiffers(job, e);
  }

  // ----- All orders -----

  lemma {:induction false} PositionOf(o: seq<Name>, t: Name) returns (k: nat)
    requires t in Elems(o)
    ensures k < |o| && o[k] == t
  {
    k :| 0 <= k < |o| && o[k] == t;
  }

  // Either `w` comes after all it needs, or something it needs comes after it.
  lemma BeforeSomeNeed(o: seq<Name>, w: Name, needs: set<Name>)
    requires Distinct(o) && w in Elems(o) && needs <= Elems(o) && w !in needs
    ensures ComesAfter(o, w, needs) <==> forall n :: n in needs ==> !ComesAfter(o, n, {w})
  {
    var k := PositionOf(o, w);
    forall n | n in needs
      ensures ComesAfter(o, n, {w}) <==> n !in Elems(o[..k])
    {
      var j := PositionOf(o, n);
      if j > k {
        assert w in o[..j];
        assert ComesAfter(o, n, {w});
      } else {
        assert n in o[..k];
        assert forall m :: 0 <= m < |o| && o[m] == n ==> m == j;
        assert w !in Elems(o[..j]);
      }
    }
    assert forall m :: 0 <= m < |o| && o[m] == w ==> m == k;
  }

  // In no order does the trigger's table come after all the trigger needs.
  ghost predicate NeverSetOff(job: Job, e: Echo)
    requires job.Valid()
  {
    !(Needs(job, e) <= job.AsRules().Without(e.table))
  }

  // In every order it does: nothing it needs can go in after its table.
  ghost predicate AlwaysSetOff(job: Job, e: Echo)
    requires job.Valid()
  {
    forall n :: n in Needs(job, e) ==> e.table !in job.AsRules().Without(n)
  }

  ghost predicate AllRestore(job: Job)
    requires job.Valid()
  {
    job.AsRules().WithoutRefusals().SomeOrderWorks() && NothingOvertaken(job.AsRules())
  }

  lemma OrderIsFull(job: Job, listing: seq<Name>)
    requires job.Valid() && AllRestore(job) && Lists(listing, job.cp.Keys)
    ensures Full(job, job.AsRules().Order(listing))
  {
    var r := job.AsRules();
    RulesAreValid(job);
    EveryListingSucceedsIff(r);
    var o := ListingTrace(r, listing);
    LegalIsFresh(r, {}, o);
    assert r.Succeeds(listing);
  }

  lemma NeverIff(job: Job, e: Echo)
    requires job.Valid() && AllRestore(job) && Loaded(job, e)
    ensures NeverSetOff(job, e) <==> forall listing :: Lists(listing, job.cp.Keys) ==>
      !ComesAfter(job.AsRules().Order(listing), e.table, Needs(job, e))
  {
    RulesAreValid(job);
    SomeListingPutsAfterIff(job.AsRules(), e.table, Needs(job, e));
  }

  lemma AlwaysIff(job: Job, e: Echo)
    requires job.Valid() && AllRestore(job) && Loaded(job, e)
    ensures AlwaysSetOff(job, e) <==> forall listing :: Lists(listing, job.cp.Keys) ==>
      ComesAfter(job.AsRules().Order(listing), e.table, Needs(job, e))
  {
    var r := job.AsRules();
    RulesAreValid(job);
    forall n | n in Needs(job, e)
      ensures e.table in r.Without(n) <==> exists listing :: Lists(listing, r.all) && ComesAfter(r.Order(listing), n, {e.table})
    {
      SomeListingPutsAfterIff(r, n, {e.table});
    }
    forall listing | Lists(listing, job.cp.Keys)
      ensures ComesAfter(r.Order(listing), e.table, Needs(job, e)) <==>
        forall n :: n in Needs(job, e) ==> !ComesAfter(r.Order(listing), n, {e.table})
    {
      OrderIsFull(job, listing);
      BeforeSomeNeed(r.Order(listing), e.table, Needs(job, e));
    }
  }

  lemma PairsActAlike(job: Job, e: Echo)
    requires job.Valid() && AllRestore(job) && Loaded(job, e)
    ensures NeverSetOff(job, e) || AlwaysSetOff(job, e) <==>
      forall c, d :: Lists(c, job.cp.Keys) && Lists(d, job.cp.Keys) ==>
        ActsAlike(job, job.AsRules().Order(c), job.AsRules().Order(d), e)
  {
    NeverIff(job, e);
    AlwaysIff(job, e);
  }

  lemma SameRowsIffAlike(job: Job, o: seq<Name>, p: seq<Name>)
    requires job.Valid() && OneTriggerEach(job) && Full(job, o) && Full(job, p)
    ensures SameRows(job.sch, After(job, o, |o|), After(job, p, |p|)) <==> forall e :: Loaded(job, e) ==> ActsAlike(job, o, p, e)
  {
    if SameRows(job.sch, After(job, o, |o|), After(job, p, |p|)) {
      forall e | Loaded(job, e)
        ensures ActsAlike(job, o, p, e)
      {
        UnlikeRuns(job, o, p, e);
      }
    }
    if forall e :: Loaded(job, e) ==> ActsAlike(job, o, p, e) {
      AlikeRuns(job, o, p);
    }
  }

  // ----- The main results -----

  /** Some catalog order restores exactly when some order of whole-table inserts works, refusals included. */
  lemma SomeCatalogOrderRestoresIff(sch: Schema, live: Db, cp: Db)
    requires CanStart(sch, live, cp)
    ensures (exists catalog :: Lists(catalog, cp.Keys) && Restores(sch, live, cp, catalog)) <==> SomeInsertOrderWorks(sch, live, cp)
  {
    var r := Started(sch, live, cp).AsRules();
    if catalog :| Lists(catalog, cp.Keys) && Restores(sch, live, cp, catalog) {
      RestoreFollowsOrder(sch, live, cp, catalog);
      assert r.Legal({}, InsertOrder(sch, live, cp, catalog));
    }
    if SomeInsertOrderWorks(sch, live, cp) {
      var o: seq<Name> :| r.Legal({}, o) && Elems(o) == r.all;
      LegalIsFresh(r, {}, o);
      LegalListingIsItsOrder(r, o);
      RestoreIsSettle(sch, live, cp, o);
    }
  }

  /** Two restores end alike: both fail, and then leave the slot as it was, or both succeed with the same rows in every
      table but those that triggers write aside into. */
  ghost predicate EndAlike(sch: Schema, live: Db, cp: Db, catalog: seq<Name>, other: seq<Name>)
    requires cp.Keys <= live.Keys && Lists(catalog, cp.Keys) && Lists(other, cp.Keys)
  {
    assert forall t :: t in catalog ==> t in Elems(catalog);
    assert forall t :: t in other ==> t in Elems(other);
    && (Restores(sch, live, cp, catalog) <==> Restores(sch, live, cp, other))
    && (Restores(sch, live, cp, catalog) ==> SameRows(sch, Restored(sch, live, cp, catalog), Restored(sch, live, cp, other)))
  }

  // Each trigger the checkpoint would set off is set off in no order, or in all.
  ghost predicate NoneOrAllSetOff(job: Job)
    requires job.Valid()
  {
    forall e :: Loaded(job, e) ==> NeverSetOff(job, e) || AlwaysSetOff(job, e)
  }

  lemma RestoredPairAlikeIff(sch: Schema, live: Db, cp: Db, catalog: seq<Name>, other: seq<Name>)
    requires CanStart(sch, live, cp) && OneTriggerEach(Started(sch, live, cp))
    requires Lists(catalog, cp.Keys) && Lists(other, cp.Keys)
    requires Restores(sch, live, cp, catalog) && Restores(sch, live, cp, other)
    ensures EndAlike(sch, live, cp, catalog, other) <==> forall e :: Loaded(Started(sch, live, cp), e) ==>
      ActsAlike(Started(sch, live, cp), InsertOrder(sch, live, cp, catalog), InsertOrder(sch, live, cp, other), e)
  {
    RestoreIsRun(sch, live, cp, catalog);
    RestoreIsRun(sch, live, cp, other);
    SameRowsIffAlike(Started(sch, live, cp), InsertOrder(sch, live, cp, catalog), InsertOrder(sch, live, cp, other));
  }

  lemma AllRestoreRestores(sch: Schema, live: Db, cp: Db, catalog: seq<Name>)
    requires CanStart(sch, live, cp) && AllRestore(Started(sch, live, cp)) && Lists(catalog, cp.Keys)
    ensures Restores(sch, live, cp, catalog)
  {
    NothingRefusedIs(sch, live, cp);
    EveryCatalogOrderRestoresIff(sch, live, cp);
  }

  lemma AlikeEndsAct(sch: Schema, live: Db, cp: Db, catalog: seq<Name>, other: seq<Name>, e: Echo)
    requires CanStart(sch, live, cp) && OneTriggerEach(Started(sch, live, cp)) && AllRestore(Started(sch, live, cp))
    requires Lists(catalog, cp.Keys) && Lists(other, cp.Keys)
    requires EndAlike(sch, live, cp, catalog, other) && Loaded(Started(sch, live, cp), e)
    ensures ActsAlike(Started(sch, live, cp), InsertOrder(sch, live, cp, catalog), InsertOrder(sch, live, cp, other), e)
  {
    AllRestoreRestores(sch, live, cp, catalog);
    AllRestoreRestores(sch, live, cp, other);
    RestoredPairAlikeIff(sch, live, cp, catalog, other);
  }

  lemma SteadyEndsAlike(sch: Schema, live: Db, cp: Db, catalog: seq<Name>, other: seq<Name>)
    requires CanStart(sch, live, cp) && OneTriggerEach(Started(sch, live, cp)) && AllRestore(Started(sch, live, cp))
    requires Lists(catalog, cp.Keys) && Lists(other, cp.Keys) && NoneOrAllSetOff(Started(sch, live, cp))
    ensures EndAlike(sch, live, cp, catalog, other)
  {
    AllRestoreRestores(sch, live, cp, catalog);
    AllRestoreRestores(sch, live, cp, other);
    forall e | Loaded(Started(sch, live, cp), e)
      ensures ActsAlike(Started(sch, live, cp), InsertOrder(sch, live, cp, catalog), InsertOrder(sch, live, cp, other), e)
    {
      PairsActAlike(Started(sch, live, cp), e);
    }
    RestoredPairAlikeIff(sch, live, cp, catalog, other);
  }

  ghost predicate AllEndAlike(sch: Schema, live: Db, cp: Db)
    requires cp.Keys <= live.Keys
  {
    forall catalog, other :: Lists(catalog, cp.Keys) && Lists(other, cp.Keys) ==> EndAlike(sch, live, cp, catalog, other)
  }

  lemma AlikeIsSteady(sch: Schema, live: Db, cp: Db, e: Echo)
    requires CanStart(sch, live, cp) && OneTriggerEach(Started(sch, live, cp)) && AllRestore(Started(sch, live, cp))
    requires AllEndAlike(sch, live, cp) && Loaded(Started(sch, live, cp), e)
    ensures NeverSetOff(Started(sch, live, cp), e) || AlwaysSetOff(Started(sch, live, cp), e)
  {
    var job := Started(sch, live, cp);
    forall c, d | Lists(c, cp.Keys) && Lists(d, cp.Keys)
      ensures ActsAlike(job, job.AsRules().Order(c), job.AsRules().Order(d), e)
    {
      AlikeEndsAct(sch, live, cp, c, d, e);
    }
    PairsActAlike(job, e);
  }

  lemma AlikeMeansAllRestore(sch: Schema, live: Db, cp: Db)
    requires CanStart(sch, live, cp) && AllEndAlike(sch, live, cp) && SomeInsertOrderWorks(sch, live, cp)
    ensures ForeignKeysAdmitOrder(sch, live, cp) && NothingRefused(sch, live, cp)
  {
    SomeCatalogOrderRestoresIff(sch, live, cp);
    var good :| Lists(good, cp.Keys) && Restores(sch, live, cp, good);
    forall catalog | Lists(catalog, cp.Keys)
      ensures Restores(sch, live, cp, catalog)
    {
      assert EndAlike(sch, live, cp, good, catalog);
    }
    EveryCatalogOrderRestoresIff(sch, live, cp);
  }

  lemma NoneRestoresIsAlike(sch: Schema, live: Db, cp: Db)
    requires CanStart(sch, live, cp) && !SomeInsertOrderWorks(sch, live, cp)
    ensures AllEndAlike(sch, live, cp)
  {
    SomeCatalogOrderRestoresIff(sch, live, cp);
    forall catalog, other | Lists(catalog, cp.Keys) && Lists(other, cp.Keys)
      ensures EndAlike(sch, live, cp, catalog, other)
    {
      assert !Restores(sch, live, cp, catalog) && !Restores(sch, live, cp, other);
    }
  }

  lemma SteadyIsAlike(sch: Schema, live: Db, cp: Db)
    requires CanStart(sch, live, cp) && OneTriggerEach(Started(sch, live, cp)) && AllRestore(Started(sch, live, cp))
    requires NoneOrAllSetOff(Started(sch, live, cp))
    ensures AllEndAlike(sch, live, cp)
  {
    forall catalog, other | Lists(catalog, cp.Keys) && Lists(other, cp.Keys)
      ensures EndAlike(sch, live, cp, catalog, other)
    {
      SteadyEndsAlike(sch, live, cp, catalog, other);
    }
  }

  /** All catalog orders end alike if and only if none can succeed, because no order of inserts works, or all do, because
      the foreign keys admit an order and no table is refused by what can be restored without it, and each trigger the
      checkpoint would set off is set off in no order or in every order. */
  lemma EveryCatalogOrderEndsAlikeIff(sch: Schema, live: Db, cp: Db)
    requires CanStart(sch, live, cp) && OneTriggerEach(Started(sch, live, cp))
    ensures AllEndAlike(sch, live, cp)
       <==> || !SomeInsertOrderWorks(sch, live, cp)
            || (ForeignKeysAdmitOrder(sch, live, cp) && NothingRefused(sch, live, cp) && NoneOrAllSetOff(Started(sch, live, cp)))
  {
    NothingRefusedIs(sch, live, cp);
    if !SomeInsertOrderWorks(sch, live, cp) {
      NoneRestoresIsAlike(sch, live, cp);
    } else if AllEndAlike(sch, live, cp) {
      AlikeMeansAllRestore(sch, live, cp);
      forall e | Loaded(Started(sch, live, cp), e)
        ensures NeverSetOff(Started(sch, live, cp), e) || AlwaysSetOff(Started(sch, live, cp), e)
      {
        AlikeIsSteady(sch, live, cp, e);
      }
    } else if AllRestore(Started(sch, live, cp)) && NoneOrAllSetOff(Started(sch, live, cp)) {
      SteadyIsAlike(sch, live, cp);
    }
  }
}
