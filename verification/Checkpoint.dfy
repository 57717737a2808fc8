/** RestoreCheckpoint: the tables of a checkpoint put back by retrying each INSERT under its own savepoint until a
    pass makes no progress. */
module Checkpoint {
  import opened Relational
  import opened Triggers
  import opened Greedy

  // ----- The retry loop, on databases -----

  // One pass over `pending`: the database after it, and the tables whose INSERT failed, in order.
  function Pass(sch: Schema, cp: Db, db: Db, pending: seq<Name>): (Db, seq<Name>)
    requires forall t :: t in pending ==> t in cp && t in db
  {
    if pending == [] then
      (db, [])
    else
      var t := pending[0];
      var rows := Stored(sch, t, cp[t]);
      if InsertSucceeds(sch, db, t, rows) then
        Pass(sch, cp, Perform(sch, db, t, rows), pending[1..])
      else
        var (after, failed) := Pass(sch, cp, db, pending[1..]);
        (after, [t] + failed)
  }

  lemma {:induction false} PassShape(sch: Schema, cp: Db, db: Db, pending: seq<Name>)
    requires forall t :: t in pending ==> t in cp && t in db
    ensures Pass(sch, cp, db, pending).0.Keys == db.Keys
    ensures |Pass(sch, cp, db, pending).1| <= |pending|
    ensures forall t :: t in Pass(sch, cp, db, pending).1 ==> t in pending
    decreases |pending|
  {
    if pending != [] {
      var t := pending[0];
      var rows := Stored(sch, t, cp[t]);
      if InsertSucceeds(sch, db, t, rows) {
        PassShape(sch, cp, Perform(sch, db, t, rows), pending[1..]);
      } else {
        PassShape(sch, cp, db, pending[1..]);
      }
    }
  }

  function Retry(sch: Schema, cp: Db, db: Db, pending: seq<Name>): (r: (Db, seq<Name>))
    requires forall t :: t in pending ==> t in cp && t in db
    ensures r.0.Keys == db.Keys
    decreases |pending|
  {
    PassShape(sch, cp, db, pending);
    var (after, failed) := Pass(sch, cp, db, pending);
    if pending == [] || |failed| == |pending| then
      (after, failed)
    else
      Retry(sch, cp, after, failed)
  }

  // ----- The same loop, on the set of tables already restored -----

  /** A restore: `base` is the live schema after TRUNCATE, `cp` the checkpoint. */
  datatype Job = Job(sch: Schema, base: Db, cp: Db) {

    ghost predicate Valid() {
      cp.Keys <= base.Keys && (forall t :: t in cp ==> base[t] == []) && Harmless(sch)
    }

    function RowsOf(t: Name): Rows
      requires t in cp
    {
      Stored(sch, t, cp[t])
    }

    // The live schema once exactly the tables of `done` are restored, had no trigger changed another table.
    ghost function With(done: set<Name>): Db
      requires Valid()
    {
      map t | t in base :: if t in done && t in cp then RowsOf(t) else base[t]
    }

    ghost function AsRules(): Rules<Name>
      requires Valid()
    {
      Rules.Rules(
        cp.Keys,
        (done, t) => t in cp && ReferencesMet(sch, With(done), t, RowsOf(t)),
        (done, t) => t in cp && TriggerRefuses(sch, With(done), t, RowsOf(t)))
    }

    // Restoring a table after exactly `done` sets off an AFTER trigger.
    ghost function Fires(): (set<Name>, Name) -> bool
      requires Valid()
    {
      (done, t) => t in cp && SomeFires(sch.echoes, t, RowsOf(t), With(done + {t}))
    }
  }

  // Every row of `small` is in `big`.
  ghost predicate Within(small: Db, big: Db) {
    forall t, row :: HasRow(small, t, row) ==> HasRow(big, t, row)
  }

  lemma MoreRowsRefer(sch: Schema, less: Db, more: Db, t: Name, rows: Rows)
    requires t in less && t in more && Within(less, more) && ReferencesMet(sch, less, t, rows)
    ensures ReferencesMet(sch, more, t, rows)
  {
    var after, after' := Insert(less, t, rows), Insert(more, t, rows);
    forall fk, row | fk in sch.fks && fk.child == t && row in rows
      ensures RefersWithinDb(after', fk, row)
    {
      assert RefersWithinDb(after, fk, row);
      if p :| fk.parent in after && p in after[fk.parent] && Matches(fk, row, p) {
        assert HasRow(less, fk.parent, p) || p in rows;
        assert HasRow(after', fk.parent, p);
      }
    }
  }

  lemma MoreRowsRefuse(sch: Schema, less: Db, more: Db, t: Name, rows: Rows)
    requires t in less && t in more && Within(less, more) && TriggerRefuses(sch, less, t, rows)
    ensures TriggerRefuses(sch, more, t, rows)
  {
    var rf, k :| rf in sch.refusals && 0 <= k < |rows| && RefusesRow(rf, less, t, rows, k);
    forall tr | tr in rf.presence
      ensures HasRow(Insert(more, t, rows[..k]), tr.0, tr.1)
    {
      assert HasRow(Insert(less, t, rows[..k]), tr.0, tr.1);
      assert HasRow(less, tr.0, tr.1) || (tr.0 == t && tr.1 in rows[..k]);
    }
    assert RefusesRow(rf, more, t, rows, k);
  }

  lemma WithGrows(job: Job, small: set<Name>, big: set<Name>)
    requires job.Valid() && small <= big
    ensures Within(job.With(small), job.With(big))
  {}

  lemma MoreRowsMeetMore(job: Job, small: set<Name>, big: set<Name>, t: Name)
    requires job.Valid() && t in job.cp && small <= big && t !in big
    ensures job.AsRules().Kept(small, big, t)
  {
    WithGrows(job, small, big);
    var less, more := job.With(small), job.With(big);
    if job.AsRules().met(small, t) {
      MoreRowsRefer(job.sch, less, more, t, job.RowsOf(t));
    }
    if job.AsRules().refused(small, t) {
      MoreRowsRefuse(job.sch, less, more, t, job.RowsOf(t));
    }
  }

  lemma RulesAreValid(job: Job)
    requires job.Valid()
    ensures job.AsRules().Valid()
  {
    forall small: set<Name>, big: set<Name>, t: Name | small <= big && t in job.cp && t !in big {
      MoreRowsMeetMore(job, small, big, t);
    }
  }

  lemma InsertExtends(job: Job, done: set<Name>, t: Name)
    requires job.Valid() && t in job.cp && t !in done
    ensures Insert(job.With(done), t, job.RowsOf(t)) == job.With(done + {t})
  {
    var before, after := job.With(done), job.With(done + {t});
    assert before[t] == [] && [] + job.RowsOf(t) == job.RowsOf(t);
    assert forall u :: u in before && u != t ==> after[u] == before[u];
  }

  // `db` is the live schema with the tables of `done` restored, and whatever triggers made of it.
  ghost predicate Reached(job: Job, done: set<Name>, db: Db)
    requires job.Valid()
  {
    Like(job.sch, job.With(done), db) && AsidesRefer(job.sch, db)
  }

  lemma ReadyMeansInserted(job: Job, done: set<Name>, db: Db, t: Name)
    requires job.Valid() && t in job.cp && Reached(job, done, db)
    ensures t in db && job.AsRules().Ready(done, t) == InsertSucceeds(job.sch, db, t, job.RowsOf(t))
  {
    var r, ideal, rows := job.AsRules(), job.With(done), job.RowsOf(t);
    SameInsertSucceeds(job.sch, ideal, db, t, rows);
    assert r.met(done, t) == ReferencesMet(job.sch, ideal, t, rows);
    assert r.refused(done, t) == TriggerRefuses(job.sch, ideal, t, rows);
  }

  lemma InsertReaches(job: Job, done: set<Name>, db: Db, t: Name)
    requires job.Valid() && t in job.cp && t !in done && Reached(job, done, db) && job.AsRules().Ready(done, t)
    ensures t in db && Reached(job, done + {t}, Perform(job.sch, db, t, job.RowsOf(t)))
  {
    ReadyMeansInserted(job, done, db, t);
    InsertExtends(job, done, t);
    PerformKeepsLike(job.sch, job.With(done), db, t, job.RowsOf(t));
    PerformKeepsAsides(job.sch, db, t, job.RowsOf(t));
  }

  // The tables of `o` inserted one after the other.
  function PerformAll(sch: Schema, cp: Db, db: Db, o: seq<Name>): (after: Db)
    requires forall t :: t in o ==> t in cp && t in db
    ensures after.Keys == db.Keys
    decreases |o|
  {
    if o == [] then db else PerformAll(sch, cp, Perform(sch, db, o[0], Stored(sch, o[0], cp[o[0]])), o[1..])
  }

  lemma {:induction false} PerformAllAppend(sch: Schema, cp: Db, db: Db, o: seq<Name>, p: seq<Name>)
    requires forall t :: t in o || t in p ==> t in cp && t in db
    ensures PerformAll(sch, cp, db, o + p) == PerformAll(sch, cp, PerformAll(sch, cp, db, o), p)
    decreases |o|
  {
    if o == [] {
      assert o + p == p;
    } else {
      assert (o + p)[0] == o[0] && (o + p)[1..] == o[1..] + p;
      PerformAllAppend(sch, cp, Perform(sch, db, o[0], Stored(sch, o[0], cp[o[0]])), o[1..], p);
    }
  }

  // A job's tables, ready for the loop.
  ghost predicate Pending(job: Job, done: set<Name>, pending: seq<Name>) {
    Distinct(pending) && Elems(pending) !! done && Elems(pending) <= job.cp.Keys
  }

  lemma PendingTail(job: Job, done: set<Name>, pending: seq<Name>)
    requires Pending(job, done, pending) && pending != []
    ensures pending[0] in job.cp && pending[0] !in done
    ensures Pending(job, done, pending[1..]) && Pending(job, done + {pending[0]}, pending[1..])
  {
    assert pending[0] in Elems(pending);
    assert forall u :: u in pending[1..] ==> u in Elems(pending);
  }

  lemma PendingInDb(job: Job, done: set<Name>, db: Db, pending: seq<Name>)
    requires job.Valid() && Reached(job, done, db) && Elems(pending) <= job.cp.Keys
    ensures forall t :: t in pending ==> t in job.cp && t in db
  {
    forall t | t in pending
      ensures t in job.cp && t in db
    {
      assert t in Elems(pending);
    }
  }

  // What the abstract loop says of a pass over a real database.
  ghost predicate PassAgrees(job: Job, done: set<Name>, db: Db, pending: seq<Name>)
    requires job.Valid() && forall t :: t in pending ==> t in job.cp && t in db
  {
    var r := job.AsRules();
    var (after, failed) := Pass(job.sch, job.cp, db, pending);
    failed == r.Sweep(done, pending).1 && Reached(job, r.Sweep(done, pending).0, after)
  }

  lemma {:induction false} PassIsSweep(job: Job, done: set<Name>, db: Db, pending: seq<Name>)
    requires job.Valid() && Pending(job, done, pending) && Reached(job, done, db)
    ensures forall t :: t in pending ==> t in job.cp && t in db
    ensures PassAgrees(job, done, db, pending)
    decreases |pending|
  {
    PendingInDb(job, done, db, pending);
    if pending != [] {
      var t, rest := pending[0], pending[1..];
      PendingTail(job, done, pending);
      ReadyMeansInserted(job, done, db, t);
      if job.AsRules().Ready(done, t) {
        InsertReaches(job, done, db, t);
        PassIsSweep(job, done + {t}, Perform(job.sch, db, t, job.RowsOf(t)), rest);
      } else {
        PassIsSweep(job, done, db, rest);
      }
    }
  }

  lemma {:induction false} PassPerforms(job: Job, done: set<Name>, db: Db, pending: seq<Name>)
    requires job.Valid() && Pending(job, done, pending) && Reached(job, done, db)
    ensures forall t :: t in pending ==> t in job.cp && t in db
    ensures forall t :: t in job.AsRules().SweepOrder(done, pending) ==> t in job.cp && t in db
    ensures Pass(job.sch, job.cp, db, pending).0 == PerformAll(job.sch, job.cp, db, job.AsRules().SweepOrder(done, pending))
    decreases |pending|
  {
    PendingInDb(job, done, db, pending);
    if pending != [] {
      var t, rest := pending[0], pending[1..];
      PendingTail(job, done, pending);
      ReadyMeansInserted(job, done, db, t);
      if job.AsRules().Ready(done, t) {
        InsertReaches(job, done, db, t);
        PassPerforms(job, done + {t}, Perform(job.sch, db, t, job.RowsOf(t)), rest);
        assert job.AsRules().SweepOrder(done, pending)[1..] == job.AsRules().SweepOrder(done + {t}, rest);
      } else {
        PassPerforms(job, done, db, rest);
      }
    }
  }

  lemma SweepLeavesPending(job: Job, done: set<Name>, pending: seq<Name>)
    requires job.Valid() && Pending(job, done, pending)
    ensures var s := job.AsRules().Sweep(done, pending); Pending(job, s.0, s.1) && |s.1| <= |pending|
  {
    var o := SweepTrace(job.AsRules(), done, pending);
  }

  lemma {:induction false} RetryIsSettle(job: Job, done: set<Name>, db: Db, pending: seq<Name>)
    requires job.Valid() && Pending(job, done, pending) && Reached(job, done, db)
    ensures forall t :: t in pending ==> t in job.cp && t in db
    ensures Retry(job.sch, job.cp, db, pending).1 == job.AsRules().Settle(done, pending).1
    ensures Reached(job, job.AsRules().Settle(done, pending).0, Retry(job.sch, job.cp, db, pending).0)
    decreases |pending|
  {
    PassIsSweep(job, done, db, pending);
    SweepLeavesPending(job, done, pending);
    var (after, failed) := job.AsRules().Sweep(done, pending);
    if pending != [] && |failed| < |pending| {
      RetryIsSettle(job, after, Pass(job.sch, job.cp, db, pending).0, failed);
    }
  }

  lemma {:induction false} RetryPerforms(job: Job, done: set<Name>, db: Db, pending: seq<Name>)
    requires job.Valid() && Pending(job, done, pending) && Reached(job, done, db)
    ensures forall t :: t in pending ==> t in job.cp && t in db
    ensures forall t :: t in job.AsRules().SettleOrder(done, pending) ==> t in job.cp && t in db
    ensures Retry(job.sch, job.cp, db, pending).0 == PerformAll(job.sch, job.cp, db, job.AsRules().SettleOrder(done, pending))
    decreases |pending|
  {
    PassIsSweep(job, done, db, pending);
    PassPerforms(job, done, db, pending);
    SweepLeavesPending(job, done, pending);
    var r := job.AsRules();
    var (after, failed) := r.Sweep(done, pending);
    if pending != [] && |failed| < |pending| {
      var db' := Pass(job.sch, job.cp, db, pending).0;
      RetryPerforms(job, after, db', failed);
      PerformAllAppend(job.sch, job.cp, db, r.SweepOrder(done, pending), r.SettleOrder(after, failed));
    }
  }

  // ----- What one restore does -----

  // The checkpoint's tables are live, the triggers keep to their tables, and the live schema is consistent.
  ghost predicate CanStart(sch: Schema, live: Db, cp: Db) {
    cp.Keys <= live.Keys && Harmless(sch) && Consistent(sch, live)
  }

  // The job RestoreCheckpoint starts once TRUNCATE has run.
  ghost function Started(sch: Schema, live: Db, cp: Db): (job: Job)
    requires CanStart(sch, live, cp)
    ensures job.Valid()
  {
    Job(sch, Truncate(sch, live, cp.Keys), cp)
  }

  // `pending` after the loop; the restore succeeds when it is empty.
  function Stuck(sch: Schema, live: Db, cp: Db, catalog: seq<Name>): seq<Name>
    requires cp.Keys <= live.Keys && forall t :: t in catalog ==> t in cp
  {
    Retry(sch, cp, Truncate(sch, live, cp.Keys), catalog).1
  }

  function Restored(sch: Schema, live: Db, cp: Db, catalog: seq<Name>): (after: Db)
    requires cp.Keys <= live.Keys && forall t :: t in catalog ==> t in cp
    ensures after.Keys == live.Keys
  {
    Retry(sch, cp, Truncate(sch, live, cp.Keys), catalog).0
  }

  ghost predicate Restores(sch: Schema, live: Db, cp: Db, catalog: seq<Name>)
    requires cp.Keys <= live.Keys && Lists(catalog, cp.Keys)
  {
    assert forall t :: t in catalog ==> t in Elems(catalog);
    Stuck(sch, live, cp, catalog) == []
  }

  lemma StartIsReached(sch: Schema, live: Db, cp: Db)
    requires CanStart(sch, live, cp)
    ensures Reached(Started(sch, live, cp), {}, Truncate(sch, live, cp.Keys))
    ensures Started(sch, live, cp).With({}) == Truncate(sch, live, cp.Keys)
  {
    var job := Started(sch, live, cp);
    assert job.With({}) == job.base;
    LikeItself(sch, job.base);
    TruncateKeepsConsistency(sch, live, cp.Keys);
  }

  lemma RestoreIsSettle(sch: Schema, live: Db, cp: Db, catalog: seq<Name>)
    requires CanStart(sch, live, cp) && Lists(catalog, cp.Keys)
    ensures forall t :: t in catalog ==> t in cp
    ensures var r := Started(sch, live, cp).AsRules();
      && Reached(Started(sch, live, cp), r.Settle({}, catalog).0, Restored(sch, live, cp, catalog))
      && Stuck(sch, live, cp, catalog) == r.Settle({}, catalog).1
      && (Restores(sch, live, cp, catalog) <==> r.Succeeds(catalog))
      && (Restores(sch, live, cp, catalog) ==> r.Settle({}, catalog).0 == cp.Keys)
  {
    var job := Started(sch, live, cp);
    StartIsReached(sch, live, cp);
    RetryIsSettle(job, {}, job.base, catalog);
    var o := ListingTrace(job.AsRules(), catalog);
  }

  // The order in which a restore puts the tables in.
  ghost function InsertOrder(sch: Schema, live: Db, cp: Db, catalog: seq<Name>): seq<Name>
    requires CanStart(sch, live, cp)
  {
    Started(sch, live, cp).AsRules().Order(catalog)
  }

  lemma RestoreFollowsOrder(sch: Schema, live: Db, cp: Db, catalog: seq<Name>)
    requires CanStart(sch, live, cp) && Lists(catalog, cp.Keys)
    ensures forall t :: t in catalog || t in InsertOrder(sch, live, cp, catalog) ==> t in cp
    ensures Restored(sch, live, cp, catalog)
         == PerformAll(sch, cp, Truncate(sch, live, cp.Keys), InsertOrder(sch, live, cp, catalog))
    ensures Started(sch, live, cp).AsRules().Legal({}, InsertOrder(sch, live, cp, catalog))
    ensures Restores(sch, live, cp, catalog) ==> Elems(InsertOrder(sch, live, cp, catalog)) == cp.Keys
  {
    var job := Started(sch, live, cp);
    StartIsReached(sch, live, cp);
    RetryPerforms(job, {}, job.base, catalog);
    RestoreIsSettle(sch, live, cp, catalog);
    var o := ListingTrace(job.AsRules(), catalog);
  }

  // ----- When a restore succeeds -----

  /** No trigger refuses a checkpointed row, even with every other checkpointed table in place. */
  ghost predicate NoTriggerArmed(sch: Schema, live: Db, cp: Db)
    requires CanStart(sch, live, cp)
  {
    Started(sch, live, cp).AsRules().Unarmed()
  }

  /** The tables can be inserted one after the other, each INSERT succeeding at its turn. */
  ghost predicate SomeInsertOrderWorks(sch: Schema, live: Db, cp: Db)
    requires CanStart(sch, live, cp)
  {
    Started(sch, live, cp).AsRules().SomeOrderWorks()
  }

  /** The tables can be inserted so that every INSERT meets its foreign keys, refusals apart. */
  ghost predicate ForeignKeysAdmitOrder(sch: Schema, live: Db, cp: Db)
    requires CanStart(sch, live, cp)
  {
    Started(sch, live, cp).AsRules().WithoutRefusals().SomeOrderWorks()
  }

  // The tables that can be restored without `t`, as far as foreign keys go.
  ghost function RestorableWithout(sch: Schema, live: Db, cp: Db, t: Name): set<Name>
    requires CanStart(sch, live, cp)
  {
    Started(sch, live, cp).AsRules().Without(t)
  }

  /** No table is refused once all that can be restored without it is in place. */
  ghost predicate NothingRefused(sch: Schema, live: Db, cp: Db)
    requires CanStart(sch, live, cp)
  {
    forall t :: t in cp ==> !TriggerRefuses(sch, Started(sch, live, cp).With(RestorableWithout(sch, live, cp, t)), t, Stored(sch, t, cp[t]))
  }

  /** As long as no trigger is armed the loop does what a topological sort would: it restores exactly
      when some order of inserts works, whatever order the catalog lists the tables in. */
  lemma RestoresIffSomeOrderWorks(sch: Schema, live: Db, cp: Db, catalog: seq<Name>)
    requires CanStart(sch, live, cp) && Lists(catalog, cp.Keys) && NoTriggerArmed(sch, live, cp)
    ensures Restores(sch, live, cp, catalog) <==> SomeInsertOrderWorks(sch, live, cp)
  {
    var job := Started(sch, live, cp);
    RestoreIsSettle(sch, live, cp, catalog);
    RulesAreValid(job);
    SucceedsIffSomeOrderWorks(job.AsRules(), catalog);
  }

  /** ... and the set of tables it reports as stuck does not depend on that order. */
  lemma StuckIgnoresCatalogOrder(sch: Schema, live: Db, cp: Db, catalog: seq<Name>, other: seq<Name>)
    requires CanStart(sch, live, cp) && Lists(catalog, cp.Keys) && Lists(other, cp.Keys) && NoTriggerArmed(sch, live, cp)
    ensures forall t :: t in catalog || t in other ==> t in cp
    ensures Elems(Stuck(sch, live, cp, catalog)) == Elems(Stuck(sch, live, cp, other))
  {
    RestoreIsSettle(sch, live, cp, catalog);
    RestoreIsSettle(sch, live, cp, other);
    RulesAreValid(Started(sch, live, cp));
    ListingOrderIsIrrelevant(Started(sch, live, cp).AsRules(), catalog, other);
  }

  lemma NothingRefusedIs(sch: Schema, live: Db, cp: Db)
    requires CanStart(sch, live, cp)
    ensures NothingOvertaken(Started(sch, live, cp).AsRules()) <==> NothingRefused(sch, live, cp)
  {
    var job := Started(sch, live, cp);
    var r := job.AsRules();
    forall t | t in cp
      ensures r.refused(r.Without(t), t) == TriggerRefuses(sch, job.With(r.Without(t)), t, Stored(sch, t, cp[t]))
    {}
  }

  /** With refusing triggers, every catalog order restores exactly when the foreign keys admit an order and no table
      is refused by what can be restored without it. */
  lemma EveryCatalogOrderRestoresIff(sch: Schema, live: Db, cp: Db)
    requires CanStart(sch, live, cp)
    ensures (forall catalog :: Lists(catalog, cp.Keys) ==> Restores(sch, live, cp, catalog))
       <==> ForeignKeysAdmitOrder(sch, live, cp) && NothingRefused(sch, live, cp)
  {
    var r := Started(sch, live, cp).AsRules();
    RulesAreValid(Started(sch, live, cp));
    EveryListingSucceedsIff(r);
    NothingRefusedIs(sch, live, cp);
    forall catalog | Lists(catalog, cp.Keys)
      ensures Restores(sch, live, cp, catalog) <==> r.Succeeds(catalog)
    {
      RestoreIsSettle(sch, live, cp, catalog);
    }
  }

}
