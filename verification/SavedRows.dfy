/** What a successful restore leaves, and when that is exactly what was saved. */
module SavedRows {
  import opened Relational
  import opened Triggers
  import opened Greedy
  import opened Checkpoint

  // ----- Rows and references -----

  lemma {:induction false} LegalRunMeetsReferences(job: Job, done: set<Name>, o: seq<Name>)
    requires job.Valid() && job.AsRules().WithoutRefusals().Legal(done, o)
    ensures forall fk, row :: fk in job.sch.fks && fk.child in o && fk.child in job.cp && row in job.RowsOf(fk.child) ==>
      RefersWithinDb(job.With(done + Elems(o)), fk, row)
    decreases |o|
  {
    if o != [] {
      var t := o[0];
      LegalRunMeetsReferences(job, done + {t}, o[1..]);
      assert done + {t} + Elems(o[1..]) == done + Elems(o);
      InsertExtends(job, done, t);
      var now, end := job.With(done + {t}), job.With(done + Elems(o));
      WithGrows(job, done + {t}, done + Elems(o));
      forall fk, row | fk in job.sch.fks && fk.child == t && row in job.RowsOf(t)
        ensures RefersWithinDb(end, fk, row)
      {
        assert RefersWithinDb(now, fk, row);
        MoreRowsReferTo(now, end, fk, row);
      }
    }
  }

  lemma MoreRowsReferTo(less: Db, more: Db, fk: ForeignKey, row: Row)
    requires Within(less, more) && RefersWithinDb(less, fk, row)
    ensures RefersWithinDb(more, fk, row)
  {
    if p :| fk.parent in less && p in less[fk.parent] && Matches(fk, row, p) {
      assert HasRow(less, fk.parent, p);
      assert HasRow(more, fk.parent, p);
    }
  }

  lemma FullJobIsConsistent(sch: Schema, live: Db, cp: Db, o: seq<Name>)
    requires CanStart(sch, live, cp) && Started(sch, live, cp).AsRules().WithoutRefusals().Legal({}, o) && Elems(o) == cp.Keys
    ensures Consistent(sch, Started(sch, live, cp).With(cp.Keys))
  {
    var job := Started(sch, live, cp);
    var after := job.With(cp.Keys);
    LegalRunMeetsReferences(job, {}, o);
    assert {} + Elems(o) == cp.Keys;
    forall fk, row | fk in sch.fks && fk.child in after && row in after[fk.child]
      ensures RefersWithinDb(after, fk, row)
    {
      if fk.child in cp {
        assert fk.child in Elems(o);
      } else {
        assert fk.child !in Cascade(sch, cp.Keys) && fk.parent !in Cascade(sch, cp.Keys);
        assert RefersWithinDb(live, fk, row);
      }
    }
  }

  /** Whatever the triggers do, a successful restore keeps every foreign key; every table no trigger writes to holds
      its rows as stored or, if it was not in the checkpoint, what it held before, emptied if TRUNCATE ... CASCADE
      reached it. */
  lemma RestoreKeepsForeignKeys(sch: Schema, live: Db, cp: Db, catalog: seq<Name>)
    requires CanStart(sch, live, cp) && Lists(catalog, cp.Keys) && Restores(sch, live, cp, catalog)
    ensures forall t :: t in catalog ==> t in cp
    ensures var after := Restored(sch, live, cp, catalog);
      && after.Keys == live.Keys && Consistent(sch, after)
      && forall t :: t in live && !IsTarget(sch, t) && !IsAside(sch, t) ==>
           after[t] == if t in cp then Stored(sch, t, cp[t]) else if t in Cascade(sch, cp.Keys) then [] else live[t]
  {
    RestoreIsSettle(sch, live, cp, catalog);
    RestoreFollowsOrder(sch, live, cp, catalog);
    var job, after := Started(sch, live, cp), Restored(sch, live, cp, catalog);
    LegalWithoutRefusals(job.AsRules(), {}, InsertOrder(sch, live, cp, catalog));
    FullJobIsConsistent(sch, live, cp, InsertOrder(sch, live, cp, catalog));
    LikeIsConsistent(sch, job.With(cp.Keys), after);
    forall t | t in live && !IsTarget(sch, t) && !IsAside(sch, t)
      ensures after[t] == job.With(cp.Keys)[t]
    {
      UntouchedRows(sch, job.With(cp.Keys), after, t);
    }
  }

  lemma UntouchedRows(sch: Schema, ideal: Db, db: Db, t: Name)
    requires Like(sch, ideal, db) && t in db && !IsTarget(sch, t) && !IsAside(sch, t)
    ensures ideal[t] == db[t]
  {
    forall i | 0 <= i < |db[t]|
      ensures ideal[t][i] == db[t][i]
    {
      assert SameRow(sch, t, ideal[t][i], db[t][i]);
    }
  }

  // ----- Runs in which no trigger fires -----

  // A run of distinct tables of the checkpoint.
  ghost predicate IsRun(job: Job, o: seq<Name>) {
    Distinct(o) && Elems(o) <= job.cp.Keys
  }

  lemma RunIsInDb(job: Job, o: seq<Name>)
    requires job.Valid() && IsRun(job, o)
    ensures forall t :: t in o ==> t in job.cp && t in job.base
  {
    assert forall t :: t in o ==> t in Elems(o);
  }

  // The database after the first n tables of a run.
  ghost function After(job: Job, o: seq<Name>, n: nat): (db: Db)
    requires job.Valid() && IsRun(job, o) && n <= |o|
    ensures db.Keys == job.base.Keys
  {
    RunIsInDb(job, o);
    PerformAll(job.sch, job.cp, job.base, o[..n])
  }

  lemma RunNext(job: Job, o: seq<Name>, n: nat)
    requires IsRun(job, o) && n < |o|
    ensures o[n] in job.cp && o[n] !in Elems(o[..n]) && Elems(o[..n + 1]) == Elems(o[..n]) + {o[n]}
    ensures Elems(o[..n]) <= job.cp.Keys
  {
    assert forall t :: t in o ==> t in Elems(o);
    assert o[..n + 1] == o[..n] + [o[n]];
  }

  lemma PerformAllSnoc(sch: Schema, cp: Db, db: Db, o: seq<Name>, t: Name)
    requires t in cp && t in db && forall u :: u in o ==> u in cp && u in db
    ensures PerformAll(sch, cp, db, o + [t]) == Perform(sch, PerformAll(sch, cp, db, o), t, Stored(sch, t, cp[t]))
  {
    PerformAllAppend(sch, cp, db, o, [t]);
    assert [t][1..] == [];
  }

  lemma RunStep(job: Job, o: seq<Name>, n: nat)
    requires job.Valid() && IsRun(job, o) && n < |o|
    ensures o[n] in job.cp && o[n] in job.base && o[n] !in Elems(o[..n]) && Elems(o[..n + 1]) == Elems(o[..n]) + {o[n]}
    ensures After(job, o, n + 1) == Perform(job.sch, After(job, o, n), o[n], job.RowsOf(o[n]))
    ensures Insert(job.With(Elems(o[..n])), o[n], job.RowsOf(o[n])) == job.With(Elems(o[..n]) + {o[n]})
  {
    RunIsInDb(job, o);
    RunNext(job, o, n);
    assert o[..n + 1] == o[..n] + [o[n]];
    PerformAllSnoc(job.sch, job.cp, job.base, o[..n], o[n]);
    InsertExtends(job, Elems(o[..n]), o[n]);
  }

  lemma RunStart(job: Job, o: seq<Name>)
    requires job.Valid() && IsRun(job, o)
    ensures After(job, o, 0) == job.With(Elems(o[..0]))
  {
    assert job.With(Elems(o[..0])) == job.base;
  }

  lemma QuietStep(job: Job, done: set<Name>, t: Name)
    requires job.Valid() && t in job.cp && t in job.base && !job.Fires()(done, t)
    requires Insert(job.With(done), t, job.RowsOf(t)) == job.With(done + {t})
    ensures Perform(job.sch, job.With(done), t, job.RowsOf(t)) == job.With(done + {t})
  {
    AfterRowsQuiet(job.sch.echoes, t, job.RowsOf(t), job.With(done + {t}));
  }

  lemma {:induction false} QuietRunLeavesRows(job: Job, o: seq<Name>, n: nat)
    requires job.Valid() && IsRun(job, o) && n <= |o| && Nowhere(o[..n], job.Fires())
    ensures After(job, o, n) == job.With(Elems(o[..n]))
    decreases n
  {
    if n == 0 {
      RunStart(job, o);
    } else {
      var m := n - 1;
      RunStep(job, o, m);
      NowhereStep(o, m, job.Fires());
      QuietRunLeavesRows(job, o, m);
      QuietStep(job, Elems(o[..m]), o[m]);
    }
  }

  // The row a trigger looked for is gone for good.
  ghost predicate Lost(job: Job, done: set<Name>, db: Db, e: Echo)
    requires job.Valid()
  {
    && e in job.sch.echoes && HasRow(job.With(done), e.target, e.from) && Gone(e, db)
    && (e.target in job.cp ==> e.target in done)
  }

  lemma LostStays(job: Job, done: set<Name>, db: Db, e: Echo, t: Name)
    requires job.Valid() && Lost(job, done, db, e) && t in job.cp && t !in done && t in db
    ensures Lost(job, done + {t}, Perform(job.sch, db, t, job.RowsOf(t)), e)
  {
    PerformKeepsGone(job.sch, e, db, t, job.RowsOf(t));
    WithGrows(job, done, done + {t});
    assert HasRow(job.With(done + {t}), e.target, e.from);
  }

  lemma LoudStep(job: Job, done: set<Name>, t: Name) returns (e: Echo)
    requires job.Valid() && t in job.cp && t in job.base && job.Fires()(done, t)
    requires Insert(job.With(done), t, job.RowsOf(t)) == job.With(done + {t})
    ensures Lost(job, done + {t}, Perform(job.sch, job.With(done), t, job.RowsOf(t)), e)
  {
    e := AfterRowsFire(job.sch, t, job.RowsOf(t), job.With(done + {t}));
  }

  lemma {:induction false} LoudRunLosesARow(job: Job, o: seq<Name>, n: nat) returns (e: Echo)
    requires job.Valid() && IsRun(job, o) && n <= |o| && !Nowhere(o[..n], job.Fires())
    ensures Lost(job, Elems(o[..n]), After(job, o, n), e)
    decreases n
  {
    var m := n - 1;
    RunStep(job, o, m);
    NowhereStep(o, m, job.Fires());
    if !Nowhere(o[..m], job.Fires()) {
      e := LoudRunLosesARow(job, o, m);
      LostStays(job, Elems(o[..m]), After(job, o, m), e, o[m]);
    } else {
      QuietRunLeavesRows(job, o, m);
      e := LoudStep(job, Elems(o[..m]), o[m]);
    }
  }

  /** A run leaves the rows it inserted, and nothing else, exactly when no trigger fires at any of its steps. */
  lemma RunLeavesRowsIff(job: Job, o: seq<Name>)
    requires job.Valid() && IsRun(job, o)
    ensures After(job, o, |o|) == job.With(Elems(o)) <==> Nowhere(o, job.Fires())
  {
    assert o[..|o|] == o;
    if Nowhere(o, job.Fires()) {
      QuietRunLeavesRows(job, o, |o|);
    } else {
      var e := LoudRunLosesARow(job, o, |o|);
    }
  }

  // ----- The saved rows -----

  // The live schema with every copied table as saved, and the others emptied where the cascade reaches them.
  ghost function AsSaved(sch: Schema, live: Db, cp: Db): Db {
    var emptied := Truncate(sch, live, cp.Keys);
    map t | t in live :: if t in cp then cp[t] else emptied[t]
  }

  /** A restore in this catalog order succeeds and leaves exactly the saved rows. */
  ghost predicate GivesBack(sch: Schema, live: Db, cp: Db, catalog: seq<Name>)
    requires cp.Keys <= live.Keys && Lists(catalog, cp.Keys)
  {
    assert forall t :: t in catalog ==> t in Elems(catalog);
    Restores(sch, live, cp, catalog) && Restored(sch, live, cp, catalog) == AsSaved(sch, live, cp)
  }

  // No BEFORE trigger, column type or default stores a saved row otherwise.
  ghost predicate StoredAsGiven(sch: Schema, cp: Db) {
    forall t, row :: t in cp && row in cp[t] && (t, row) in sch.stamps ==> sch.stamps[(t, row)] == row
  }

  lemma StoredAsGivenIff(sch: Schema, cp: Db)
    ensures StoredAsGiven(sch, cp) <==> forall t :: t in cp ==> Stored(sch, t, cp[t]) == cp[t]
  {
    forall t, row | t in cp && row in cp[t] && (t, row) in sch.stamps && Stored(sch, t, cp[t]) == cp[t]
      ensures sch.stamps[(t, row)] == row
    {
      var i :| 0 <= i < |cp[t]| && cp[t][i] == row;
      assert Stored(sch, t, cp[t])[i] == sch.stamps[(t, row)];
    }
    if StoredAsGiven(sch, cp) {
      forall t | t in cp
        ensures Stored(sch, t, cp[t]) == cp[t]
      {
        forall i | 0 <= i < |cp[t]|
          ensures Stored(sch, t, cp[t])[i] == cp[t][i]
        {
          assert cp[t][i] in cp[t];
        }
      }
    }
  }

  // A successful restore is a run over the whole checkpoint.
  lemma RestoreIsRun(sch: Schema, live: Db, cp: Db, catalog: seq<Name>)
    requires CanStart(sch, live, cp) && Lists(catalog, cp.Keys) && Restores(sch, live, cp, catalog)
    ensures forall t :: t in catalog ==> t in cp
    ensures var job, o := Started(sch, live, cp), InsertOrder(sch, live, cp, catalog);
      && IsRun(job, o) && Elems(o) == cp.Keys && Restored(sch, live, cp, catalog) == After(job, o, |o|)
  {
    RestoreFollowsOrder(sch, live, cp, catalog);
    var job, o := Started(sch, live, cp), InsertOrder(sch, live, cp, catalog);
    LegalIsFresh(job.AsRules(), {}, o);
    assert o[..|o|] == o;
  }

  lemma FullIsSaved(sch: Schema, live: Db, cp: Db)
    requires CanStart(sch, live, cp) && StoredAsGiven(sch, cp)
    ensures Started(sch, live, cp).With(cp.Keys) == AsSaved(sch, live, cp)
  {
    StoredAsGivenIff(sch, cp);
  }

  lemma StampedOrAsGiven(sch: Schema, t: Name, rows: Rows)
    ensures Stored(sch, t, rows) == rows || exists row :: (t, row) in sch.stamps
  {
    if forall i :: 0 <= i < |rows| ==> (t, rows[i]) !in sch.stamps {
      assert Stored(sch, t, rows) == rows;
    }
  }

  lemma StampedTableKeepsStored(sch: Schema, live: Db, cp: Db, catalog: seq<Name>, t: Name)
    requires CanStart(sch, live, cp) && Lists(catalog, cp.Keys) && GivesBack(sch, live, cp, catalog)
    requires t in cp && !IsTarget(sch, t) && !IsAside(sch, t)
    ensures Stored(sch, t, cp[t]) == cp[t]
  {
    RestoreKeepsForeignKeys(sch, live, cp, catalog);
    assert Restored(sch, live, cp, catalog)[t] == Stored(sch, t, cp[t]);
    assert AsSaved(sch, live, cp)[t] == cp[t];
  }

  lemma StampedRowsStay(sch: Schema, live: Db, cp: Db, catalog: seq<Name>)
    requires CanStart(sch, live, cp) && Lists(catalog, cp.Keys) && GivesBack(sch, live, cp, catalog)
    ensures StoredAsGiven(sch, cp)
  {
    StoredAsGivenIff(sch, cp);
    forall t | t in cp
      ensures Stored(sch, t, cp[t]) == cp[t]
    {
      StampedOrAsGiven(sch, t, cp[t]);
      if row :| (t, row) in sch.stamps {
        assert !IsTarget(sch, (t, row).0) && !IsAside(sch, (t, row).0);
        StampedTableKeepsStored(sch, live, cp, catalog, t);
      }
    }
  }

  lemma GivesBackIffQuiet(sch: Schema, live: Db, cp: Db, catalog: seq<Name>)
    requires CanStart(sch, live, cp) && Lists(catalog, cp.Keys) && Restores(sch, live, cp, catalog)
    ensures GivesBack(sch, live, cp, catalog)
       <==> StoredAsGiven(sch, cp) && Nowhere(InsertOrder(sch, live, cp, catalog), Started(sch, live, cp).Fires())
  {
    if GivesBack(sch, live, cp, catalog) {
      StampedRowsStay(sch, live, cp, catalog);
    }
    if StoredAsGiven(sch, cp) {
      FullIsSaved(sch, live, cp);
      RestoreIsRun(sch, live, cp, catalog);
      RunLeavesRowsIff(Started(sch, live, cp), InsertOrder(sch, live, cp, catalog));
    }
  }

  /** If the rows are stored as given and a successful restore still does not give them back, then a row some trigger
      looks for was saved and is gone, and all that differs is what triggers changed. */
  lemma NotBackMeansLost(sch: Schema, live: Db, cp: Db, catalog: seq<Name>) returns (e: Echo)
    requires CanStart(sch, live, cp) && Lists(catalog, cp.Keys) && Restores(sch, live, cp, catalog)
    requires StoredAsGiven(sch, cp) && !GivesBack(sch, live, cp, catalog)
    ensures forall t :: t in catalog ==> t in cp
    ensures e in sch.echoes && HasRow(AsSaved(sch, live, cp), e.target, e.from) && Gone(e, Restored(sch, live, cp, catalog))
    ensures Like(sch, AsSaved(sch, live, cp), Restored(sch, live, cp, catalog))
  {
    FullIsSaved(sch, live, cp);
    RestoreIsSettle(sch, live, cp, catalog);
    RestoreIsRun(sch, live, cp, catalog);
    GivesBackIffQuiet(sch, live, cp, catalog);
    var job, o := Started(sch, live, cp), InsertOrder(sch, live, cp, catalog);
    assert o[..|o|] == o;
    e := LoudRunLosesARow(job, o, |o|);
  }

  // ----- Which triggers matter -----

  // With the whole checkpoint in place the trigger would fire.
  ghost predicate Loaded(job: Job, e: Echo)
    requires job.Valid()
  {
    e in job.sch.echoes && e.table in job.cp && e.row in job.RowsOf(e.table) && Armed(e, job.With(job.cp.Keys))
  }

  // The other tables of the checkpoint a trigger has to find restored.
  ghost function Needs(job: Job, e: Echo): set<Name> {
    (set tr | tr in e.presence && tr.0 in job.cp && tr.0 != e.table :: tr.0)
    + (if e.target in job.cp && e.target != e.table then {e.target} else {})
  }

  lemma HasRowOnceRestored(job: Job, done: set<Name>, t: Name, row: Row)
    requires job.Valid() && done <= job.cp.Keys
    ensures HasRow(job.With(done), t, row) <==> HasRow(job.With(job.cp.Keys), t, row) && (t in job.cp ==> t in done)
  {}

  lemma FiresOnceNeedsAreIn(job: Job, done: set<Name>, e: Echo)
    requires job.Valid() && e in job.sch.echoes && e.table in job.cp && done <= job.cp.Keys
    ensures e.row in job.RowsOf(e.table) && Armed(e, job.With(done + {e.table})) <==> Loaded(job, e) && Needs(job, e) <= done + {e.table}
  {
    var now := done + {e.table};
    HasRowOnceRestored(job, now, e.target, e.from);
    forall tr | tr in e.presence
      ensures HasRow(job.With(now), tr.0, tr.1) <==> HasRow(job.With(job.cp.Keys), tr.0, tr.1) && (tr.0 in job.cp ==> tr.0 in now)
    {
      HasRowOnceRestored(job, now, tr.0, tr.1);
    }
    if Armed(e, job.With(now)) {
      assert AllThere(e.presence, job.With(job.cp.Keys));
    }
    if Loaded(job, e) && Needs(job, e) <= now {
      forall tr | tr in e.presence
        ensures HasRow(job.With(now), tr.0, tr.1)
      {
        assert tr.0 in job.cp && tr.0 != e.table ==> tr.0 in Needs(job, e);
      }
      assert AllThere(e.presence, job.With(now));
    }
  }

  lemma FiringIsLoaded(job: Job, done: set<Name>, t: Name) returns (e: Echo)
    requires job.Valid() && t in job.cp && done <= job.cp.Keys && job.Fires()(done, t)
    ensures Loaded(job, e) && e.table == t && Needs(job, e) <= done
  {
    e :| e in job.sch.echoes && e.table == t && e.row in job.RowsOf(t) && Armed(e, job.With(done + {t}));
    FiresOnceNeedsAreIn(job, done, e);
  }

  lemma LoadedFires(job: Job, done: set<Name>, e: Echo)
    requires job.Valid() && done <= job.cp.Keys && Loaded(job, e) && Needs(job, e) <= done
    ensures job.Fires()(done, e.table)
  {
    FiresOnceNeedsAreIn(job, done, e);
    assert SomeFires(job.sch.echoes, e.table, job.RowsOf(e.table), job.With(done + {e.table}));
  }

  lemma QuietIff(job: Job, o: seq<Name>)
    requires job.Valid() && IsRun(job, o)
    ensures Nowhere(o, job.Fires()) <==> forall e :: Loaded(job, e) ==> !ComesAfter(o, e.table, Needs(job, e))
  {
    if !Nowhere(o, job.Fires()) {
      var k :| 0 <= k < |o| && job.Fires()(Elems(o[..k]), o[k]);
      RunNext(job, o, k);
      var e := FiringIsLoaded(job, Elems(o[..k]), o[k]);
      assert ComesAfter(o, e.table, Needs(job, e));
    }
    if e :| Loaded(job, e) && ComesAfter(o, e.table, Needs(job, e)) {
      var k :| 0 <= k < |o| && o[k] == e.table && Needs(job, e) <= Elems(o[..k]);
      RunNext(job, o, k);
      LoadedFires(job, Elems(o[..k]), e);
    }
  }

  // ----- The main results -----

  /** One catalog order. A restore that succeeds gives back exactly the saved rows if and only if they are stored as
      given and every trigger the checkpoint would set off has its table restored before some table it needs. */
  lemma GivesBackIff(sch: Schema, live: Db, cp: Db, catalog: seq<Name>)
    requires CanStart(sch, live, cp) && Lists(catalog, cp.Keys) && Restores(sch, live, cp, catalog)
    ensures GivesBack(sch, live, cp, catalog) <==>
      && StoredAsGiven(sch, cp)
      && forall e :: Loaded(Started(sch, live, cp), e) ==>
           !ComesAfter(InsertOrder(sch, live, cp, catalog), e.table, Needs(Started(sch, live, cp), e))
  {
    GivesBackIffQuiet(sch, live, cp, catalog);
    RestoreIsRun(sch, live, cp, catalog);
    QuietIff(Started(sch, live, cp), InsertOrder(sch, live, cp, catalog));
  }

  // Some table every such trigger needs cannot be restored without the trigger's own table.
  ghost predicate NothingSetOff(sch: Schema, live: Db, cp: Db)
    requires CanStart(sch, live, cp)
  {
    forall e :: Loaded(Started(sch, live, cp), e) ==>
      !(Needs(Started(sch, live, cp), e) <= RestorableWithout(sch, live, cp, e.table))
  }

  /** All catalog orders. Every order restores exactly the saved rows if and only if the foreign keys admit an order,
      no table is refused by what can be restored without it, the rows are stored as given, and no trigger the
      checkpoint would set off can have all it needs restored before its own table. */
  lemma EveryCatalogOrderGivesBackIff(sch: Schema, live: Db, cp: Db)
    requires CanStart(sch, live, cp)
    ensures (forall catalog :: Lists(catalog, cp.Keys) ==> GivesBack(sch, live, cp, catalog)) <==>
      && ForeignKeysAdmitOrder(sch, live, cp) && NothingRefused(sch, live, cp)
      && StoredAsGiven(sch, cp) && NothingSetOff(sch, live, cp)
  {
    EveryCatalogOrderRestoresIff(sch, live, cp);
    if ForeignKeysAdmitOrder(sch, live, cp) && NothingRefused(sch, live, cp) {
      OrdersThatSetOff(sch, live, cp);
      forall catalog | Lists(catalog, cp.Keys)
        ensures GivesBack(sch, live, cp, catalog) <==>
          StoredAsGiven(sch, cp) && Nowhere(InsertOrder(sch, live, cp, catalog), Started(sch, live, cp).Fires())
      {
        GivesBackIffQuiet(sch, live, cp, catalog);
      }
      var any := ListRemaining(cp.Keys);
    }
  }

  // Some order sets off a trigger exactly when one of the loaded ones can have all it needs before its own table.
  lemma OrdersThatSetOff(sch: Schema, live: Db, cp: Db)
    requires CanStart(sch, live, cp) && ForeignKeysAdmitOrder(sch, live, cp) && NothingRefused(sch, live, cp)
    ensures (forall catalog :: Lists(catalog, cp.Keys) ==>
               Nowhere(InsertOrder(sch, live, cp, catalog), Started(sch, live, cp).Fires())) <==> NothingSetOff(sch, live, cp)
  {
    var job := Started(sch, live, cp);
    RulesAreValid(job);
    NothingRefusedIs(sch, live, cp);
    EveryCatalogOrderRestoresIff(sch, live, cp);
    forall catalog | Lists(catalog, cp.Keys)
      ensures Nowhere(InsertOrder(sch, live, cp, catalog), job.Fires()) <==>
        forall e :: Loaded(job, e) ==> !ComesAfter(InsertOrder(sch, live, cp, catalog), e.table, Needs(job, e))
    {
      RestoreIsRun(sch, live, cp, catalog);
      QuietIff(job, InsertOrder(sch, live, cp, catalog));
    }
    forall e | Loaded(job, e)
      ensures (exists catalog :: Lists(catalog, cp.Keys) && ComesAfter(job.AsRules().Order(catalog), e.table, Needs(job, e)))
         <==> Needs(job, e) <= RestorableWithout(sch, live, cp, e.table)
    {
      SomeListingPutsAfterIff(job.AsRules(), e.table, Needs(job, e));
    }
  }

  /** The rows left do not depend on the catalog order when no trigger the checkpoint would set off can have all it
      needs before its own table. Given that some order gives the saved rows back, that is also necessary. */
  lemma OutcomeIgnoresCatalogOrderIff(sch: Schema, live: Db, cp: Db)
    requires CanStart(sch, live, cp) && ForeignKeysAdmitOrder(sch, live, cp) && NothingRefused(sch, live, cp)
    requires exists catalog :: Lists(catalog, cp.Keys) && GivesBack(sch, live, cp, catalog)
    ensures (forall catalog, other :: Lists(catalog, cp.Keys) && Lists(other, cp.Keys) ==>
               SameOutcome(sch, live, cp, catalog, other)) <==> NothingSetOff(sch, live, cp)
  {
    EveryCatalogOrderGivesBackIff(sch, live, cp);
    EveryCatalogOrderRestoresIff(sch, live, cp);
    var good :| Lists(good, cp.Keys) && GivesBack(sch, live, cp, good);
    StampedRowsStay(sch, live, cp, good);
    if NothingSetOff(sch, live, cp) {
      forall catalog, other | Lists(catalog, cp.Keys) && Lists(other, cp.Keys)
        ensures SameOutcome(sch, live, cp, catalog, other)
      {
        assert GivesBack(sch, live, cp, catalog) && GivesBack(sch, live, cp, other);
      }
    } else {
      var bad :| Lists(bad, cp.Keys) && !GivesBack(sch, live, cp, bad);
      assert !SameOutcome(sch, live, cp, good, bad);
    }
  }

  ghost predicate SameOutcome(sch: Schema, live: Db, cp: Db, catalog: seq<Name>, other: seq<Name>)
    requires cp.Keys <= live.Keys && Lists(catalog, cp.Keys) && Lists(other, cp.Keys)
  {
    assert forall t :: t in catalog ==> t in Elems(catalog);
    assert forall t :: t in other ==> t in Elems(other);
    && Restores(sch, live, cp, catalog) == Restores(sch, live, cp, other)
    && Restored(sch, live, cp, catalog) == Restored(sch, live, cp, other)
  }
}
