/** Checkpoints as SaveCheckpoint makes them, and the tables it leaves out. */
module SavedCheckpoints {
  import opened Options
  import opened Relational
  import opened Triggers
  import opened Greedy
  import opened Checkpoint
  import opened SavedRows

  // The tables SaveCheckpoint never copies.
  const EXCLUDED: set<Name> := {Name("sessions"), Name("mfa_challenges")}

  function Copy(live: Db): Db {
    map t | t in live && t !in EXCLUDED :: live[t]
  }

  // The copies made by the statements for the first n tables: views[k] is the slot as the k-th statement sees it.
  function Copied(tables: seq<Name>, views: seq<Db>, n: nat): Db
    requires n <= |tables| == |views| && forall k :: 0 <= k < n ==> tables[k] in views[k]
  {
    if n == 0 then map[]
    else
      var cp := Copied(tables, views, n - 1);
      var t := tables[n - 1];
      if t in EXCLUDED then cp else cp[t := views[n - 1][t]]
  }

  lemma {:induction false} CopiedNames(tables: seq<Name>, views: seq<Db>, n: nat)
    requires n <= |tables| == |views| && forall k :: 0 <= k < n ==> tables[k] in views[k]
    ensures forall t :: t in Copied(tables, views, n) <==> t in tables[..n] && t !in EXCLUDED
    decreases n
  {
    if n > 0 {
      CopiedNames(tables, views, n - 1);
      assert tables[..n] == tables[..n - 1] + [tables[n - 1]];
    }
  }

  /** Each copied table is as its own statement saw it. */
  lemma {:induction false} CopiedAt(tables: seq<Name>, views: seq<Db>, n: nat, k: nat)
    requires k < n <= |tables| == |views| && Distinct(tables) && forall i :: 0 <= i < n ==> tables[i] in views[i]
    requires tables[k] !in EXCLUDED
    ensures tables[k] in Copied(tables, views, n) && Copied(tables, views, n)[tables[k]] == views[k][tables[k]]
    decreases n
  {
    if k < n - 1 {
      CopiedAt(tables, views, n - 1, k);
      assert tables[k] != tables[n - 1];
    }
  }

  lemma {:induction false} UndisturbedCopies(tables: seq<Name>, views: seq<Db>, live: Db, n: nat)
    requires n <= |tables| == |views| && forall k :: 0 <= k < n ==> tables[k] in views[k] && views[k] == live
    ensures forall t :: t in Copied(tables, views, n) ==> t in live && Copied(tables, views, n)[t] == live[t]
    decreases n
  {
    if n > 0 {
      UndisturbedCopies(tables, views, live, n - 1);
    }
  }

  /** With no writer in between, a save is a copy of the slot without the excluded tables. */
  lemma UndisturbedSaveIsCopy(tables: seq<Name>, views: seq<Db>, live: Db)
    requires |tables| == |views| && Lists(tables, live.Keys) && forall k :: 0 <= k < |views| ==> views[k] == live
    ensures forall k :: 0 <= k < |tables| ==> tables[k] in views[k]
    ensures Copied(tables, views, |tables|) == Copy(live)
  {
    assert forall k :: 0 <= k < |tables| ==> tables[k] in Elems(tables);
    CopiedNames(tables, views, |tables|);
    UndisturbedCopies(tables, views, live, |tables|);
    assert tables[..|tables|] == tables;
    assert forall t :: t in live.Keys <==> t in Elems(tables);
  }

  // ----- When the foreign keys admit an order -----

  // No cycle of references among the checkpoint's tables, self-references apart.
  ghost predicate Acyclic(sch: Schema, cp: Db, rank: Name -> nat) {
    forall fk :: fk in sch.fks && fk.child in cp && fk.parent in cp ==> fk.child == fk.parent || rank(fk.parent) < rank(fk.child)
  }

  /** The live schema with the whole checkpoint in place. */
  ghost function Whole(sch: Schema, live: Db, cp: Db): Db
    requires CanStart(sch, live, cp)
  {
    Started(sch, live, cp).With(cp.Keys)
  }

  /** Without cycles, the tables of a checkpoint can be ordered if and only if, all put back, no reference dangles.
      A reference into a table that is not in the checkpoint counts: the cascade may have emptied it. */
  lemma ForeignKeysAdmitOrderIff(sch: Schema, live: Db, cp: Db, rank: Name -> nat)
    requires CanStart(sch, live, cp) && Acyclic(sch, cp, rank)
    ensures ForeignKeysAdmitOrder(sch, live, cp) <==> Consistent(sch, Whole(sch, live, cp))
  {
    var job := Started(sch, live, cp);
    if ForeignKeysAdmitOrder(sch, live, cp) {
      var o: seq<Name> :| job.AsRules().WithoutRefusals().Legal({}, o) && Elems(o) == cp.Keys;
      FullJobIsConsistent(sch, live, cp, o);
    }
    if Consistent(sch, Whole(sch, live, cp)) {
      ConsistentAdmitsOrder(job, rank);
    }
  }

  lemma ConsistentAdmitsOrder(job: Job, rank: Name -> nat)
    requires job.Valid() && Acyclic(job.sch, job.cp, rank) && Consistent(job.sch, job.With(job.cp.Keys))
    ensures job.AsRules().WithoutRefusals().SomeOrderWorks()
  {
    var r := job.AsRules();
    RulesAreValid(job);
    forall done: set<Name> | done < r.all
      ensures exists t :: t in r.all && t !in done && r.met(done, t)
    {
      var missing :| missing in r.all && missing !in done;
      assert missing in job.cp.Keys - done;
      var t := LeastRanked(job.cp.Keys - done, rank);
      LeastMissingIsMet(job, rank, done, t);
    }
    NeverStuckAdmitsOrder(r);
  }

  // With its parents in, a table of a checkpoint that is consistent as a whole has its references met.
  lemma ParentsInIsMet(job: Job, done: set<Name>, t: Name)
    requires job.Valid() && Consistent(job.sch, job.With(job.cp.Keys)) && t in job.cp && t !in done
    requires forall fk :: fk in job.sch.fks && fk.child == t && fk.parent in job.cp ==> fk.parent == t || fk.parent in done
    ensures job.AsRules().met(done, t)
  {
    var whole, rows := job.With(job.cp.Keys), job.RowsOf(t);
    var after := Insert(job.With(done), t, rows);
    forall fk, row | fk in job.sch.fks && fk.child == t && row in rows
      ensures RefersWithinDb(after, fk, row)
    {
      assert RefersWithinDb(whole, fk, row);
      if fk.parent in whole {
        assert job.base[t] + rows == rows;
        assert after[fk.parent] == whole[fk.parent];
      }
    }
  }

  // Every table of the run comes after the tables it refers to.
  ghost predicate ParentsFirst(sch: Schema, cp: Db, o: seq<Name>) {
    forall i, fk :: 0 <= i < |o| && fk in sch.fks && fk.child == o[i] && fk.parent in cp ==> fk.parent == o[i] || fk.parent in o[..i]
  }

  lemma {:induction false} ParentsFirstIsLegal(job: Job, o: seq<Name>, k: nat)
    requires job.Valid() && Consistent(job.sch, job.With(job.cp.Keys)) && IsRun(job, o) && k <= |o|
    requires ParentsFirst(job.sch, job.cp, o)
    ensures job.AsRules().WithoutRefusals().Legal(Elems(o[..k]), o[k..])
    decreases |o| - k
  {
    if k < |o| {
      RunNext(job, o, k);
      ParentsInIsMet(job, Elems(o[..k]), o[k]);
      ParentsFirstIsLegal(job, o, k + 1);
      assert o[k..][0] == o[k] && o[k..][1..] == o[k + 1..];
    }
  }

  lemma LeastMissingIsMet(job: Job, rank: Name -> nat, done: set<Name>, t: Name)
    requires job.Valid() && Acyclic(job.sch, job.cp, rank) && Consistent(job.sch, job.With(job.cp.Keys))
    requires t in job.cp && t !in done && forall u :: u in job.cp && u !in done ==> rank(t) <= rank(u)
    ensures job.AsRules().met(done, t)
  {
    ParentsInIsMet(job, done, t);
  }

  lemma {:induction false} LeastRanked(s: set<Name>, rank: Name -> nat) returns (least: Name)
    requires s != {}
    ensures least in s && forall t :: t in s ==> rank(least) <= rank(t)
    decreases |s|
  {
    var t :| t in s;
    if s == {t} {
      least := t;
    } else {
      var other := LeastRanked(s - {t}, rank);
      least := if rank(t) < rank(other) then t else other;
    }
  }

  // The slot as its rows would be stored now.
  ghost predicate ConsistentAsStored(sch: Schema, saved: Db) {
    Consistent(sch, map t | t in saved :: Stored(sch, t, saved[t]))
  }

  // No copied table refers to an excluded one.
  ghost predicate NoneIntoExcluded(sch: Schema, saved: Db) {
    forall fk :: fk in sch.fks && fk.child in Copy(saved) ==> fk.parent !in EXCLUDED
  }

  lemma SavedSlotIsWhole(sch: Schema, saved: Db, now: Db, rank: Name -> nat)
    requires CanStart(sch, now, Copy(saved)) && ConsistentAsStored(sch, saved) && NoneIntoExcluded(sch, saved)
    ensures Consistent(sch, Whole(sch, now, Copy(saved)))
  {
    var cp := Copy(saved);
    var whole, was := Whole(sch, now, cp), map t | t in saved :: Stored(sch, t, saved[t]);
    forall fk, row | fk in sch.fks && fk.child in whole && row in whole[fk.child]
      ensures RefersWithinDb(whole, fk, row)
    {
      if fk.child in cp {
        assert RefersWithinDb(was, fk, row);
        assert fk.parent in was ==> fk.parent in cp && whole[fk.parent] == was[fk.parent];
      } else {
        assert fk.child !in Cascade(sch, cp.Keys) && fk.parent !in Cascade(sch, cp.Keys);
        assert RefersWithinDb(now, fk, row);
      }
    }
  }

  /** A checkpoint saved from a consistent slot, its foreign keys acyclic apart from self-references and none of them
      from a copied into an excluded table, restores after any writes and in any catalog order, if and only if no
      table is refused by what can be restored without it. */
  lemma SavedCheckpointRestoresIff(sch: Schema, saved: Db, now: Db, rank: Name -> nat)
    requires CanStart(sch, now, Copy(saved)) && Acyclic(sch, Copy(saved), rank)
    requires ConsistentAsStored(sch, saved) && NoneIntoExcluded(sch, saved)
    ensures (forall catalog :: Lists(catalog, Copy(saved).Keys) ==> Restores(sch, now, Copy(saved), catalog))
       <==> NothingRefused(sch, now, Copy(saved))
  {
    SavedSlotIsWhole(sch, saved, now, rank);
    ForeignKeysAdmitOrderIff(sch, now, Copy(saved), rank);
    EveryCatalogOrderRestoresIff(sch, now, Copy(saved));
  }

  /** ... and it gives back exactly the saved rows, in any catalog order, if and only if moreover the rows are stored
      as given and no trigger the checkpoint would set off can have all it needs restored before its own table. */
  lemma SavedCheckpointComesBackIff(sch: Schema, saved: Db, now: Db, rank: Name -> nat)
    requires CanStart(sch, now, Copy(saved)) && Acyclic(sch, Copy(saved), rank)
    requires Consistent(sch, saved) && NoneIntoExcluded(sch, saved)
    ensures (forall catalog :: Lists(catalog, Copy(saved).Keys) ==> GivesBack(sch, now, Copy(saved), catalog))
       <==> NothingRefused(sch, now, Copy(saved)) && StoredAsGiven(sch, Copy(saved)) && NothingSetOff(sch, now, Copy(saved))
  {
    EveryCatalogOrderGivesBackIff(sch, now, Copy(saved));
    if StoredAsGiven(sch, Copy(saved)) {
      CopyIsWhole(sch, saved, now);
      ForeignKeysAdmitOrderIff(sch, now, Copy(saved), rank);
    }
  }

  lemma CopyIsWhole(sch: Schema, saved: Db, now: Db)
    requires CanStart(sch, now, Copy(saved)) && Consistent(sch, saved) && NoneIntoExcluded(sch, saved)
    requires StoredAsGiven(sch, Copy(saved))
    ensures Consistent(sch, Whole(sch, now, Copy(saved)))
  {
    var cp := Copy(saved);
    var whole := Whole(sch, now, cp);
    forall fk, row | fk in sch.fks && fk.child in whole && row in whole[fk.child]
      ensures RefersWithinDb(whole, fk, row)
    {
      if fk.child in cp {
        assert RefersWithinDb(saved, fk, row);
        assert fk.parent in saved ==> fk.parent in cp && whole[fk.parent] == saved[fk.parent];
      } else {
        assert fk.child !in Cascade(sch, cp.Keys) && fk.parent !in Cascade(sch, cp.Keys);
        assert RefersWithinDb(now, fk, row);
      }
    }
  }

  // ----- Saves that others disturb, or that stop half-way -----

  /** A copy in which some reference dangles restores in no catalog order: a save between whose statements somebody
      writes a row and then one that refers to it can end up so. */
  lemma DanglingCopyNeverRestores(sch: Schema, live: Db, cp: Db, catalog: seq<Name>, fk: ForeignKey, row: Row)
    requires CanStart(sch, live, cp) && Lists(catalog, cp.Keys)
    requires fk in sch.fks && fk.child in cp && row in Stored(sch, fk.child, cp[fk.child])
    requires !RefersWithinDb(Whole(sch, live, cp), fk, row)
    ensures !Restores(sch, live, cp, catalog)
  {
    if Restores(sch, live, cp, catalog) {
      RestoreFollowsOrder(sch, live, cp, catalog);
      LegalWithoutRefusals(Started(sch, live, cp).AsRules(), {}, InsertOrder(sch, live, cp, catalog));
      FullJobIsConsistent(sch, live, cp, InsertOrder(sch, live, cp, catalog));
    }
  }

  // ----- Tables left out of a checkpoint -----

  lemma LikeEmptied(sch: Schema, ideal: Db, db: Db, t: Name)
    requires Like(sch, ideal, db) && t in db && !IsAside(sch, t) && ideal[t] == []
    ensures db[t] == []
  {
    assert LikeRows(sch, t, ideal[t], db[t]);
  }

  /** Leaving a table out of the checkpoint does not protect its rows: one reference from it to a copied table is
      enough for TRUNCATE ... CASCADE to empty it (sessions refers to users). The same holds for every table a save
      that stopped half-way had not copied yet. */
  lemma UncopiedTableIsEmptied(sch: Schema, live: Db, cp: Db, catalog: seq<Name>, fk: ForeignKey)
    requires CanStart(sch, live, cp) && Lists(catalog, cp.Keys) && Restores(sch, live, cp, catalog)
    requires fk in sch.fks && fk.parent in cp && fk.child in live && fk.child !in cp && !IsAside(sch, fk.child)
    ensures forall t :: t in catalog ==> t in cp
    ensures Restored(sch, live, cp, catalog)[fk.child] == []
  {
    RestoreIsSettle(sch, live, cp, catalog);
    LikeEmptied(sch, Started(sch, live, cp).With(cp.Keys), Restored(sch, live, cp, catalog), fk.child);
  }

  /** A table that is not in the checkpoint, and that no trigger writes to, keeps its rows exactly when no chain of
      references leads from it to a copied table, or when it had none. */
  lemma UncopiedTableSurvivesIff(sch: Schema, live: Db, cp: Db, catalog: seq<Name>, t: Name)
    requires CanStart(sch, live, cp) && Lists(catalog, cp.Keys) && Restores(sch, live, cp, catalog)
    requires t in live && t !in cp && !IsTarget(sch, t) && !IsAside(sch, t)
    ensures forall u :: u in catalog ==> u in cp
    ensures Restored(sch, live, cp, catalog)[t] == live[t]
       <==> live[t] == [] || exists safe: set<Name> :: Closed(sch, safe) && cp.Keys <= safe && t !in safe
  {
    RestoreKeepsForeignKeys(sch, live, cp, catalog);
    var reached := Cascade(sch, cp.Keys);
    if t !in reached {
      assert Closed(sch, reached) && cp.Keys <= reached && t !in reached;
    }
    if exists safe: set<Name> :: Closed(sch, safe) && cp.Keys <= safe && t !in safe {
      var safe: set<Name> :| Closed(sch, safe) && cp.Keys <= safe && t !in safe;
      CascadeIsLeast(sch, cp.Keys, safe);
    }
  }
}
