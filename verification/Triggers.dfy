/** AFTER triggers that rewrite other tables: when they cannot change which INSERTs succeed, and what they leave. */
module Triggers {
  import opened Relational

  // ----- What is assumed of them -----

  ghost predicate IsTarget(sch: Schema, t: Name) {
    exists e :: e in sch.echoes && e.target == t
  }

  ghost predicate IsAside(sch: Schema, t: Name) {
    exists e :: e in sch.echoes && e.aside == t
  }

  // No trigger writes or removes this row.
  ghost predicate Steady(sch: Schema, t: Name, row: Row) {
    !IsAside(sch, t) && forall e :: e in sch.echoes && e.target == t ==> row != e.from && row != e.to
  }

  ghost predicate SameColumns(cols: seq<Column>, a: Row, b: Row) {
    forall k :: 0 <= k < |cols| ==> (cols[k] in a <==> cols[k] in b) && (cols[k] in a ==> a[cols[k]] == b[cols[k]])
  }

  // b differs from a in these columns only by NULLs.
  ghost predicate ClearsOnly(cols: seq<Column>, a: Row, b: Row) {
    forall k :: 0 <= k < |cols| && cols[k] in b ==> cols[k] in a && a[cols[k]] == b[cols[k]]
  }

  // What the trigger writes aside refers to rows that are there.
  ghost predicate SendsRefer(sch: Schema, e: Echo) {
    forall db: Db, fk :: fk in sch.fks && fk.child == e.aside && e.aside in db && RowsRefer(db, fk, db[e.aside]) ==>
      RowsRefer(db, fk, e.sends(db))
  }

  ghost predicate RowsRefer(db: Db, fk: ForeignKey, rows: Rows) {
    forall row :: row in rows ==> RefersWithinDb(db, fk, row)
  }

  ghost predicate TargetsApart(sch: Schema) {
    forall e :: e in sch.echoes ==> !IsAside(sch, e.target)
  }

  ghost predicate NoFeedback(sch: Schema) {
    forall e, f :: e in sch.echoes && f in sch.echoes && e.target == f.target ==> e.to != f.from
  }

  ghost predicate KeepsKeys(sch: Schema) {
    forall e, fk :: e in sch.echoes && fk in sch.fks && fk.parent == e.target ==> SameColumns(fk.refs, e.from, e.to)
  }

  ghost predicate ClearsReferences(sch: Schema) {
    forall e, fk :: e in sch.echoes && fk in sch.fks && fk.child == e.target ==> ClearsOnly(fk.cols, e.from, e.to)
  }

  ghost predicate SteadyPresence(sch: Schema) {
    && (forall rf, tr :: rf in sch.refusals && tr in rf.presence ==> Steady(sch, tr.0, tr.1))
    && (forall e, tr :: e in sch.echoes && tr in e.presence ==> Steady(sch, tr.0, tr.1))
  }

  ghost predicate AsidesAreLeaves(sch: Schema) {
    && (forall fk :: fk in sch.fks ==> !IsAside(sch, fk.parent))
    && (forall e :: e in sch.echoes ==> SendsRefer(sch, e))
  }

  ghost predicate StampsApart(sch: Schema) {
    forall k :: k in sch.stamps ==> !IsTarget(sch, k.0) && !IsAside(sch, k.0)
  }

  /** The triggers keep referenced columns, only clear references, undo neither each other nor what a refusal or
      another trigger looks for, and write aside into tables nobody refers to. */
  ghost predicate Harmless(sch: Schema) {
    && TargetsApart(sch) && NoFeedback(sch) && KeepsKeys(sch) && ClearsReferences(sch)
    && SteadyPresence(sch) && AsidesAreLeaves(sch) && StampsApart(sch)
  }

  // ----- Databases that differ only by what triggers did -----

  ghost predicate SameRow(sch: Schema, t: Name, a: Row, b: Row) {
    a == b || exists e :: e in sch.echoes && e.target == t && e.from == a && e.to == b
  }

  ghost predicate LikeRows(sch: Schema, t: Name, a: Rows, b: Rows) {
    |a| == |b| && forall i :: 0 <= i < |a| ==> SameRow(sch, t, a[i], b[i])
  }

  ghost predicate Like(sch: Schema, ideal: Db, db: Db) {
    ideal.Keys == db.Keys && forall t :: t in db && !IsAside(sch, t) ==> LikeRows(sch, t, ideal[t], db[t])
  }

  lemma LikeItself(sch: Schema, db: Db)
    ensures Like(sch, db, db)
  {}

  lemma LikeHas(sch: Schema, ideal: Db, db: Db, t: Name, row: Row)
    requires Like(sch, ideal, db) && Steady(sch, t, row)
    ensures HasRow(ideal, t, row) == HasRow(db, t, row)
  {
    if HasRow(ideal, t, row) {
      var i :| 0 <= i < |ideal[t]| && ideal[t][i] == row;
      assert SameRow(sch, t, ideal[t][i], db[t][i]);
    }
    if HasRow(db, t, row) {
      var i :| 0 <= i < |db[t]| && db[t][i] == row;
      assert SameRow(sch, t, ideal[t][i], db[t][i]);
    }
  }

  lemma SameMatch(sch: Schema, fk: ForeignKey, row: Row, a: Row, b: Row)
    requires KeepsKeys(sch) && fk in sch.fks && SameRow(sch, fk.parent, a, b)
    ensures Matches(fk, row, a) == Matches(fk, row, b)
  {
    if a != b {
      assert SameColumns(fk.refs, a, b);
    }
  }

  lemma LikeRefers(sch: Schema, ideal: Db, db: Db, fk: ForeignKey, row: Row)
    requires KeepsKeys(sch) && AsidesAreLeaves(sch) && Like(sch, ideal, db) && fk in sch.fks
    ensures RefersWithinDb(ideal, fk, row) == RefersWithinDb(db, fk, row)
  {
    var p := fk.parent;
    if p in db {
      assert LikeRows(sch, p, ideal[p], db[p]);
      forall i | 0 <= i < |db[p]|
        ensures Matches(fk, row, ideal[p][i]) == Matches(fk, row, db[p][i])
      {
        SameMatch(sch, fk, row, ideal[p][i], db[p][i]);
      }
      if target :| target in ideal[p] && Matches(fk, row, target) {
        var i :| 0 <= i < |ideal[p]| && ideal[p][i] == target;
        assert Matches(fk, row, db[p][i]);
      }
      if target :| target in db[p] && Matches(fk, row, target) {
        var i :| 0 <= i < |db[p]| && db[p][i] == target;
        assert Matches(fk, row, ideal[p][i]);
      }
    }
  }

  lemma LikeInsert(sch: Schema, ideal: Db, db: Db, t: Name, rows: Rows)
    requires Like(sch, ideal, db) && t in db
    ensures Like(sch, Insert(ideal, t, rows), Insert(db, t, rows))
  {
    forall u | u in db && !IsAside(sch, u)
      ensures LikeRows(sch, u, Insert(ideal, t, rows)[u], Insert(db, t, rows)[u])
    {
      assert LikeRows(sch, u, ideal[u], db[u]);
    }
  }

  lemma SameReferences(sch: Schema, ideal: Db, db: Db, t: Name, rows: Rows)
    requires KeepsKeys(sch) && AsidesAreLeaves(sch) && Like(sch, ideal, db) && t in db
    ensures ReferencesMet(sch, ideal, t, rows) == ReferencesMet(sch, db, t, rows)
  {
    LikeInsert(sch, ideal, db, t, rows);
    forall fk, row | fk in sch.fks && fk.child == t && row in rows
      ensures RefersWithinDb(Insert(ideal, t, rows), fk, row) == RefersWithinDb(Insert(db, t, rows), fk, row)
    {
      LikeRefers(sch, Insert(ideal, t, rows), Insert(db, t, rows), fk, row);
    }
  }

  lemma SamePresence(sch: Schema, ideal: Db, db: Db, presence: set<(Name, Row)>)
    requires Like(sch, ideal, db) && forall tr :: tr in presence ==> Steady(sch, tr.0, tr.1)
    ensures AllThere(presence, ideal) == AllThere(presence, db)
  {
    forall tr | tr in presence
      ensures HasRow(ideal, tr.0, tr.1) == HasRow(db, tr.0, tr.1)
    {
      LikeHas(sch, ideal, db, tr.0, tr.1);
    }
  }

  lemma SameRefusal(sch: Schema, ideal: Db, db: Db, t: Name, rows: Rows, rf: Refusal, k: nat)
    requires SteadyPresence(sch) && Like(sch, ideal, db) && t in db && rf in sch.refusals && k < |rows|
    ensures RefusesRow(rf, ideal, t, rows, k) == RefusesRow(rf, db, t, rows, k)
  {
    LikeInsert(sch, ideal, db, t, rows[..k]);
    SamePresence(sch, Insert(ideal, t, rows[..k]), Insert(db, t, rows[..k]), rf.presence);
  }

  lemma SameRefusals(sch: Schema, ideal: Db, db: Db, t: Name, rows: Rows)
    requires SteadyPresence(sch) && Like(sch, ideal, db) && t in db
    ensures TriggerRefuses(sch, ideal, t, rows) == TriggerRefuses(sch, db, t, rows)
  {
    forall rf, k | rf in sch.refusals && 0 <= k < |rows|
      ensures RefusesRow(rf, ideal, t, rows, k) == RefusesRow(rf, db, t, rows, k)
    {
      SameRefusal(sch, ideal, db, t, rows, rf, k);
    }
  }

  /** What triggers have done to other tables does not decide whether an INSERT succeeds. */
  lemma SameInsertSucceeds(sch: Schema, ideal: Db, db: Db, t: Name, rows: Rows)
    requires Harmless(sch) && Like(sch, ideal, db) && t in db
    ensures InsertSucceeds(sch, ideal, t, rows) == InsertSucceeds(sch, db, t, rows)
  {
    SameReferences(sch, ideal, db, t, rows);
    SameRefusals(sch, ideal, db, t, rows);
  }

  // No trigger produces the row another one looks for.
  lemma NotProduced(sch: Schema, e: Echo, a: Row)
    requires NoFeedback(sch) && e in sch.echoes && SameRow(sch, e.target, a, e.from)
    ensures a == e.from
  {}

  lemma ReplaceKeepsLike(sch: Schema, e: Echo, a: Rows, b: Rows)
    requires NoFeedback(sch) && e in sch.echoes && LikeRows(sch, e.target, a, b)
    ensures LikeRows(sch, e.target, a, Replace(b, e.from, e.to))
  {
    forall i | 0 <= i < |a|
      ensures SameRow(sch, e.target, a[i], Replace(b, e.from, e.to)[i])
    {
      if b[i] == e.from {
        NotProduced(sch, e, a[i]);
      }
    }
  }

  lemma FireElsewhere(e: Echo, db: Db, t: Name)
    requires t in db && t != e.aside
    ensures Fire(e, db)[t] == if t == e.target && Armed(e, db) then Replace(db[t], e.from, e.to) else db[t]
  {}

  lemma FireKeepsLike(sch: Schema, ideal: Db, db: Db, e: Echo)
    requires TargetsApart(sch) && NoFeedback(sch) && Like(sch, ideal, db) && e in sch.echoes
    ensures Like(sch, ideal, Fire(e, db))
  {
    var after := Fire(e, db);
    forall t | t in db && !IsAside(sch, t)
      ensures LikeRows(sch, t, ideal[t], after[t])
    {
      FireElsewhere(e, db, t);
      assert LikeRows(sch, t, ideal[t], db[t]);
      if t == e.target {
        ReplaceKeepsLike(sch, e, ideal[t], db[t]);
      }
    }
  }

  lemma {:induction false} AfterRowKeepsLike(sch: Schema, ideal: Db, db: Db, echoes: seq<Echo>, t: Name, row: Row)
    requires Harmless(sch) && Like(sch, ideal, db) && forall e :: e in echoes ==> e in sch.echoes
    ensures Like(sch, ideal, AfterRow(echoes, t, row, db))
    decreases |echoes|
  {
    if echoes != [] {
      FireKeepsLike(sch, ideal, db, echoes[0]);
      AfterRowKeepsLike(sch, ideal, if echoes[0].table == t && echoes[0].row == row then Fire(echoes[0], db) else db,
                        echoes[1..], t, row);
    }
  }

  lemma {:induction false} AfterRowsKeepLike(sch: Schema, ideal: Db, db: Db, t: Name, rows: Rows)
    requires Harmless(sch) && Like(sch, ideal, db)
    ensures Like(sch, ideal, AfterRows(sch.echoes, t, rows, db))
    decreases |rows|
  {
    if rows != [] {
      AfterRowKeepsLike(sch, ideal, db, sch.echoes, t, rows[0]);
      AfterRowsKeepLike(sch, ideal, AfterRow(sch.echoes, t, rows[0], db), t, rows[1..]);
    }
  }

  /** A successful INSERT leaves its rows, and the other tables as they were but for what triggers did. */
  lemma PerformKeepsLike(sch: Schema, ideal: Db, db: Db, t: Name, rows: Rows)
    requires Harmless(sch) && Like(sch, ideal, db) && t in db
    ensures Like(sch, Insert(ideal, t, rows), Perform(sch, db, t, rows))
  {
    LikeInsert(sch, ideal, db, t, rows);
    AfterRowsKeepLike(sch, Insert(ideal, t, rows), Insert(db, t, rows), t, rows);
  }

  // ----- References of the rows written aside -----

  ghost predicate AsidesRefer(sch: Schema, db: Db) {
    forall fk :: fk in sch.fks && IsAside(sch, fk.child) && fk.child in db ==> RowsRefer(db, fk, db[fk.child])
  }

  // The database with the row changed and nothing written aside yet.
  ghost function Changed(e: Echo, db: Db): Db
    requires Armed(e, db)
  {
    db[e.target := Replace(db[e.target], e.from, e.to)]
  }

  lemma SameParent(a: Db, b: Db, fk: ForeignKey, row: Row)
    requires (fk.parent in a <==> fk.parent in b) && (fk.parent in a ==> a[fk.parent] == b[fk.parent])
    ensures RefersWithinDb(a, fk, row) == RefersWithinDb(b, fk, row)
  {}

  lemma FireKeepsReferences(sch: Schema, db: Db, e: Echo, fk: ForeignKey, row: Row)
    requires Harmless(sch) && e in sch.echoes && Armed(e, db) && fk in sch.fks
    ensures RefersWithinDb(db, fk, row) == RefersWithinDb(Fire(e, db), fk, row) == RefersWithinDb(Changed(e, db), fk, row)
  {
    LikeItself(sch, db);
    FireKeepsLike(sch, db, db, e);
    LikeRefers(sch, db, Fire(e, db), fk, row);
    SameParent(Changed(e, db), Fire(e, db), fk, row);
  }

  lemma FireKeepsAside(sch: Schema, db: Db, e: Echo, fk: ForeignKey)
    requires Harmless(sch) && e in sch.echoes && Armed(e, db)
    requires fk in sch.fks && IsAside(sch, fk.child) && fk.child in db && RowsRefer(db, fk, db[fk.child])
    ensures RowsRefer(Fire(e, db), fk, Fire(e, db)[fk.child])
  {
    assert SendsRefer(sch, e);
    var after, changed := Fire(e, db), Changed(e, db);
    forall row: Row
      ensures RefersWithinDb(db, fk, row) == RefersWithinDb(after, fk, row) == RefersWithinDb(changed, fk, row)
    {
      FireKeepsReferences(sch, db, e, fk, row);
    }
    assert changed[fk.child] == db[fk.child];
    assert RowsRefer(changed, fk, changed[fk.child]);
  }

  lemma FireKeepsAsides(sch: Schema, db: Db, e: Echo)
    requires Harmless(sch) && AsidesRefer(sch, db) && e in sch.echoes
    ensures AsidesRefer(sch, Fire(e, db))
  {
    if Armed(e, db) {
      forall fk | fk in sch.fks && IsAside(sch, fk.child) && fk.child in db
        ensures RowsRefer(Fire(e, db), fk, Fire(e, db)[fk.child])
      {
        FireKeepsAside(sch, db, e, fk);
      }
    }
  }

  lemma {:induction false} AfterRowKeepsAsides(sch: Schema, db: Db, echoes: seq<Echo>, t: Name, row: Row)
    requires Harmless(sch) && AsidesRefer(sch, db) && forall e :: e in echoes ==> e in sch.echoes
    ensures AsidesRefer(sch, AfterRow(echoes, t, row, db))
    decreases |echoes|
  {
    if echoes != [] {
      FireKeepsAsides(sch, db, echoes[0]);
      AfterRowKeepsAsides(sch, if echoes[0].table == t && echoes[0].row == row then Fire(echoes[0], db) else db,
                          echoes[1..], t, row);
    }
  }

  lemma {:induction false} AfterRowsKeepAsides(sch: Schema, db: Db, t: Name, rows: Rows)
    requires Harmless(sch) && AsidesRefer(sch, db)
    ensures AsidesRefer(sch, AfterRows(sch.echoes, t, rows, db))
    decreases |rows|
  {
    if rows != [] {
      AfterRowKeepsAsides(sch, db, sch.echoes, t, rows[0]);
      AfterRowsKeepAsides(sch, AfterRow(sch.echoes, t, rows[0], db), t, rows[1..]);
    }
  }

  lemma PerformKeepsAsides(sch: Schema, db: Db, t: Name, rows: Rows)
    requires Harmless(sch) && AsidesRefer(sch, db) && t in db && ReferencesMet(sch, db, t, rows)
    ensures AsidesRefer(sch, Perform(sch, db, t, rows))
  {
    var after := Insert(db, t, rows);
    forall fk | fk in sch.fks && IsAside(sch, fk.child) && fk.child in after
      ensures RowsRefer(after, fk, after[fk.child])
    {
      assert RowsRefer(db, fk, db[fk.child]);
      forall row | row in after[fk.child]
        ensures RefersWithinDb(after, fk, row)
      {
        if row in db[fk.child] {
          assert RefersWithinDb(db, fk, row);
        }
      }
    }
    AfterRowsKeepAsides(sch, after, t, rows);
  }

  lemma ClearedRefers(db: Db, fk: ForeignKey, a: Row, b: Row)
    requires RefersWithinDb(db, fk, a) && ClearsOnly(fk.cols, a, b)
    ensures RefersWithinDb(db, fk, b)
  {
    if forall k :: 0 <= k < |fk.cols| ==> fk.cols[k] in b {
      var target :| target in db[fk.parent] && Matches(fk, a, target);
      assert Matches(fk, b, target);
    }
  }

  /** A consistent database stays consistent under what triggers do to it. */
  lemma LikeIsConsistent(sch: Schema, ideal: Db, db: Db)
    requires Harmless(sch) && Like(sch, ideal, db) && Consistent(sch, ideal) && AsidesRefer(sch, db)
    ensures Consistent(sch, db)
  {
    forall fk, row | fk in sch.fks && fk.child in db && row in db[fk.child]
      ensures RefersWithinDb(db, fk, row)
    {
      var t := fk.child;
      if IsAside(sch, t) {
        assert RowsRefer(db, fk, db[t]);
      } else {
        var i :| 0 <= i < |db[t]| && db[t][i] == row;
        var was := ideal[t][i];
        assert SameRow(sch, t, was, row) && was in ideal[t];
        if was != row {
          var e :| e in sch.echoes && e.target == t && e.from == was && e.to == row;
          ClearedRefers(ideal, fk, was, row);
        }
        LikeRefers(sch, ideal, db, fk, row);
      }
    }
  }

  // ----- Whether a trigger changes anything -----

  // Some trigger fires on these rows.
  ghost predicate SomeFires(echoes: seq<Echo>, t: Name, rows: Rows, db: Db) {
    exists e :: e in echoes && e.table == t && e.row in rows && Armed(e, db)
  }

  ghost predicate Gone(e: Echo, db: Db) {
    e.target in db && e.from !in db[e.target]
  }

  lemma FireKeepsGone(sch: Schema, e: Echo, f: Echo, db: Db)
    requires Harmless(sch) && e in sch.echoes && f in sch.echoes && Gone(e, db)
    ensures Gone(e, Fire(f, db))
  {
    FireElsewhere(f, db, e.target);
  }

  lemma FireRemoves(sch: Schema, e: Echo, db: Db)
    requires Harmless(sch) && e in sch.echoes && Armed(e, db)
    ensures Gone(e, Fire(e, db))
  {
    assert Fire(e, db)[e.target] == Replace(db[e.target], e.from, e.to);
  }

  lemma {:induction false} AfterRowKeepsGone(sch: Schema, e: Echo, echoes: seq<Echo>, t: Name, row: Row, db: Db)
    requires Harmless(sch) && e in sch.echoes && Gone(e, db) && forall f :: f in echoes ==> f in sch.echoes
    ensures Gone(e, AfterRow(echoes, t, row, db))
    decreases |echoes|
  {
    if echoes != [] {
      FireKeepsGone(sch, e, echoes[0], db);
      AfterRowKeepsGone(sch, e, echoes[1..], t, row, if echoes[0].table == t && echoes[0].row == row then Fire(echoes[0], db) else db);
    }
  }

  lemma {:induction false} AfterRowsKeepGone(sch: Schema, e: Echo, t: Name, rows: Rows, db: Db)
    requires Harmless(sch) && e in sch.echoes && Gone(e, db)
    ensures Gone(e, AfterRows(sch.echoes, t, rows, db))
    decreases |rows|
  {
    if rows != [] {
      AfterRowKeepsGone(sch, e, sch.echoes, t, rows[0], db);
      AfterRowsKeepGone(sch, e, t, rows[1..], AfterRow(sch.echoes, t, rows[0], db));
    }
  }

  // Either no trigger fires on this row, and nothing changes, or one does, and the row it looks for is gone.
  lemma {:induction false} AfterRowFires(sch: Schema, echoes: seq<Echo>, t: Name, row: Row, db: Db) returns (e: Echo)
    requires Harmless(sch) && (forall f :: f in echoes ==> f in sch.echoes) && SomeFires(echoes, t, [row], db)
    ensures e in sch.echoes && Armed(e, db) && Gone(e, AfterRow(echoes, t, row, db))
    decreases |echoes|
  {
    var f := echoes[0];
    if f.table == t && f.row == row && Armed(f, db) {
      e := f;
      FireRemoves(sch, f, db);
      AfterRowKeepsGone(sch, f, echoes[1..], t, row, Fire(f, db));
    } else {
      e := AfterRowFires(sch, echoes[1..], t, row, db);
    }
  }

  lemma {:induction false} AfterRowQuiet(echoes: seq<Echo>, t: Name, row: Row, db: Db)
    requires !SomeFires(echoes, t, [row], db)
    ensures AfterRow(echoes, t, row, db) == db
    decreases |echoes|
  {
    if echoes != [] {
      assert echoes[0] in echoes;
      AfterRowQuiet(echoes[1..], t, row, db);
    }
  }

  lemma {:induction false} AfterRowsFire(sch: Schema, t: Name, rows: Rows, db: Db) returns (e: Echo)
    requires Harmless(sch) && SomeFires(sch.echoes, t, rows, db)
    ensures e in sch.echoes && Armed(e, db) && Gone(e, AfterRows(sch.echoes, t, rows, db))
    decreases |rows|
  {
    if SomeFires(sch.echoes, t, [rows[0]], db) {
      e := AfterRowFires(sch, sch.echoes, t, rows[0], db);
      AfterRowsKeepGone(sch, e, t, rows[1..], AfterRow(sch.echoes, t, rows[0], db));
    } else {
      AfterRowQuiet(sch.echoes, t, rows[0], db);
      assert rows == [rows[0]] + rows[1..];
      e := AfterRowsFire(sch, t, rows[1..], db);
    }
  }

  lemma {:induction false} AfterRowsQuiet(echoes: seq<Echo>, t: Name, rows: Rows, db: Db)
    requires !SomeFires(echoes, t, rows, db)
    ensures AfterRows(echoes, t, rows, db) == db
    decreases |rows|
  {
    if rows != [] {
      AfterRowQuiet(echoes, t, rows[0], db);
      AfterRowsQuiet(echoes, t, rows[1..], db);
    }
  }

  lemma PerformKeepsGone(sch: Schema, e: Echo, db: Db, t: Name, rows: Rows)
    requires Harmless(sch) && e in sch.echoes && Gone(e, db) && t in db && t != e.target
    ensures Gone(e, Perform(sch, db, t, rows))
  {
    AfterRowsKeepGone(sch, e, t, rows, Insert(db, t, rows));
  }
}
