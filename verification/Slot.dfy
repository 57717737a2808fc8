/** One sandbox slot: its live schema, its one checkpoint, and the two operations on them. */
module Slot {
  import opened Options
  import opened Relational
  import opened Greedy
  import opened Triggers
  import opened Checkpoint
  import opened SavedCheckpoints

  datatype Result = Done | NeverSaved | TruncateFailed | ConnectionLost | StillPending(tables: seq<Name>)

  // n + (n - 1) + ... + 1
  function Triangle(n: nat): (t: nat)
    ensures 2 * t == n * (n + 1)
  {
    if n == 0 then 0 else n + Triangle(n - 1)
  }

  lemma {:induction false} TriangleGrows(m: nat, n: nat)
    requires m <= n
    ensures Triangle(m) <= Triangle(n)
    decreases n
  {
    if m < n {
      TriangleGrows(m, n - 1);
    }
  }

  class Slot {
    const sch: Schema
    var live: Db
    var checkpoint: Option<Db>

    constructor (sch: Schema, live: Db)
      ensures this.sch == sch && this.live == live && checkpoint == None
    {
      this.sch, this.live, checkpoint := sch, live, None;
    }

    /** Overwrites the slot's one checkpoint, statement by statement: others may write to the slot in between, and
        views[k] is what the statement for tables[k] sees. The connection may be lost before statement number
        `dies`: 0 drops the old checkpoint, 1 creates the schema, 2 + k copies tables[k], and the last one notes the
        time in the registry. If only the answer of a statement is lost, the next one is the one not reached. */
    method SaveCheckpoint(tables: seq<Name>, views: seq<Db>, dies: Option<nat>) returns (ok: bool)
      requires |tables| == |views| && Distinct(tables) && forall k :: 0 <= k < |tables| ==> tables[k] in views[k]
      modifies this`checkpoint
      ensures ok <==> !(dies.Some? && dies.value <= |tables| + 2)
      ensures checkpoint ==
        if ok then Some(Copied(tables, views, |tables|))
        else if dies.value == 0 then old(checkpoint)
        else if dies.value == 1 then None
        else Some(Copied(tables, views, dies.value - 2))
    {
      if dies == Some(0) {
        return false;
      }
      checkpoint := None;
      if dies == Some(1) {
        return false;
      }
      checkpoint := Some(map[]);
      for k := 0 to |tables|
        invariant checkpoint == Some(Copied(tables, views, k))
        invariant dies.Some? ==> dies.value >= 2 + k
      {
        if dies == Some(2 + k) {
          return false;
        }
        if tables[k] !in EXCLUDED {
          checkpoint := Some(checkpoint.value[tables[k] := views[k][tables[k]]]);
        }
      }
      ok := dies != Some(2 + |tables|);
    }

    /** Puts the checkpoint back inside one transaction. `catalog` is the checkpoint's table list in the
        order the catalog query returned it; the connection is lost before attempt number `dies`, COMMIT
        counting as the last. A COMMIT that is reached takes effect, but unless `heard` its answer is lost. */
    method RestoreCheckpoint(catalog: seq<Name>, dies: Option<nat>, heard: bool) returns (r: Result, passes: nat, attempts: nat)
      requires checkpoint.Some? ==> Lists(catalog, checkpoint.value.Keys)
      modifies this`live
      ensures checkpoint.None? ==> r == NeverSaved && live == old(live)
      ensures checkpoint.Some? && !(checkpoint.value.Keys <= old(live).Keys) ==> r == TruncateFailed && live == old(live)
      ensures checkpoint.Some? && checkpoint.value.Keys <= old(live).Keys ==>
        var cp := checkpoint.value;
        && (forall t :: t in catalog ==> t in cp)
        && (|| (r == ConnectionLost && dies.Some? && live == old(live))
            || (r == (if heard then Done else ConnectionLost)
                && Restores(sch, old(live), cp, catalog) && live == Restored(sch, old(live), cp, catalog))
            || (r == StillPending(Stuck(sch, old(live), cp, catalog)) && !Restores(sch, old(live), cp, catalog)
                && live == old(live)))
      ensures r != Done && (heard || r != ConnectionLost) ==> live == old(live)
      ensures passes <= |catalog| && attempts <= Triangle(|catalog|)
    {
      passes, attempts := 0, 0;
      if checkpoint.None? {
        return NeverSaved, 0, 0;
      }
      var cp := checkpoint.value;
      assert forall t :: t in catalog ==> t in Elems(catalog);
      if !(cp.Keys <= live.Keys) {
        return TruncateFailed, 0, 0;
      }
      var tx;
      r, tx, passes, attempts := RetryInserts(sch, cp, Truncate(sch, live, cp.Keys), catalog, dies);
      if r == Done {
        if dies == Some(attempts) {
          return ConnectionLost, passes, attempts;
        }
        live := tx;
        if !heard {
          r := ConnectionLost;
        }
      }
    }
  }

  /** The loop over passes, on the open transaction's view of the slot. */
  method RetryInserts(sch: Schema, cp: Db, truncated: Db, catalog: seq<Name>, dies: Option<nat>)
    returns (r: Result, tx: Db, passes: nat, attempts: nat)
    requires forall t :: t in catalog ==> t in cp && t in truncated
    ensures var (after, stuck) := Retry(sch, cp, truncated, catalog);
      || (r == ConnectionLost && dies.Some?)
      || (r == Done && stuck == [] && tx == after)
      || (r == StillPending(stuck) && stuck != [])
    ensures passes <= |catalog| && attempts <= Triangle(|catalog|)
  {
    passes, attempts, tx := 0, 0, truncated;
    var pending := catalog;
    while |pending| > 0
      invariant forall t :: t in pending ==> t in cp && t in tx
      invariant Retry(sch, cp, tx, pending) == Retry(sch, cp, truncated, catalog)
      invariant passes + |pending| <= |catalog|
      invariant attempts + Triangle(|pending|) <= Triangle(|catalog|)
      decreases |pending|
    {
      passes := passes + 1;
      PassShape(sch, cp, tx, pending);
      var tx', stillPending, tried, lost := OnePass(sch, cp, tx, pending, attempts, dies);
      attempts := attempts + tried;
      if lost {
        return ConnectionLost, tx, passes, attempts;
      }
      if |stillPending| == |pending| {
        return StillPending(stillPending), tx, passes, attempts;
      }
      TriangleGrows(|stillPending|, |pending| - 1);
      tx, pending := tx', stillPending;
    }
    r := Done;
  }

  /** The inner loop: one INSERT per pending table, each under a savepoint. */
  method OnePass(sch: Schema, cp: Db, before: Db, pending: seq<Name>, attempts: nat, dies: Option<nat>)
    returns (tx: Db, stillPending: seq<Name>, tried: nat, lost: bool)
    requires forall t :: t in pending ==> t in cp && t in before
    ensures tried <= |pending| && (lost ==> dies.Some?)
    ensures !lost ==> (tx, stillPending) == Pass(sch, cp, before, pending) && tried == |pending|
    ensures |stillPending| <= |pending|
  {
    tx, stillPending, tried := before, [], 0;
    assert pending[0..] == pending && [] + Pass(sch, cp, before, pending).1 == Pass(sch, cp, before, pending).1;
    for i := 0 to |pending|
      invariant tx.Keys == before.Keys && tried == i && |stillPending| <= i
      invariant Pass(sch, cp, before, pending) == AfterFailures(stillPending, Pass(sch, cp, tx, pending[i..]))
    {
      if dies == Some(attempts + tried) {
        lost := true;
        return;
      }
      tried := tried + 1;
      var t := pending[i];
      PassStep(sch, cp, tx, pending, i, stillPending);
      var rows := Stored(sch, t, cp[t]);
      if InsertSucceeds(sch, tx, t, rows) {
        tx := Perform(sch, tx, t, rows);
      } else {
        stillPending := stillPending + [t];
      }
    }
    assert pending[|pending|..] == [] && stillPending + [] == stillPending;
    lost := false;
  }

  // The result of a pass whose first part failed to insert `failed`.
  ghost function AfterFailures(failed: seq<Name>, rest: (Db, seq<Name>)): (Db, seq<Name>) {
    (rest.0, failed + rest.1)
  }

  lemma PassStep(sch: Schema, cp: Db, db: Db, pending: seq<Name>, i: nat, failed: seq<Name>)
    requires i < |pending| && forall t :: t in pending ==> t in cp && t in db
    ensures AfterFailures(failed, Pass(sch, cp, db, pending[i..])) ==
      (var t := pending[i];
       var rows := Stored(sch, t, cp[t]);
       if InsertSucceeds(sch, db, t, rows) then
         AfterFailures(failed, Pass(sch, cp, Perform(sch, db, t, rows), pending[i + 1..]))
       else
         AfterFailures(failed + [t], Pass(sch, cp, db, pending[i + 1..])))
  {
    var t, rest := pending[i], Pass(sch, cp, db, pending[i + 1..]);
    assert pending[i..][0] == t && pending[i..][1..] == pending[i + 1..];
    assert failed + ([t] + rest.1) == failed + [t] + rest.1;
  }
}
