/** A save disturbed between two of its statements: an assignment and a first work log for it are written once the
    assignments are copied and before the logs are. */
module SaveExamples {
  import opened Relational
  import opened Triggers
  import opened Greedy
  import opened Checkpoint
  import opened SavedRows
  import opened SavedCheckpoints

  const ASSIGNMENTS := Name("ta_request_assignments")
  const LOGS := Name("work_logs")
  const ID := Column("id")
  const ASSIGNMENT_ID := Column("assignment_id")

  function Reference(): ForeignKey {
    ForeignKey(LOGS, [ASSIGNMENT_ID], ASSIGNMENTS, [ID])
  }

  function TwoTables(): Schema {
    Schema({Reference()}, {}, map[], [])
  }

  function Assignment(v: Value): Row {
    map[ID := v]
  }

  function Log(v: Value): Row {
    map[ASSIGNMENT_ID := v]
  }

  // The slot as the first and as the second statement of the save see it.
  function Empty(): Db {
    map[ASSIGNMENTS := [], LOGS := []]
  }

  function Written(v: Value): Db {
    map[ASSIGNMENTS := [Assignment(v)], LOGS := [Log(v)]]
  }

  function Saved(v: Value): Db {
    Copied([ASSIGNMENTS, LOGS], [Empty(), Written(v)], 2)
  }

  lemma NamesDiffer()
    ensures ASSIGNMENTS != LOGS && ASSIGNMENTS !in EXCLUDED && LOGS !in EXCLUDED
  {
    assert |ASSIGNMENTS.text| == 22 && |LOGS.text| == 9;
    assert |"sessions"| == 8 && |"mfa_challenges"| == 14;
  }

  lemma ViewsAreConsistent(v: Value)
    ensures Consistent(TwoTables(), Empty()) && Consistent(TwoTables(), Written(v))
  {
    NamesDiffer();
    var fk := Reference();
    assert Written(v)[ASSIGNMENTS] == [Assignment(v)];
    assert Assignment(v) in Written(v)[fk.parent] && Matches(fk, Log(v), Assignment(v));
    assert RefersWithinDb(Written(v), fk, Log(v));
  }

  lemma SavedIs(v: Value)
    ensures Saved(v).Keys == {ASSIGNMENTS, LOGS} && Saved(v)[ASSIGNMENTS] == [] && Saved(v)[LOGS] == [Log(v)]
  {
    NamesDiffer();
    var tables, views := [ASSIGNMENTS, LOGS], [Empty(), Written(v)];
    CopiedAt(tables, views, 2, 0);
    CopiedAt(tables, views, 2, 1);
    CopiedNames(tables, views, 2);
    assert tables[..2] == tables;
  }

  lemma NoTriggers()
    ensures Harmless(TwoTables())
  {}

  /** Each statement of the save saw a consistent slot, and yet what it saved is not, and no restore of it succeeds, in
      whatever state the slot is and whatever the catalog order. */
  lemma DisturbedSaveNeverRestores(v: Value, live: Db, catalog: seq<Name>)
    requires Consistent(TwoTables(), live) && Saved(v).Keys <= live.Keys && Lists(catalog, Saved(v).Keys)
    ensures Consistent(TwoTables(), Empty()) && Consistent(TwoTables(), Written(v)) && !Consistent(TwoTables(), Saved(v))
    ensures !Restores(TwoTables(), live, Saved(v), catalog)
  {
    ViewsAreConsistent(v);
    SavedIs(v);
    NoTriggers();
    var fk := Reference();
    assert !RefersWithinDb(Saved(v), fk, Log(v));
    StoredAsItWas(v);
    assert Whole(TwoTables(), live, Saved(v))[ASSIGNMENTS] == [];
    DanglingCopyNeverRestores(TwoTables(), live, Saved(v), catalog, fk, Log(v));
  }

  lemma StoredAsItWas(v: Value)
    requires ASSIGNMENTS in Saved(v) && LOGS in Saved(v)
    ensures Stored(TwoTables(), LOGS, Saved(v)[LOGS]) == Saved(v)[LOGS]
    ensures Stored(TwoTables(), ASSIGNMENTS, Saved(v)[ASSIGNMENTS]) == Saved(v)[ASSIGNMENTS]
  {}
}
