/** The part of the database that a checkpoint depends on: rows, foreign keys, row triggers on INSERT, and
    TRUNCATE ... CASCADE. */
module Relational {
  import opened Sets

  datatype Name = Name(text: string)
  datatype Column = Column(text: string)
  datatype Value = Value(text: string)

  // A NULL column is absent from the row.
  type Row = map<Column, Value>
  type Rows = seq<Row>
  type Db = map<Name, Rows>

  datatype ForeignKey = ForeignKey(child: Name, cols: seq<Column>, parent: Name, refs: seq<Column>)

  // A BEFORE trigger refuses `row` of `table` while every row of `presence` is in the database.
  // An empty `presence` is a constraint the row can never meet.
  datatype Refusal = Refusal(table: Name, row: Row, presence: set<(Name, Row)>)

  // An AFTER trigger: once `row` is in `table` and every row of `presence` is there too, the row `from` of
  // `target` becomes `to`, and the trigger writes to `aside` whatever it writes there.
  datatype Echo = Echo(table: Name, row: Row, presence: set<(Name, Row)>,
                       target: Name, from: Row, to: Row, aside: Name, sends: Db -> Rows)

  // `stamps`: the rows a BEFORE trigger (or a column's new type or default) stores otherwise than they were given.
  datatype Schema = Schema(fks: set<ForeignKey>, refusals: set<Refusal>, stamps: map<(Name, Row), Row>, echoes: seq<Echo>)

  predicate HasRow(db: Db, t: Name, row: Row) {
    t in db && row in db[t]
  }

  predicate Matches(fk: ForeignKey, row: Row, target: Row) {
    |fk.cols| == |fk.refs| &&
    forall k :: 0 <= k < |fk.cols| ==>
      fk.cols[k] in row && fk.refs[k] in target && row[fk.cols[k]] == target[fk.refs[k]]
  }

  // MATCH SIMPLE: a reference with a NULL column is not checked.
  predicate RefersWithinDb(db: Db, fk: ForeignKey, row: Row) {
    || (exists k :: 0 <= k < |fk.cols| && fk.cols[k] !in row)
    || (fk.parent in db && exists target :: target in db[fk.parent] && Matches(fk, row, target))
  }

  predicate Consistent(sch: Schema, db: Db) {
    forall fk, row :: fk in sch.fks && fk.child in db && row in db[fk.child] ==> RefersWithinDb(db, fk, row)
  }

  function Insert(db: Db, t: Name, rows: Rows): Db
    requires t in db
  {
    db[t := db[t] + rows]
  }

  // Foreign keys are checked at the end of the statement, so rows of one INSERT may refer to each other.
  predicate ReferencesMet(sch: Schema, db: Db, t: Name, rows: Rows)
    requires t in db
  {
    var after := Insert(db, t, rows);
    forall fk, row :: fk in sch.fks && fk.child == t && row in rows ==> RefersWithinDb(after, fk, row)
  }

  predicate AllThere(presence: set<(Name, Row)>, db: Db) {
    forall tr :: tr in presence ==> HasRow(db, tr.0, tr.1)
  }

  // A BEFORE trigger sees the rows its statement has inserted so far.
  predicate RefusesRow(rf: Refusal, db: Db, t: Name, rows: Rows, k: nat)
    requires t in db && k < |rows|
  {
    rf.table == t && rows[k] == rf.row && AllThere(rf.presence, Insert(db, t, rows[..k]))
  }

  predicate TriggerRefuses(sch: Schema, db: Db, t: Name, rows: Rows)
    requires t in db
  {
    exists rf, k :: rf in sch.refusals && 0 <= k < |rows| && RefusesRow(rf, db, t, rows, k)
  }

  predicate InsertSucceeds(sch: Schema, db: Db, t: Name, rows: Rows)
    requires t in db
  {
    ReferencesMet(sch, db, t, rows) && !TriggerRefuses(sch, db, t, rows)
  }

  // ----- What a successful INSERT leaves -----

  function StoredRow(sch: Schema, t: Name, row: Row): Row {
    if (t, row) in sch.stamps then sch.stamps[(t, row)] else row
  }

  function Stored(sch: Schema, t: Name, rows: Rows): Rows {
    seq(|rows|, i requires 0 <= i < |rows| => StoredRow(sch, t, rows[i]))
  }

  predicate Armed(e: Echo, db: Db) {
    HasRow(db, e.target, e.from) && AllThere(e.presence, db)
  }

  function Replace(rows: Rows, from: Row, to: Row): (r: Rows)
    ensures |r| == |rows| && forall i :: 0 <= i < |r| ==> r[i] == if rows[i] == from then to else rows[i]
  {
    seq(|rows|, i requires 0 <= i < |rows| => if rows[i] == from then to else rows[i])
  }

  function Fire(e: Echo, db: Db): (after: Db)
    ensures after.Keys == db.Keys
  {
    if !Armed(e, db) then db
    else
      var changed := db[e.target := Replace(db[e.target], e.from, e.to)];
      if e.aside in db then changed[e.aside := e.sends(changed)] else changed
  }

  // The AFTER triggers of one inserted row.
  function AfterRow(echoes: seq<Echo>, t: Name, row: Row, db: Db): (after: Db)
    ensures after.Keys == db.Keys
  {
    if echoes == [] then db
    else AfterRow(echoes[1..], t, row, if echoes[0].table == t && echoes[0].row == row then Fire(echoes[0], db) else db)
  }

  // AFTER triggers run once the whole statement is done, row by row.
  function AfterRows(echoes: seq<Echo>, t: Name, rows: Rows, db: Db): (after: Db)
    ensures after.Keys == db.Keys
  {
    if rows == [] then db else AfterRows(echoes, t, rows[1..], AfterRow(echoes, t, rows[0], db))
  }

  function Perform(sch: Schema, db: Db, t: Name, rows: Rows): (after: Db)
    requires t in db
    ensures after.Keys == db.Keys
  {
    AfterRows(sch.echoes, t, rows, Insert(db, t, rows))
  }

  // ----- TRUNCATE ... CASCADE -----

  function Children(sch: Schema): set<Name> {
    set fk | fk in sch.fks :: fk.child
  }

  function Referring(sch: Schema, tables: set<Name>): set<Name> {
    set fk | fk in sch.fks && fk.parent in tables :: fk.child
  }

  ghost predicate Closed(sch: Schema, tables: set<Name>) {
    forall fk :: fk in sch.fks && fk.parent in tables ==> fk.child in tables
  }

  // The tables one TRUNCATE ... CASCADE empties.
  function Cascade(sch: Schema, tables: set<Name>): (all: set<Name>)
    ensures tables <= all && Closed(sch, all)
    ensures all <= tables + Children(sch)
    decreases |Children(sch) - tables|
  {
    var more := Referring(sch, tables);
    if more <= tables then
      tables
    else
      assert Children(sch) - (tables + more) < Children(sch) - tables by {
        var t :| t in more && t !in tables;
        assert t in Children(sch) - tables && t !in Children(sch) - (tables + more);
      }
      SmallerSet(Children(sch) - (tables + more), Children(sch) - tables);
      Cascade(sch, tables + more)
  }

  // CASCADE empties no more than it must: it is the least closed set.
  lemma {:induction false} CascadeIsLeast(sch: Schema, tables: set<Name>, closed: set<Name>)
    requires tables <= closed && Closed(sch, closed)
    ensures Cascade(sch, tables) <= closed
    decreases |Children(sch) - tables|
  {
    var more := Referring(sch, tables);
    if !(more <= tables) {
      assert Children(sch) - (tables + more) < Children(sch) - tables by {
        var t :| t in more && t !in tables;
        assert t in Children(sch) - tables && t !in Children(sch) - (tables + more);
      }
      SmallerSet(Children(sch) - (tables + more), Children(sch) - tables);
      CascadeIsLeast(sch, tables + more, closed);
    }
  }

  function Truncate(sch: Schema, db: Db, tables: set<Name>): Db {
    var emptied := Cascade(sch, tables);
    map t | t in db :: if t in emptied then [] else db[t]
  }

  lemma TruncateKeepsConsistency(sch: Schema, db: Db, tables: set<Name>)
    requires Consistent(sch, db)
    ensures Consistent(sch, Truncate(sch, db, tables))
  {
    var after := Truncate(sch, db, tables);
    forall fk, row | fk in sch.fks && fk.child in after && row in after[fk.child]
      ensures RefersWithinDb(after, fk, row)
    {
      assert fk.child !in Cascade(sch, tables);
      assert fk.parent !in Cascade(sch, tables);
      assert RefersWithinDb(db, fk, row);
    }
  }
}
