/** Where the rows of the roster stand: how far each is below the one before, and that a page is turned exactly when the
    next block or row does not fit. */
module RosterLayout {
  import opened Roster

  // A level and a course start a block; everything else hangs on the row above it.
  predicate StartsBlock(row: Row) {
    row.LevelRow? || row.CourseRow?
  }

  // How far below `a` the row `b` stands: the course number shares its line with the name, and a gap follows a course.
  function Below(a: Row, b: Row): real {
    if a.CourseRow? then 0.0
    else if StartsBlock(b) && !a.LevelRow? then ROW_H + COURSE_GAP
    else ROW_H
  }

  // The room the row must have on its page.
  function Need(row: Row): real {
    if StartsBlock(row) then BLOCK_H else if row.PersonRow? then ROW_H else 0.0
  }

  predicate Fits(y: real, row: Row) {
    y + Need(row) <= BOTTOM || Need(row) == 0.0
  }

  // After a page is turned in a list, the column header stands in for the appointee that did not fit.
  predicate DidNotFit(last: Op, first: Row)
    requires last.Draw?
  {
    if first.HeaderRow? then last.y + ROW_H + ROW_H > BOTTOM else StartsBlock(first) && last.y + Below(last.row, first) + BLOCK_H > BOTTOM
  }

  // What one operation says about the next.
  ghost predicate Joint(ops: seq<Op>, k: nat)
    requires k + 1 < |ops|
  {
    if ops[k].Page? then ops[k + 1].Draw? && ops[k + 1].y == TOP
    else if ops[k + 1].Draw? then
      ops[k + 1].y == ops[k].y + Below(ops[k].row, ops[k + 1].row) && Fits(ops[k + 1].y, ops[k + 1].row)
    else k + 2 < |ops| && ops[k + 2].Draw? && DidNotFit(ops[k], ops[k + 2].row)
  }

  // From position `from` on, every row stands where it should.
  ghost predicate Laid(ops: seq<Op>, from: nat) {
    forall k :: from <= k && k + 1 < |ops| ==> Joint(ops, k)
  }

  // The next baseline is d below the last row.
  ghost predicate At(s: Sheet, d: real) {
    s.ops != [] && s.ops[|s.ops| - 1].Draw? && s.y == s.ops[|s.ops| - 1].y + d
  }


  // The column header or an appointee is the last thing drawn.
  ghost predicate InList(s: Sheet, d: real) {
    At(s, d) && (s.ops[|s.ops| - 1].row.HeaderRow? || s.ops[|s.ops| - 1].row.PersonRow?)
  }

  lemma LaidOn(ops: seq<Op>, more: seq<Op>, from: nat)
    requires Laid(ops, from) && from <= |ops|
    requires forall k :: from <= k && |ops| - 1 <= k && k + 1 < |ops + more| ==> Joint(ops + more, k)
    ensures Laid(ops + more, from)
  {
    var all := ops + more;
    forall k | from <= k && k + 1 < |all|
      ensures Joint(all, k)
    {
      if k + 1 < |ops| {
        assert Joint(ops, k);
      }
    }
  }

  lemma PutLaid(s: Sheet, row: Row, from: nat)
    requires Laid(s.ops, from) && from <= |s.ops|
    requires from < |s.ops| ==> s.ops[|s.ops| - 1].Draw? && At(s, Below(s.ops[|s.ops| - 1].row, row)) && Fits(s.y, row)
    ensures Laid(s.Put(row).ops, from)
  {
    LaidOn(s.ops, [Draw(s.y, row)], from);
  }

  // A level or course may follow: nothing is drawn yet, or the last row is a list's or a level's.
  ghost predicate Ready(s: Sheet, from: nat) {
    && Laid(s.ops, from) && from <= |s.ops|
    && (from < |s.ops| ==> InList(s, ROW_H + COURSE_GAP) || (At(s, ROW_H) && s.ops[|s.ops| - 1].row.LevelRow?))
  }

  lemma BlockLaid(s: Sheet, row: Row, from: nat)
    requires Ready(s, from) && StartsBlock(row)
    ensures Laid(s.Room(BLOCK_H).Put(row).ops, from)
  {
    if s.y + BLOCK_H > BOTTOM {
      var more := [Page, Draw(TOP, row)];
      assert s.ops + [Page] + [Draw(TOP, row)] == s.ops + more;
      LaidOn(s.ops, more, from);
    } else {
      PutLaid(s, row, from);
    }
  }

  lemma PersonLaid(s: Sheet, row: Row, from: nat)
    requires Laid(s.ops, from) && from < |s.ops| && InList(s, ROW_H) && row.PersonRow?
    ensures var s' := RowRoom(s).Put(row).Down(ROW_H); Laid(s'.ops, from) && from < |s'.ops| && InList(s', ROW_H)
  {
    if s.y + ROW_H > BOTTOM {
      var more := [Page, Draw(TOP, HeaderRow), Draw(TOP + ROW_H, row)];
      assert s.ops + [Page] + [Draw(TOP, HeaderRow)] + [Draw(TOP + ROW_H, row)] == s.ops + more;
      LaidOn(s.ops, more, from);
    } else {
      PutLaid(s, row, from);
    }
  }

  lemma {:induction false} PeopleLaid(s: Sheet, people: seq<Appointee>, i: nat, from: nat)
    requires i <= |people| && Laid(s.ops, from) && from < |s.ops| && InList(s, ROW_H)
    ensures var s' := People(s, people, i); Laid(s'.ops, from) && from < |s'.ops| && InList(s', ROW_H)
    decreases |people| - i
  {
    if i < |people| {
      PersonLaid(s, PersonRowOf(i, people[i]), from);
      PeopleLaid(RowRoom(s).Put(PersonRowOf(i, people[i])).Down(ROW_H), people, i + 1, from);
    }
  }

  // The next row hangs on the last: on the course's line, or one below a name.
  ghost predicate OnName(s: Sheet, from: nat) {
    && Laid(s.ops, from) && from < |s.ops|
    && ((At(s, 0.0) && s.ops[|s.ops| - 1].row.CourseRow?) || (At(s, ROW_H) && s.ops[|s.ops| - 1].row.NameRow?))
  }

  lemma {:induction false} NamesLaid(s: Sheet, names: seq<string>, k: nat, from: nat)
    requires k <= |names| && OnName(s, from)
    ensures OnName(Names(s, names, k), from)
    decreases |names| - k
  {
    if k < |names| {
      PutLaid(s, NameRow(names[k]), from);
      NamesLaid(s.Put(NameRow(names[k])).Down(ROW_H), names, k + 1, from);
    }
  }

  lemma HeadLaid(s: Sheet, names: seq<string>, c: Course, li: nat, ci: nat, from: nat)
    requires Ready(s, from)
    ensures var s' := CourseHead(s, names, c, li, ci); Laid(s'.ops, from) && from < |s'.ops| && InList(s', ROW_H)
  {
    var row := CourseRow(li + 1, ci + 1, c.credit);
    var s1 := s.Room(BLOCK_H).Put(row);
    BlockLaid(s, row, from);
    NamesLaid(s1, names, 0, from);
    PutLaid(Names(s1, names, 0), HeaderRow, from);
  }

  lemma {:induction false} CoursesLaid(s: Sheet, wrap: Wrapper, courses: seq<Course>, li: nat, ci: nat, from: nat)
    requires ci <= |courses| && Ready(s, from)
    ensures Ready(Courses(s, wrap, courses, li, ci), from)
    decreases |courses| - ci
  {
    if ci < |courses| {
      var c := courses[ci];
      var head := CourseHead(s, NameLines(wrap, c), c, li, ci);
      HeadLaid(s, NameLines(wrap, c), c, li, ci, from);
      PeopleLaid(head, c.appointees, 0, from);
      CoursesLaid(People(head, c.appointees, 0).Down(COURSE_GAP), wrap, courses, li, ci + 1, from);
    }
  }

  /** In the whole roster every row stands below the one before by the line height, with a gap after each course, or first
      on its page; what must not be cut off fits on its page; and a page is turned only where the next row or block would
      not have fitted. */
  lemma {:induction false} RosterIsLaid(s: Sheet, wrap: Wrapper, levels: seq<Level>, li: nat, from: nat)
    requires li <= |levels| && Ready(s, from)
    ensures Laid(Levels(s, wrap, levels, li).ops, from)
    decreases |levels| - li
  {
    if li < |levels| {
      var row := LevelRow(li + 1, levels[li].heading);
      var head := LevelHead(s, levels[li], li);
      BlockLaid(s, row, from);
      CoursesLaid(head, wrap, levels[li].courses, li, 0, from);
      RosterIsLaid(Courses(head, wrap, levels[li].courses, li, 0), wrap, levels, li + 1, from);
    }
  }
}
