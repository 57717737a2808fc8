/** drawRoster: level, course and appointee rows laid out down the page, with a new page when the next
    block or row does not fit. */
module Roster {
  import opened Options
  import Text
  import opened WrapThai

  datatype Appointee = Appointee(studentId: string, first: string, last: string)
  datatype Course = Course(code: string, name: string, credit: string, appointees: seq<Appointee>)
  datatype Level = Level(heading: string, courses: seq<Course>)

  // What one baseline holds.
  datatype Row =
    | LevelRow(no: nat, heading: string)
    | CourseRow(level: nat, no: nat, credit: string)
    | NameRow(text: string)
    | HeaderRow
    | PersonRow(no: nat, id: string, first: string, last: string)

  datatype Op = Page | Draw(y: real, row: Row)

  const TOP := 50.0
  const BOTTOM := 841.89 - 60.0
  const ROW_H := 22.0
  const BLOCK_H := 66.0
  const COURSE_GAP := 14.0
  // right margin minus the id column minus room for the credit text
  const NAME_W := (595.28 - 60.0) - (60.0 + 76.0) - 90.0

  function PersonRowOf(i: nat, ap: Appointee): Row {
    PersonRow(i + 1, if ap.studentId == "" then "-" else ap.studentId, ap.first, ap.last)
  }

  // The lines of a course name, for any way of wrapping it to the width of its column.
  type Wrapper = string -> seq<string>

  function NameLines(wrap: Wrapper, c: Course): seq<string> {
    wrap(c.code + " " + c.name)
  }

  // ----- The layout as functions of the page state -----

  /** What has been drawn so far, and the next baseline. */
  datatype Sheet = Sheet(ops: seq<Op>, y: real) {
    function Put(row: Row): Sheet {
      Sheet(ops + [Draw(y, row)], y)
    }

    function Down(d: real): Sheet {
      Sheet(ops, y + d)
    }

    function Turn(): Sheet {
      Sheet(ops + [Page], TOP)
    }

    function Room(need: real): Sheet {
      if y + need > BOTTOM then Turn() else this
    }
  }

  // Before an appointee: a full page is turned and the column header repeated.
  function RowRoom(s: Sheet): Sheet {
    if s.y + ROW_H > BOTTOM then s.Turn().Put(HeaderRow).Down(ROW_H) else s
  }

  function People(s: Sheet, people: seq<Appointee>, i: nat): Sheet
    requires i <= |people|
    decreases |people| - i
  {
    if i == |people| then s else People(RowRoom(s).Put(PersonRowOf(i, people[i])).Down(ROW_H), people, i + 1)
  }

  function Names(s: Sheet, names: seq<string>, k: nat): Sheet
    requires k <= |names|
    decreases |names| - k
  {
    if k == |names| then s else Names(s.Put(NameRow(names[k])).Down(ROW_H), names, k + 1)
  }

  // A course from its first line down to its column header.
  function CourseHead(s: Sheet, names: seq<string>, c: Course, li: nat, ci: nat): Sheet {
    Names(s.Room(BLOCK_H).Put(CourseRow(li + 1, ci + 1, c.credit)), names, 0).Put(HeaderRow).Down(ROW_H)
  }

  function Courses(s: Sheet, wrap: Wrapper, courses: seq<Course>, li: nat, ci: nat): Sheet
    requires ci <= |courses|
    decreases |courses| - ci
  {
    if ci == |courses| then s
    else
      var c := courses[ci];
      Courses(People(CourseHead(s, NameLines(wrap, c), c, li, ci), c.appointees, 0).Down(COURSE_GAP), wrap, courses, li, ci + 1)
  }

  function LevelHead(s: Sheet, lv: Level, li: nat): Sheet {
    s.Room(BLOCK_H).Put(LevelRow(li + 1, lv.heading)).Down(ROW_H)
  }

  function Levels(s: Sheet, wrap: Wrapper, levels: seq<Level>, li: nat): Sheet
    requires li <= |levels|
    decreases |levels| - li
  {
    if li == |levels| then s
    else Levels(Courses(LevelHead(s, levels[li], li), wrap, levels[li].courses, li, 0), wrap, levels, li + 1)
  }

  // ----- The code -----

  class Pdf {
    var ops: seq<Op>
    var y: real

    constructor (y: real)
      ensures Now() == Sheet([], y)
    {
      ops, this.y := [], y;
    }

    function Now(): Sheet
      reads this
    {
      Sheet(ops, y)
    }

    method DrawRow(row: Row)
      modifies this
      ensures Now() == old(Now()).Put(row)
    {
      ops := ops + [Draw(y, row)];
    }

    method PageIfNeeded(need: real)
      modifies this
      ensures Now() == old(Now()).Room(need)
    {
      if y + need > BOTTOM {
        ops := ops + [Page];
        y := TOP;
      }
    }

    /** drawRoster. */
    method DrawRoster(measure: Measure, levels: seq<Level>)
      modifies this
      ensures Now() == Levels(old(Now()), s => Lines(measure, s, NAME_W, 0), levels, 0)
    {
      ghost var wrap: Wrapper := s => Lines(measure, s, NAME_W, 0);
      for li := 0 to |levels|
        invariant Levels(Now(), wrap, levels, li) == Levels(old(Now()), wrap, levels, 0)
      {
        PageIfNeeded(BLOCK_H);
        DrawRow(LevelRow(li + 1, levels[li].heading));
        y := y + ROW_H;
        DrawCourses(measure, levels[li].courses, li, wrap);
      }
    }

    method DrawCourses(measure: Measure, courses: seq<Course>, li: nat, ghost wrap: Wrapper)
      requires wrap == (s => Lines(measure, s, NAME_W, 0))
      modifies this
      ensures Now() == Courses(old(Now()), wrap, courses, li, 0)
    {
      for ci := 0 to |courses|
        invariant Courses(Now(), wrap, courses, li, ci) == Courses(old(Now()), wrap, courses, li, 0)
      {
        var names := Wrap(measure, courses[ci].code + " " + courses[ci].name, NAME_W);
        assert names == NameLines(wrap, courses[ci]);
        DrawCourseHead(names, courses[ci], li, ci);
        DrawPeople(courses[ci].appointees);
        y := y + COURSE_GAP;
      }
    }

    method DrawCourseHead(names: seq<string>, c: Course, li: nat, ci: nat)
      modifies this
      ensures Now() == CourseHead(old(Now()), names, c, li, ci)
    {
      PageIfNeeded(BLOCK_H);
      DrawRow(CourseRow(li + 1, ci + 1, c.credit));
      ghost var start := Now();
      for k := 0 to |names|
        invariant Names(Now(), names, k) == Names(start, names, 0)
      {
        DrawRow(NameRow(names[k]));
        y := y + ROW_H;
      }
      DrawRow(HeaderRow);
      y := y + ROW_H;
    }

    method DrawPeople(people: seq<Appointee>)
      modifies this
      ensures Now() == People(old(Now()), people, 0)
    {
      for i := 0 to |people|
        invariant People(Now(), people, i) == People(old(Now()), people, 0)
      {
        if y + ROW_H > BOTTOM {
          ops := ops + [Page];
          y := TOP;
          DrawRow(HeaderRow);
          y := y + ROW_H;
        }
        DrawRow(PersonRowOf(i, people[i]));
        y := y + ROW_H;
      }
    }
  }

  // ----- Everything is drawn once, in order -----

  // The rows drawn, without page turns, positions and column headers.
  function Content(ops: seq<Op>): seq<Row> {
    if ops == [] then []
    else
      var last := ops[|ops| - 1];
      Content(ops[..|ops| - 1]) + (if last.Draw? && !last.row.HeaderRow? then [last.row] else [])
  }

  lemma ContentStep(ops: seq<Op>, op: Op)
    ensures Content(ops + [op]) == Content(ops) + (if op.Draw? && !op.row.HeaderRow? then [op.row] else [])
  {
    assert (ops + [op])[..|ops|] == ops;
  }

  function PersonRows(people: seq<Appointee>, i: nat): seq<Row>
    requires i <= |people|
    decreases |people| - i
  {
    if i == |people| then [] else [PersonRowOf(i, people[i])] + PersonRows(people, i + 1)
  }

  function NameRows(names: seq<string>, k: nat): seq<Row>
    requires k <= |names|
    decreases |names| - k
  {
    if k == |names| then [] else [NameRow(names[k])] + NameRows(names, k + 1)
  }

  function CourseRows(wrap: Wrapper, courses: seq<Course>, li: nat, ci: nat): seq<Row>
    requires ci <= |courses|
    decreases |courses| - ci
  {
    if ci == |courses| then []
    else
      var c := courses[ci];
      [CourseRow(li + 1, ci + 1, c.credit)] + NameRows(NameLines(wrap, c), 0) + PersonRows(c.appointees, 0)
      + CourseRows(wrap, courses, li, ci + 1)
  }

  // The roster as data: every level, course, name line and appointee, once and in order.
  function RosterRows(wrap: Wrapper, levels: seq<Level>, li: nat): seq<Row>
    requires li <= |levels|
    decreases |levels| - li
  {
    if li == |levels| then []
    else [LevelRow(li + 1, levels[li].heading)] + CourseRows(wrap, levels[li].courses, li, 0) + RosterRows(wrap, levels, li + 1)
  }

  lemma RoomDrawsNothing(s: Sheet)
    ensures Content(s.Room(BLOCK_H).ops) == Content(s.ops)
    ensures Content(RowRoom(s).ops) == Content(s.ops)
  {
    ContentStep(s.ops, Page);
    ContentStep(s.ops + [Page], Draw(TOP, HeaderRow));
  }

  lemma PersonStep(s: Sheet, row: Row)
    requires row.PersonRow?
    ensures Content(RowRoom(s).Put(row).Down(ROW_H).ops) == Content(s.ops) + [row]
  {
    RoomDrawsNothing(s);
    ContentStep(RowRoom(s).ops, Draw(RowRoom(s).y, row));
  }

  lemma {:induction false} PeopleInOrder(s: Sheet, people: seq<Appointee>, i: nat)
    requires i <= |people|
    ensures Content(People(s, people, i).ops) == Content(s.ops) + PersonRows(people, i)
    decreases |people| - i
  {
    if i < |people| {
      var row, rest := PersonRowOf(i, people[i]), PersonRows(people, i + 1);
      var next := RowRoom(s).Put(row).Down(ROW_H);
      PersonStep(s, row);
      PeopleInOrder(next, people, i + 1);
      assert People(s, people, i) == People(next, people, i + 1) && PersonRows(people, i) == [row] + rest;
      Text.Reassociate(Content(s.ops), [row], rest);
    }
  }

  lemma {:induction false} NamesInOrder(s: Sheet, names: seq<string>, k: nat)
    requires k <= |names|
    ensures Content(Names(s, names, k).ops) == Content(s.ops) + NameRows(names, k)
    decreases |names| - k
  {
    if k < |names| {
      ContentStep(s.ops, Draw(s.y, NameRow(names[k])));
      NamesInOrder(s.Put(NameRow(names[k])).Down(ROW_H), names, k + 1);
    }
  }

  lemma HeadInOrder(s: Sheet, names: seq<string>, c: Course, li: nat, ci: nat)
    ensures Content(CourseHead(s, names, c, li, ci).ops)
         == Content(s.ops) + [CourseRow(li + 1, ci + 1, c.credit)] + NameRows(names, 0)
  {
    var s1 := s.Room(BLOCK_H);
    var s2 := s1.Put(CourseRow(li + 1, ci + 1, c.credit));
    var s3 := Names(s2, names, 0);
    RoomDrawsNothing(s);
    ContentStep(s1.ops, Draw(s1.y, CourseRow(li + 1, ci + 1, c.credit)));
    NamesInOrder(s2, names, 0);
    ContentStep(s3.ops, Draw(s3.y, HeaderRow));
  }

  lemma {:induction false} CoursesInOrder(s: Sheet, wrap: Wrapper, courses: seq<Course>, li: nat, ci: nat)
    requires ci <= |courses|
    ensures Content(Courses(s, wrap, courses, li, ci).ops) == Content(s.ops) + CourseRows(wrap, courses, li, ci)
    decreases |courses| - ci
  {
    if ci < |courses| {
      var c := courses[ci];
      var head := CourseHead(s, NameLines(wrap, c), c, li, ci);
      var block := People(head, c.appointees, 0).Down(COURSE_GAP);
      HeadInOrder(s, NameLines(wrap, c), c, li, ci);
      PeopleInOrder(head, c.appointees, 0);
      CoursesInOrder(block, wrap, courses, li, ci + 1);
      Regroup(Content(s.ops), [CourseRow(li + 1, ci + 1, c.credit)], NameRows(NameLines(wrap, c), 0),
              PersonRows(c.appointees, 0), CourseRows(wrap, courses, li, ci + 1));
    }
  }

  lemma Regroup(a: seq<Row>, b: seq<Row>, c: seq<Row>, d: seq<Row>, e: seq<Row>)
    ensures a + b + c + d + e == a + (b + c + d + e)
  {}

  lemma LevelHeadInOrder(s: Sheet, lv: Level, li: nat)
    ensures Content(LevelHead(s, lv, li).ops) == Content(s.ops) + [LevelRow(li + 1, lv.heading)]
  {
    var s1 := s.Room(BLOCK_H);
    RoomDrawsNothing(s);
    ContentStep(s1.ops, Draw(s1.y, LevelRow(li + 1, lv.heading)));
  }

  /** Wherever the pages turn, the roster drawn is the roster given: every level, course and appointee exactly
      once and in order. */
  lemma {:induction false} RosterInOrder(s: Sheet, wrap: Wrapper, levels: seq<Level>, li: nat)
    requires li <= |levels|
    ensures Content(Levels(s, wrap, levels, li).ops) == Content(s.ops) + RosterRows(wrap, levels, li)
    decreases |levels| - li
  {
    if li < |levels| {
      var head := LevelHead(s, levels[li], li);
      var block := Courses(head, wrap, levels[li].courses, li, 0);
      LevelHeadInOrder(s, levels[li], li);
      CoursesInOrder(head, wrap, levels[li].courses, li, 0);
      RosterInOrder(block, wrap, levels, li + 1);
      var title, courses, rest := [LevelRow(li + 1, levels[li].heading)], CourseRows(wrap, levels[li].courses, li, 0), RosterRows(wrap, levels, li + 1);
      Text.Reassociate(Content(s.ops) + title, courses, rest);
      Text.Reassociate(Content(s.ops), title, courses + rest);
      Text.Reassociate(title, courses, rest);
    }
  }

  // ----- Pages -----

  // The page turned at position k begins at the top with a level, with a course, or with the column header and then an
  // appointee.
  ghost predicate PageBegins(ops: seq<Op>, k: nat) {
    && k + 1 < |ops| && ops[k + 1].Draw? && ops[k + 1].y == TOP
    && (|| ops[k + 1].row.LevelRow? || ops[k + 1].row.CourseRow?
        || (ops[k + 1].row.HeaderRow? && k + 2 < |ops| && ops[k + 2].Draw? && ops[k + 2].y == TOP + ROW_H && ops[k + 2].row.PersonRow?))
  }

  // The last thing drawn is a column header or an appointee.
  ghost predicate InList(ops: seq<Op>) {
    ops != [] && ops[|ops| - 1].Draw? && (ops[|ops| - 1].row.HeaderRow? || ops[|ops| - 1].row.PersonRow?)
  }

  // From position `from` on, pages begin as they should, and an appointee follows a column header or an appointee on the
  // same page.
  ghost predicate Headed(ops: seq<Op>, from: nat) {
    && (forall k :: from <= k < |ops| && ops[k].Page? ==> PageBegins(ops, k))
    && (forall k :: from <= k < |ops| && ops[k].Draw? && ops[k].row.PersonRow? ==> InList(ops[..k]))
  }

  lemma HeadedOn(ops: seq<Op>, more: seq<Op>, from: nat)
    requires Headed(ops, from) && from <= |ops|
    requires forall k :: |ops| <= k < |ops + more| && (ops + more)[k].Page? ==> PageBegins(ops + more, k)
    requires forall k :: |ops| <= k < |ops + more| && (ops + more)[k].Draw? && (ops + more)[k].row.PersonRow? ==> InList((ops + more)[..k])
    ensures Headed(ops + more, from)
  {
    var all := ops + more;
    forall k | from <= k < |ops| && ops[k].Page?
      ensures PageBegins(all, k)
    {
      assert PageBegins(ops, k);
    }
    forall k | from <= k < |ops|
      ensures all[..k] == ops[..k]
    {}
  }

  lemma PutHeaded(s: Sheet, row: Row, from: nat)
    requires Headed(s.ops, from) && from <= |s.ops| && (row.PersonRow? ==> InList(s.ops))
    ensures Headed(s.Put(row).ops, from)
  {
    assert (s.ops + [Draw(s.y, row)])[..|s.ops|] == s.ops;
    HeadedOn(s.ops, [Draw(s.y, row)], from);
  }

  lemma BlockHeaded(s: Sheet, row: Row, from: nat)
    requires Headed(s.ops, from) && from <= |s.ops| && (row.LevelRow? || row.CourseRow?)
    ensures Headed(s.Room(BLOCK_H).Put(row).ops, from)
  {
    if s.y + BLOCK_H > BOTTOM {
      HeadedOn(s.ops, [Page, Draw(TOP, row)], from);
      assert s.ops + [Page] + [Draw(TOP, row)] == s.ops + [Page, Draw(TOP, row)];
    } else {
      PutHeaded(s, row, from);
    }
  }

  lemma PersonHeaded(s: Sheet, row: Row, from: nat)
    requires Headed(s.ops, from) && from <= |s.ops| && row.PersonRow? && InList(s.ops)
    ensures var ops := RowRoom(s).Put(row).Down(ROW_H).ops; Headed(ops, from) && |s.ops| < |ops| && InList(ops)
  {
    if s.y + ROW_H > BOTTOM {
      var more := [Page, Draw(TOP, HeaderRow), Draw(TOP + ROW_H, row)];
      assert s.ops + [Page] + [Draw(TOP, HeaderRow)] + [Draw(TOP + ROW_H, row)] == s.ops + more;
      assert (s.ops + more)[..|s.ops| + 2] == s.ops + [Page, Draw(TOP, HeaderRow)];
      HeadedOn(s.ops, more, from);
    } else {
      PutHeaded(s, row, from);
    }
  }

  lemma {:induction false} PeopleHeaded(s: Sheet, people: seq<Appointee>, i: nat, from: nat)
    requires i <= |people| && from <= |s.ops| && Headed(s.ops, from) && InList(s.ops)
    ensures Headed(People(s, people, i).ops, from) && from <= |People(s, people, i).ops|
    decreases |people| - i
  {
    if i < |people| {
      PersonHeaded(s, PersonRowOf(i, people[i]), from);
      PeopleHeaded(RowRoom(s).Put(PersonRowOf(i, people[i])).Down(ROW_H), people, i + 1, from);
    }
  }

  lemma {:induction false} NamesHeaded(s: Sheet, names: seq<string>, k: nat, from: nat)
    requires k <= |names| && from <= |s.ops| && Headed(s.ops, from)
    ensures Headed(Names(s, names, k).ops, from) && from <= |Names(s, names, k).ops|
    decreases |names| - k
  {
    if k < |names| {
      PutHeaded(s, NameRow(names[k]), from);
      NamesHeaded(s.Put(NameRow(names[k])).Down(ROW_H), names, k + 1, from);
    }
  }

  lemma HeadHeaded(s: Sheet, names: seq<string>, c: Course, li: nat, ci: nat, from: nat)
    requires from <= |s.ops| && Headed(s.ops, from)
    ensures var ops := CourseHead(s, names, c, li, ci).ops; Headed(ops, from) && from <= |ops| && InList(ops)
  {
    var row := CourseRow(li + 1, ci + 1, c.credit);
    BlockHeaded(s, row, from);
    NamesHeaded(s.Room(BLOCK_H).Put(row), names, 0, from);
    PutHeaded(Names(s.Room(BLOCK_H).Put(row), names, 0), HeaderRow, from);
  }

  lemma {:induction false} CoursesHeaded(s: Sheet, wrap: Wrapper, courses: seq<Course>, li: nat, ci: nat, from: nat)
    requires ci <= |courses| && from <= |s.ops| && Headed(s.ops, from)
    ensures Headed(Courses(s, wrap, courses, li, ci).ops, from) && from <= |Courses(s, wrap, courses, li, ci).ops|
    decreases |courses| - ci
  {
    if ci < |courses| {
      var c := courses[ci];
      var head := CourseHead(s, NameLines(wrap, c), c, li, ci);
      HeadHeaded(s, NameLines(wrap, c), c, li, ci, from);
      PeopleHeaded(head, c.appointees, 0, from);
      CoursesHeaded(People(head, c.appointees, 0).Down(COURSE_GAP), wrap, courses, li, ci + 1, from);
    }
  }

  /** In the whole roster, every page turned begins with a level, a course, or the column header repeated before the next
      appointee, and every appointee stands below a column header on its own page with only appointees between. */
  lemma {:induction false} HeaderRepeatsOnEveryPage(s: Sheet, wrap: Wrapper, levels: seq<Level>, li: nat, from: nat)
    requires li <= |levels| && from <= |s.ops| && Headed(s.ops, from)
    ensures Headed(Levels(s, wrap, levels, li).ops, from)
    decreases |levels| - li
  {
    if li < |levels| {
      var head := LevelHead(s, levels[li], li);
      BlockHeaded(s, LevelRow(li + 1, levels[li].heading), from);
      CoursesHeaded(head, wrap, levels[li].courses, li, 0, from);
      HeaderRepeatsOnEveryPage(Courses(head, wrap, levels[li].courses, li, 0), wrap, levels, li + 1, from);
    }
  }

  ghost predicate InsideMargin(ops: seq<Op>) {
    forall k :: 0 <= k < |ops| && ops[k].Draw? ==> ops[k].y + ROW_H <= BOTTOM
  }

  lemma {:induction false} PeopleInsideMargin(s: Sheet, people: seq<Appointee>, i: nat)
    requires i <= |people|
    ensures InsideMargin(People(s, people, i).ops) <==> InsideMargin(s.ops)
    decreases |people| - i
  {
    if i < |people| {
      var next := RowRoom(s).Put(PersonRowOf(i, people[i])).Down(ROW_H);
      assert forall k :: 0 <= k < |s.ops| ==> next.ops[k] == s.ops[k];
      PeopleInsideMargin(next, people, i + 1);
    }
  }

  lemma PutInsideMargin(s: Sheet, row: Row)
    ensures InsideMargin(s.Put(row).ops) <==> InsideMargin(s.ops) && s.y + ROW_H <= BOTTOM
  {
    var ops := s.Put(row).ops;
    assert ops[|s.ops|] == Draw(s.y, row);
    assert forall k :: 0 <= k < |s.ops| ==> ops[k] == s.ops[k];
  }

  lemma {:induction false} NamesInsideMargin(s: Sheet, names: seq<string>, k: nat)
    requires k <= |names|
    ensures Names(s, names, k).y == s.y + ROW_H * ((|names| - k) as real)
    ensures InsideMargin(Names(s, names, k).ops) <==> InsideMargin(s.ops) && (k == |names| || Names(s, names, k).y <= BOTTOM)
    decreases |names| - k
  {
    if k < |names| {
      PutInsideMargin(s, NameRow(names[k]));
      NamesInsideMargin(s.Put(NameRow(names[k])).Down(ROW_H), names, k + 1);
      assert ((|names| - k) as real) == ((|names| - k - 1) as real) + 1.0;
    }
  }

  /** A course stays above the bottom margin exactly when its name lines and its column header fit below the
      position it starts at; with at most two name lines they always do. */
  lemma CourseInsideMarginIff(s: Sheet, names: seq<string>, c: Course, li: nat, ci: nat)
    requires InsideMargin(s.ops)
    ensures InsideMargin(People(CourseHead(s, names, c, li, ci), c.appointees, 0).ops)
       <==> s.Room(BLOCK_H).y + ROW_H * (|names| as real) + ROW_H <= BOTTOM
    ensures |names| <= 2 ==> s.Room(BLOCK_H).y + ROW_H * (|names| as real) + ROW_H <= BOTTOM
  {
    var s1 := s.Room(BLOCK_H);
    var s2 := s1.Put(CourseRow(li + 1, ci + 1, c.credit));
    var s3 := Names(s2, names, 0);
    PutInsideMargin(s1, CourseRow(li + 1, ci + 1, c.credit));
    NamesInsideMargin(s2, names, 0);
    PutInsideMargin(s3, HeaderRow);
    PeopleInsideMargin(CourseHead(s, names, c, li, ci), c.appointees, 0);
  }

  lemma {:induction false} CoursesInsideMargin(s: Sheet, wrap: Wrapper, courses: seq<Course>, li: nat, ci: nat)
    requires ci <= |courses| && InsideMargin(s.ops)
    requires forall c :: c in courses ==> |NameLines(wrap, c)| <= 2
    ensures InsideMargin(Courses(s, wrap, courses, li, ci).ops)
    decreases |courses| - ci
  {
    if ci < |courses| {
      var c := courses[ci];
      CourseInsideMarginIff(s, NameLines(wrap, c), c, li, ci);
      CoursesInsideMargin(People(CourseHead(s, NameLines(wrap, c), c, li, ci), c.appointees, 0).Down(COURSE_GAP), wrap, courses, li, ci + 1);
    }
  }

  /** When no course name wraps to more than two lines, no row of the roster crosses the bottom margin. */
  lemma {:induction false} RosterInsideMargin(s: Sheet, wrap: Wrapper, levels: seq<Level>, li: nat)
    requires li <= |levels| && InsideMargin(s.ops)
    requires forall lv, c :: lv in levels && c in lv.courses ==> |NameLines(wrap, c)| <= 2
    ensures InsideMargin(Levels(s, wrap, levels, li).ops)
    decreases |levels| - li
  {
    if li < |levels| {
      var head := LevelHead(s, levels[li], li);
      PutInsideMargin(s.Room(BLOCK_H), LevelRow(li + 1, levels[li].heading));
      assert levels[li] in levels;
      CoursesInsideMargin(head, wrap, levels[li].courses, li, 0);
      RosterInsideMargin(Courses(head, wrap, levels[li].courses, li, 0), wrap, levels, li + 1);
    }
  }
}
