/** allocate: undergraduate TAs handed out to courses from a rotating cursor. */
module Allocation {

  type Ta = nat
  // uuid.Nil: what pick returns when nobody is eligible
  const NIL: Ta := 0

  datatype Track = Regular | Special
  datatype Phase = BeforeOrder | AfterOrder | Pending | Rejected
  datatype Section = Section(track: Track, day: nat)
  datatype Course = Course(code: string, sections: seq<Section>, tas: nat, grads: nat, phase: Phase)
  datatype Assign = Assign(ta: Ta, section: nat, grad: bool)

  const CAP_COURSES: set<string> := {"DM120203", "DM150501", "DM110103"}
  const LIMIT := 2

  // One class a TA was given: what `mark` records.
  datatype Mark = Mark(course: nat, ta: Ta, day: nat)

  function Count(marks: seq<Mark>, ta: Ta): nat {
    if marks == [] then 0
    else Count(marks[..|marks| - 1], ta) + (if marks[|marks| - 1].ta == ta then 1 else 0)
  }

  ghost predicate Busy(marks: seq<Mark>, ta: Ta, day: nat) {
    exists m :: m in marks && m.ta == ta && m.day == day
  }

  ghost predicate Distinct(tas: seq<Ta>) {
    forall i, j :: 0 <= i < j < |tas| ==> tas[i] != tas[j]
  }

  // Nobody but `cap` has two classes on one day, two classes in one course, or more than two courses.
  ghost predicate Fair(marks: seq<Mark>, cap: Ta) {
    && (forall i, j :: 0 <= i < j < |marks| && marks[i].ta == marks[j].ta && marks[i].ta != cap && marks[i].ta != NIL ==>
          marks[i].day != marks[j].day && marks[i].course != marks[j].course)
    && (forall ta: Ta :: ta != cap && ta != NIL ==> Count(marks, ta) <= 2)
  }

  predicate Marked(c: Course) {
    !c.phase.Pending? && !c.phase.Rejected?
  }

  // What the assignments of course number i mean for the books.
  function MarksOf(i: nat, c: Course, given: seq<Assign>): seq<Mark>
    requires forall a :: a in given ==> a.section < |c.sections|
  {
    if given == [] then []
    else
      var last := given[|given| - 1];
      MarksOf(i, c, given[..|given| - 1]) + (if Marked(c) && !last.grad then [Mark(i, last.ta, c.sections[last.section].day)] else [])
  }

  lemma MarksOfStep(i: nat, c: Course, given: seq<Assign>, a: Assign)
    requires a.section < |c.sections| && forall b :: b in given ==> b.section < |c.sections|
    ensures forall b :: b in given + [a] ==> b.section < |c.sections|
    ensures MarksOf(i, c, given + [a])
         == MarksOf(i, c, given) + (if Marked(c) && !a.grad then [Mark(i, a.ta, c.sections[a.section].day)] else [])
  {
    assert (given + [a])[..|given|] == given;
  }

  ghost predicate SectionsExist(courses: seq<Course>, taOf: seq<seq<Assign>>) {
    |taOf| <= |courses| && forall i, a :: 0 <= i < |taOf| && a in taOf[i] ==> a.section < |courses[i].sections|
  }

  function AllMarks(courses: seq<Course>, taOf: seq<seq<Assign>>): seq<Mark>
    requires SectionsExist(courses, taOf)
  {
    if taOf == [] then []
    else
      var n := |taOf| - 1;
      AllMarks(courses, taOf[..n]) + MarksOf(n, courses[n], taOf[n])
  }

  lemma AllMarksStep(courses: seq<Course>, taOf: seq<seq<Assign>>, given: seq<Assign>)
    requires SectionsExist(courses, taOf) && |taOf| < |courses|
    requires forall a :: a in given ==> a.section < |courses[|taOf|].sections|
    ensures SectionsExist(courses, taOf + [given])
    ensures AllMarks(courses, taOf + [given]) == AllMarks(courses, taOf) + MarksOf(|taOf|, courses[|taOf|], given)
  {
    assert (taOf + [given])[..|taOf|] == taOf;
  }

  // The positions of the sections of one track, among the first n.
  function PositionsOf(sections: seq<Section>, track: Track, n: nat): (r: seq<nat>)
    requires n <= |sections|
    ensures forall k :: k in r ==> k < n && sections[k].track == track
    ensures (exists k :: 0 <= k < n && sections[k].track == track) ==> r != []
  {
    if n == 0 then []
    else PositionsOf(sections, track, n - 1) + (if sections[n - 1].track == track then [n - 1] else [])
  }

  function RegularOf(c: Course): seq<nat> {
    PositionsOf(c.sections, Regular, |c.sections|)
  }

  // One graduate TA on the special sections.
  function OnSections(ta: Ta, positions: seq<nat>): (r: seq<Assign>)
    ensures forall a :: a in r ==> a.grad && a.section in positions
  {
    seq(|positions|, k requires 0 <= k < |positions| => Assign(ta, positions[k], true))
  }

  lemma OnSectionsStep(ta: Ta, positions: seq<nat>, si: nat)
    ensures OnSections(ta, positions + [si]) == OnSections(ta, positions) + [Assign(ta, si, true)]
    ensures OnSections(ta, positions + []) == OnSections(ta, positions)
  {
    assert positions + [] == positions;
  }

  // The first g graduate TAs, each on every special section, in order.
  function GradRows(grads: seq<Ta>, c: Course, g: nat): (r: seq<Assign>)
    requires g <= |grads|
    ensures forall a :: a in r ==> a.grad && a.section < |c.sections| && c.sections[a.section].track.Special?
  {
    if g == 0 then [] else GradRows(grads, c, g - 1) + OnSections(grads[g - 1], PositionsOf(c.sections, Special, |c.sections|))
  }

  // The k-th undergraduate TA is on the k-th regular section, going round.
  ghost predicate RoundRobin(c: Course, given: seq<Assign>) {
    var regular := RegularOf(c);
    forall k :: 0 <= k < |given| ==> regular != [] && given[k].section == regular[k % |regular|] && !given[k].grad
  }

  // A course can be staffed: a TA needs a regular section, and there are enough graduate TAs.
  predicate Staffable(c: Course, grads: nat) {
    (c.tas > 0 ==> RegularOf(c) != []) && c.grads <= grads
  }

  lemma RoundRobinStep(c: Course, given: seq<Assign>, a: Assign)
    requires RoundRobin(c, given) && RegularOf(c) != [] && !a.grad
    requires a.section == RegularOf(c)[|given| % |RegularOf(c)|]
    ensures RoundRobin(c, given + [a])
  {
    assert forall k :: 0 <= k < |given| ==> (given + [a])[k] == given[k];
  }

  // Everybody given a class so far is in `used`, and so is everybody marked for course i.
  ghost predicate Seated(c: Course, given: seq<Assign>, used: set<Ta>) {
    forall a :: a in given ==> a.section < |c.sections| && a.ta in used
  }

  lemma SeatedStep(c: Course, given: seq<Assign>, used: set<Ta>, a: Assign)
    requires Seated(c, given, used) && a.section < |c.sections|
    ensures Seated(c, given + [a], used + {a.ta})
  {}

  ghost predicate MarkedUpTo(marks: seq<Mark>, i: nat, used: set<Ta>) {
    forall m :: m in marks ==> m.course <= i && (m.course == i ==> m.ta in used)
  }

  lemma MarkedStep(marks: seq<Mark>, added: seq<Mark>, i: nat, used: set<Ta>, ta: Ta)
    requires MarkedUpTo(marks, i, used) && forall m :: m in added ==> m.course == i && m.ta == ta
    ensures MarkedUpTo(marks + added, i, used + {ta})
  {}

  function AtCursor(pool: seq<Ta>, cursor: nat): Ta
    requires pool != []
  {
    pool[cursor % |pool|]
  }

  lemma ModIs(a: nat, n: nat, q: int, r: nat)
    requires r < n && a == n * q + r
    ensures a % n == r
  {
    var d := q - a / n;
    assert n * d == a % n - r;
  }

  // The cursor comes back to the same place after |pool| steps ...
  lemma CursorRepeats(pool: seq<Ta>, cursor: nat)
    requires pool != []
    ensures AtCursor(pool, cursor + |pool|) == AtCursor(pool, cursor)
  {
    var n := |pool|;
    assert cursor + n == n * (cursor / n + 1) + cursor % n by {
      assert n * (cursor / n + 1) == n * (cursor / n) + n;
    }
    ModIs(cursor + n, n, cursor / n + 1, cursor % n);
  }

  // ... and on the way every position of the pool has come up.
  lemma CursorReaches(pool: seq<Ta>, cursor: nat, i: nat) returns (d: nat)
    requires i < |pool|
    ensures d < |pool| && AtCursor(pool, cursor + d) == pool[i]
  {
    var n := |pool|;
    var q, r := cursor / n, cursor % n;
    if r <= i {
      d := i - r;
      ModIs(cursor + d, n, q, i);
    } else {
      d := i + n - r;
      assert cursor + d == n * (q + 1) + i by {
        assert n * (q + 1) == n * q + n;
      }
      ModIs(cursor + d, n, q + 1, i);
    }
  }

  lemma CursorCovers(pool: seq<Ta>, cursor: nat, out: set<Ta>)
    requires pool != [] && forall c: nat :: cursor <= c < cursor + |pool| * 2 ==> AtCursor(pool, c) in out
    ensures forall p :: p in pool ==> p in out
  {
    forall p | p in pool
      ensures p in out
    {
      var i :| 0 <= i < |pool| && pool[i] == p;
      var d := CursorReaches(pool, cursor, i);
      assert AtCursor(pool, cursor + d) in out;
    }
  }

  // ----- Whose turn it is -----

  // TA p may be given another class on `day`, in a course that has named `used` so far.
  ghost predicate Free(marks: seq<Mark>, cap: Ta, p: Ta, day: nat, used: set<Ta>) {
    p != cap && p !in used && Count(marks, p) < LIMIT && !Busy(marks, p, day)
  }

  // Just past the first place of ta, from the cursor on.
  function Past(pool: seq<Ta>, cursor: nat, ta: Ta, tries: nat): nat
    requires pool != []
    decreases tries
  {
    if tries == 0 || AtCursor(pool, cursor) == ta then cursor + 1 else Past(pool, cursor + 1, ta, tries - 1)
  }

  lemma {:induction false} PastIs(pool: seq<Ta>, cursor: nat, ta: Ta, tries: nat, at: nat)
    requires pool != [] && cursor <= at < cursor + tries && AtCursor(pool, at) == ta
    requires forall c: nat :: cursor <= c < at ==> AtCursor(pool, c) != ta
    ensures Past(pool, cursor, ta, tries) == at + 1
    decreases tries
  {
    if cursor < at {
      PastIs(pool, cursor + 1, ta, tries - 1, at);
    }
  }

  // Where the cursor stands: past the TA picked last. A search that finds nobody goes round twice.
  function Turn(pool: seq<Ta>, cap: Ta, marks: seq<Mark>): nat
    requires pool != []
  {
    if marks == [] then 1
    else
      var before, ta := Turn(pool, cap, marks[..|marks| - 1]), marks[|marks| - 1].ta;
      if ta == cap then before
      else if ta == NIL then before + |pool| * 2
      else Past(pool, before, ta, |pool|)
  }

  // The first free TA from the cursor on; nil only when nobody is free.
  ghost predicate TakesTurn(pool: seq<Ta>, cap: Ta, marks: seq<Mark>, ta: Ta, day: nat, used: set<Ta>)
    requires pool != []
  {
    var cursor := Turn(pool, cap, marks);
    if ta == NIL then forall p :: p in pool ==> !Free(marks, cap, p, day, used)
    else
      && ta in pool && Free(marks, cap, ta, day, used)
      && forall c: nat :: cursor <= c < Past(pool, cursor, ta, |pool|) - 1 ==> !Free(marks, cap, AtCursor(pool, c), day, used)
  }

  function TasOf(given: seq<Assign>): set<Ta> {
    set a | a in given :: a.ta
  }

  ghost predicate ForCap(c: Course, k: nat) {
    k == 0 && c.code in CAP_COURSES
  }

  // Every class of an approved course, but for the capped TA's, goes to whose turn it is, by the books before that class.
  ghost predicate TurnsKept(pool: seq<Ta>, cap: Ta, marks: seq<Mark>, i: nat, c: Course, given: seq<Assign>)
    requires pool != [] && forall a :: a in given ==> a.section < |c.sections|
  {
    Marked(c) ==> forall k :: 0 <= k < |given| && !ForCap(c, k) ==>
      TakesTurn(pool, cap, marks + MarksOf(i, c, given[..k]), given[k].ta, c.sections[given[k].section].day, TasOf(given[..k]))
  }

  lemma TurnsKeptStep(pool: seq<Ta>, cap: Ta, marks: seq<Mark>, i: nat, c: Course, given: seq<Assign>, a: Assign)
    requires pool != [] && (forall b :: b in given ==> b.section < |c.sections|) && a.section < |c.sections|
    requires TurnsKept(pool, cap, marks, i, c, given)
    requires Marked(c) && !ForCap(c, |given|) ==>
      TakesTurn(pool, cap, marks + MarksOf(i, c, given), a.ta, c.sections[a.section].day, TasOf(given))
    ensures forall b :: b in given + [a] ==> b.section < |c.sections|
    ensures TurnsKept(pool, cap, marks, i, c, given + [a])
  {
    var all := given + [a];
    assert all[..|given|] == given;
    forall k | 0 <= k < |all| && Marked(c) && !ForCap(c, k)
      ensures TakesTurn(pool, cap, marks + MarksOf(i, c, all[..k]), all[k].ta, c.sections[all[k].section].day, TasOf(all[..k]))
    {
      if k < |given| {
        assert all[..k] == given[..k] && all[k] == given[k];
      }
    }
  }

  lemma TasOfStep(given: seq<Assign>, a: Assign)
    ensures TasOf(given + [a]) == TasOf(given) + {a.ta}
  {
    assert forall b :: b in given + [a] <==> b in given || b == a;
    assert a in given + [a];
  }

  class Allocator {
    const tas: seq<Ta>
    const grads: seq<Ta>
    var days: map<Ta, set<nat>>
    var load: map<Ta, nat>
    var taOf: seq<seq<Assign>>
    var next: nat
    ghost var marks: seq<Mark>

    // The last TA is held back for the pending request.
    function Pool(): seq<Ta>
      requires |tas| >= 2
    {
      tas[..|tas| - 1]
    }

    function Cap(): Ta
      requires |tas| >= 2
    {
      tas[0]
    }

    function PendingTa(): Ta
      requires |tas| >= 2
    {
      tas[|tas| - 1]
    }

    function DaysOf(ta: Ta): set<nat>
      reads this`days
    {
      if ta in days then days[ta] else {}
    }

    function LoadOf(ta: Ta): nat
      reads this`load
    {
      if ta in load then load[ta] else 0
    }

    ghost predicate Valid()
      reads this`days, this`load, this`marks
    {
      && |tas| >= 2 && Distinct(tas) && NIL !in tas
      && (forall ta: Ta :: LoadOf(ta) == Count(marks, ta))
      && (forall ta: Ta, day: nat :: day in DaysOf(ta) <==> Busy(marks, ta, day))
    }

    constructor (tas: seq<Ta>, grads: seq<Ta>)
      requires |tas| >= 2 && Distinct(tas) && NIL !in tas
      ensures this.tas == tas && this.grads == grads && Valid() && InTurn() && marks == [] && taOf == []
    {
      this.tas, this.grads := tas, grads;
      days, load, taOf, next, marks := map[], map[], [], 1, [];
    }

    // The cursor is where the books say.
    ghost predicate InTurn()
      requires |tas| >= 2
      reads this`next, this`marks
    {
      next == Turn(Pool(), Cap(), marks)
    }

    predicate Eligible(ta: Ta, day: nat, limit: nat, avoid: set<Ta>)
      requires |tas| >= 2
      reads this`days, this`load
    {
      ta != Cap() && ta !in avoid && LoadOf(ta) < limit && day !in DaysOf(ta)
    }

    /** The first eligible TA from the cursor on, in pool order and going round; nil only if there is none. */
    method Pick(day: nat, limit: nat, avoid: set<Ta>) returns (ta: Ta)
      requires Valid()
      modifies this`next
      ensures ta == NIL <==> forall p :: p in Pool() ==> !Eligible(p, day, limit, avoid)
      ensures ta == NIL ==> next == old(next) + |Pool()| * 2
      ensures ta != NIL ==> ta in Pool() && Eligible(ta, day, limit, avoid)
      ensures ta != NIL ==>
        && old(next) < next <= old(next) + |Pool()| && ta == AtCursor(Pool(), next - 1)
        && forall c: nat :: old(next) <= c < next - 1 ==> !Eligible(AtCursor(Pool(), c), day, limit, avoid)
    {
      var pool := Pool();
      ghost var out := set p | p in pool && !Eligible(p, day, limit, avoid);
      for tries := 0 to |pool| * 2
        invariant next == old(next) + tries
        invariant forall c: nat :: old(next) <= c < next ==> AtCursor(pool, c) in out
      {
        ta := AtCursor(pool, next);
        next := next + 1;
        if !(ta == Cap() || ta in avoid || LoadOf(ta) >= limit || day in DaysOf(ta)) {
          assert ta in pool && ta in tas && Eligible(ta, day, limit, avoid) && ta !in out;
          if tries >= |pool| {
            CursorRepeats(pool, old(next) + tries - |pool|);
          }
          return;
        }
      }
      ta := NIL;
      CursorCovers(pool, old(next), out);
    }

    /** The switch that names the TA of the k-th class of a course. */
    method Choose(c: Course, k: nat, day: nat, used: set<Ta>) returns (ta: Ta)
      requires Valid()
      modifies this`next
      ensures c.phase.Pending? ==> ta == PendingTa()
      ensures c.phase.Rejected? ==> ta == Cap()
      ensures Marked(c) ==> (ta == Cap() <==> k == 0 && c.code in CAP_COURSES)
      ensures Marked(c) && !ForCap(c, k) && old(InTurn()) ==> TakesTurn(Pool(), Cap(), marks, ta, day, used)
      ensures !Marked(c) || ForCap(c, k) ==> next == old(next)
      ensures Marked(c) && !ForCap(c, k) ==>
        next == if ta == NIL then old(next) + |Pool()| * 2 else Past(Pool(), old(next), ta, |Pool()|)
    {
      if c.phase.Pending? {
        ta := PendingTa();
      } else if c.phase.Rejected? {
        ta := Cap();
      } else if c.code in CAP_COURSES && k == 0 {
        ta := Cap();
        assert Cap() in tas;
      } else {
        ta := Pick(day, LIMIT, used);
        assert Cap() in tas;
        FreeIsEligible(day, used);
        if ta != NIL {
          PastIs(Pool(), old(next), ta, |Pool()|, next - 1);
        }
      }
    }

    lemma FreeIsEligible(day: nat, used: set<Ta>)
      requires Valid()
      ensures forall p: Ta :: Eligible(p, day, LIMIT, used) <==> Free(marks, Cap(), p, day, used)
    {}

    method MarkClass(course: nat, ta: Ta, day: nat)
      requires Valid()
      modifies this`days, this`load, this`marks
      ensures Valid() && marks == old(marks) + [Mark(course, ta, day)]
    {
      ghost var marks0 := marks;
      days := days[ta := DaysOf(ta) + {day}];
      load := load[ta := LoadOf(ta) + 1];
      marks := marks + [Mark(course, ta, day)];
      assert marks[..|marks0|] == marks0;
      forall t: Ta, d: nat
        ensures Busy(marks, t, d) <==> Busy(marks0, t, d) || (t == ta && d == day)
      {
        BusyStep(marks0, Mark(course, ta, day), t, d);
      }
    }

    // A held-back course repeats its one TA; an approved one repeats nobody, and gives the capped TA only
    // the first class of the courses chosen for it.
    ghost predicate RightTas(c: Course, given: seq<Assign>)
      requires |tas| >= 2
    {
      && (c.phase.Pending? ==> forall k :: 0 <= k < |given| ==> given[k].ta == PendingTa())
      && (c.phase.Rejected? ==> forall k :: 0 <= k < |given| ==> given[k].ta == Cap())
      && (Marked(c) ==> forall k :: 0 <= k < |given| ==>
            (given[k].ta in tas || given[k].ta == NIL) && (given[k].ta == Cap() <==> k == 0 && c.code in CAP_COURSES))
      && (Marked(c) ==> forall l, k :: 0 <= l < k < |given| ==> given[l].ta != given[k].ta || given[k].ta == NIL)
    }

    // What one course is given: its undergraduate TAs round the regular sections, then every graduate TA on
    // every special section.
    ghost predicate RightCourse(c: Course, given: seq<Assign>)
      requires |tas| >= 2
    {
      && c.tas <= |given| && RightTas(c, given[..c.tas]) && RoundRobin(c, given[..c.tas])
      && c.grads <= |grads| && given[c.tas..] == GradRows(grads, c, c.grads)
    }

    ghost predicate AllRight(courses: seq<Course>, taOf: seq<seq<Assign>>)
      requires |tas| >= 2
    {
      |taOf| <= |courses| && forall i :: 0 <= i < |taOf| ==> RightCourse(courses[i], taOf[i])
    }

    lemma AllRightStep(courses: seq<Course>, taOf: seq<seq<Assign>>, given: seq<Assign>)
      requires |tas| >= 2 && |taOf| < |courses| && AllRight(courses, taOf) && RightCourse(courses[|taOf|], given)
      ensures AllRight(courses, taOf + [given])
    {}

    // In every course, the turns are kept by the books of the courses before it.
    ghost predicate AllTurnsKept(courses: seq<Course>, taOf: seq<seq<Assign>>)
      requires |tas| >= 2 && SectionsExist(courses, taOf) && AllRight(courses, taOf)
    {
      forall i :: 0 <= i < |taOf| ==>
        TurnsKept(Pool(), Cap(), AllMarks(courses, taOf[..i]), i, courses[i], taOf[i][..courses[i].tas])
    }

    lemma AllTurnsKeptStep(courses: seq<Course>, taOf: seq<seq<Assign>>, given: seq<Assign>)
      requires |tas| >= 2 && SectionsExist(courses, taOf) && |taOf| < |courses|
      requires AllRight(courses, taOf + [given]) && AllRight(courses, taOf) && AllTurnsKept(courses, taOf)
      requires forall a :: a in given ==> a.section < |courses[|taOf|].sections|
      requires TurnsKept(Pool(), Cap(), AllMarks(courses, taOf), |taOf|, courses[|taOf|], given[..courses[|taOf|].tas])
      ensures SectionsExist(courses, taOf + [given]) && AllTurnsKept(courses, taOf + [given])
    {
      var all := taOf + [given];
      AllMarksStep(courses, taOf, given);
      forall i | 0 <= i < |all|
        ensures TurnsKept(Pool(), Cap(), AllMarks(courses, all[..i]), i, courses[i], all[i][..courses[i].tas])
      {
        assert all[..i] == taOf[..i];
        assert i == |taOf| ==> taOf[..i] == taOf && all[i] == given;
        assert i < |taOf| ==> all[i] == taOf[i];
      }
    }

    /** Nobody is named for a class of an approved course only when every TA of the pool, other than the capped one, has
        a class that day, two courses already, or a class in this course. */
    lemma NilMeansNobodyFree(courses: seq<Course>, taOf: seq<seq<Assign>>, i: nat, k: nat, p: Ta)
      requires |tas| >= 2 && NIL !in tas && SectionsExist(courses, taOf) && AllRight(courses, taOf) && AllTurnsKept(courses, taOf)
      requires i < |taOf| && Marked(courses[i]) && k < courses[i].tas && taOf[i][k].ta == NIL
      requires p in Pool() && p != Cap()
      ensures var c, given := courses[i], taOf[i];
        var marks := AllMarks(courses, taOf[..i]) + MarksOf(i, c, given[..k]);
        Busy(marks, p, c.sections[given[k].section].day) || Count(marks, p) >= 2 || exists l :: 0 <= l < k && given[l].ta == p
    {
      var c, given := courses[i], taOf[i];
      assert RightCourse(c, given) && Cap() in tas;
      var tas := given[..c.tas];
      assert tas[k] == given[k] && tas[..k] == given[..k];
      assert TurnsKept(Pool(), Cap(), AllMarks(courses, taOf[..i]), i, c, tas);
      assert !ForCap(c, k);
      if p in TasOf(given[..k]) {
        var a :| a in given[..k] && a.ta == p;
      }
    }

    lemma RightTasStep(c: Course, given: seq<Assign>, a: Assign)
      requires |tas| >= 2 && NIL !in tas && RightTas(c, given)
      requires c.phase.Pending? ==> a.ta == PendingTa()
      requires c.phase.Rejected? ==> a.ta == Cap()
      requires Marked(c) ==> (a.ta == Cap() <==> |given| == 0 && c.code in CAP_COURSES)
      requires Marked(c) && a.ta != Cap() && a.ta != NIL ==> a.ta in Pool() && forall g :: g in given ==> g.ta != a.ta
      ensures RightTas(c, given + [a])
    {
      assert Cap() in tas;
      assert forall l :: 0 <= l < |given| ==> (given + [a])[l] == given[l] && given[l] in given;
    }

    /** A TA is given twice within one course exactly when the course is held back and asks for two or more. */
    lemma TaRepeatedIff(c: Course, given: seq<Assign>)
      requires |tas| >= 2 && RightTas(c, given)
      requires forall g :: g in given ==> g.ta != NIL
      ensures (exists l, k :: 0 <= l < k < |given| && given[l].ta == given[k].ta) <==> !Marked(c) && |given| >= 2
    {
      if !Marked(c) && |given| >= 2 {
        assert given[0].ta == given[1].ta;
      }
      assert forall k :: 0 <= k < |given| ==> given[k] in given;
    }

    /** One class: its TA is chosen and, unless the course is held back, entered in the books. */
    method GiveClass(i: nat, c: Course, k: nat, day: nat, used: set<Ta>) returns (ta: Ta)
      requires Valid() && InTurn() && Fair(marks, Cap())
      requires MarkedUpTo(marks, i, used)
      modifies this`days, this`load, this`next, this`marks
      ensures Valid() && InTurn() && Fair(marks, Cap())
      ensures Marked(c) && !ForCap(c, k) ==> TakesTurn(Pool(), Cap(), old(marks), ta, day, used)
      ensures marks == old(marks) + (if Marked(c) then [Mark(i, ta, day)] else [])
      ensures MarkedUpTo(marks, i, used + {ta})
      ensures MayTake(c, k, ta, used)
    {
      ta := Choose(c, k, day, used);
      MarkedStep(marks, if Marked(c) then [Mark(i, ta, day)] else [], i, used, ta);
      if !c.phase.Pending? && !c.phase.Rejected? {
        FairStep(marks, Mark(i, ta, day), Cap());
        MarkClass(i, ta, day);
        assert marks[..|marks| - 1] == old(marks);
      }
    }

    // Who may be named for the k-th class with `used` named before.
    ghost predicate MayTake(c: Course, k: nat, ta: Ta, used: set<Ta>)
      requires |tas| >= 2
    {
      && (c.phase.Pending? ==> ta == PendingTa())
      && (c.phase.Rejected? ==> ta == Cap())
      && (Marked(c) ==> (ta == Cap() <==> k == 0 && c.code in CAP_COURSES))
      && (Marked(c) && ta != Cap() && ta != NIL ==> ta in Pool() && ta !in used)
    }

    // What stays true of a course while its undergraduate TAs are being named.
    ghost predicate Staffing(c: Course, given: seq<Assign>, used: set<Ta>)
      requires |tas| >= 2
    {
      RightTas(c, given) && RoundRobin(c, given) && Seated(c, given, used)
    }

    lemma StaffingStep(c: Course, given: seq<Assign>, used: set<Ta>, a: Assign)
      requires |tas| >= 2 && NIL !in tas && Staffing(c, given, used) && RegularOf(c) != []
      requires !a.grad && a.section == RegularOf(c)[|given| % |RegularOf(c)|] && a.section < |c.sections|
      requires MayTake(c, |given|, a.ta, used)
      ensures Staffing(c, given + [a], used + {a.ta})
    {
      RightTasStep(c, given, a);
      RoundRobinStep(c, given, a);
      SeatedStep(c, given, used, a);
    }

    // The same with the books: `before` are those before the course, `now` those with what it was given so far.
    ghost predicate Halfway(i: nat, c: Course, given: seq<Assign>, used: set<Ta>, before: seq<Mark>, now: seq<Mark>)
      requires |tas| >= 2
    {
      && Staffing(c, given, used) && used == TasOf(given)
      && now == before + MarksOf(i, c, given) && TurnsKept(Pool(), Cap(), before, i, c, given)
    }

    lemma GivenStep(i: nat, c: Course, given: seq<Assign>, used: set<Ta>, before: seq<Mark>, now: seq<Mark>, a: Assign)
      requires |tas| >= 2 && NIL !in tas && Halfway(i, c, given, used, before, now) && RegularOf(c) != []
      requires !a.grad && a.section == RegularOf(c)[|given| % |RegularOf(c)|] && a.section < |c.sections|
      requires MayTake(c, |given|, a.ta, used)
      requires Marked(c) && !ForCap(c, |given|) ==> TakesTurn(Pool(), Cap(), now, a.ta, c.sections[a.section].day, used)
      ensures Halfway(i, c, given + [a], used + {a.ta}, before,
                      now + if Marked(c) then [Mark(i, a.ta, c.sections[a.section].day)] else [])
    {
      StaffingStep(c, given, used, a);
      TurnsKeptStep(Pool(), Cap(), before, i, c, given, a);
      TasOfStep(given, a);
      MarksOfStep(i, c, given, a);
    }

    /** The loop over the undergraduate TAs a course asks for. */
    method StaffCourse(i: nat, c: Course) returns (given: seq<Assign>)
      requires Valid() && InTurn() && Staffable(c, |grads|) && Fair(marks, Cap())
      requires forall m :: m in marks ==> m.course < i
      modifies this`days, this`load, this`next, this`marks
      ensures Valid() && InTurn() && Fair(marks, Cap()) && |given| == c.tas && RightTas(c, given) && RoundRobin(c, given)
      ensures forall a :: a in given ==> a.section < |c.sections|
      ensures TurnsKept(Pool(), Cap(), old(marks), i, c, given)
      ensures marks == old(marks) + MarksOf(i, c, given)
      ensures forall m :: m in marks ==> m.course <= i
    {
      given := [];
      var regular := RegularOf(c);
      var used: set<Ta> := {};
      for k := 0 to c.tas
        invariant Valid() && InTurn() && Fair(marks, Cap()) && |given| == k
        invariant Halfway(i, c, given, used, old(marks), marks) && MarkedUpTo(marks, i, used)
      {
        var si := regular[k % |regular|];
        assert si in regular;
        ghost var now := marks;
        var ta := GiveClass(i, c, k, c.sections[si].day, used);
        GivenStep(i, c, given, used, old(marks), now, Assign(ta, si, false));
        used := used + {ta};
        given := given + [Assign(ta, si, false)];
      }
    }

    /** allocate. */
    method Allocate(courses: seq<Course>)
      requires Valid() && InTurn() && marks == [] && taOf == []
      requires forall c :: c in courses ==> Staffable(c, |grads|)
      modifies this
      ensures Valid() && |taOf| == |courses| && SectionsExist(courses, taOf)
      ensures marks == AllMarks(courses, taOf) && Fair(AllMarks(courses, taOf), Cap())
      ensures AllRight(courses, taOf) && AllTurnsKept(courses, taOf)
    {
      for i := 0 to |courses|
        invariant Valid() && InTurn() && |taOf| == i && SectionsExist(courses, taOf)
        invariant marks == AllMarks(courses, taOf) && Fair(marks, Cap())
        invariant AllRight(courses, taOf) && AllTurnsKept(courses, taOf)
        invariant forall m :: m in marks ==> m.course < i
      {
        assert courses[i] in courses;
        var given := StaffWhole(i, courses[i]);
        AllRightStep(courses, taOf, given);
        AllTurnsKeptStep(courses, taOf, given);
        AllMarksStep(courses, taOf, given);
        taOf := taOf + [given];
      }
    }

    method StaffWhole(i: nat, c: Course) returns (given: seq<Assign>)
      requires Valid() && InTurn() && Staffable(c, |grads|) && Fair(marks, Cap())
      requires forall m :: m in marks ==> m.course < i
      modifies this`days, this`load, this`next, this`marks
      ensures Valid() && InTurn() && Fair(marks, Cap()) && RightCourse(c, given)
      ensures forall a :: a in given ==> a.section < |c.sections|
      ensures TurnsKept(Pool(), Cap(), old(marks), i, c, given[..c.tas])
      ensures marks == old(marks) + MarksOf(i, c, given)
      ensures forall m :: m in marks ==> m.course <= i
    {
      given := [];
      if !(c.tas == 0 && c.grads == 0) {
        var undergrads := StaffCourse(i, c);
        var specials := GradAssignments(c);
        MarksOfGrads(i, c, undergrads, specials);
        given := undergrads + specials;
        assert given[..c.tas] == undergrads && given[c.tas..] == specials;
      }
    }

    /** The loop over graduate TAs and special sections. */
    method GradAssignments(c: Course) returns (given: seq<Assign>)
      requires c.grads <= |grads|
      ensures given == GradRows(grads, c, c.grads)
    {
      given := [];
      for g := 0 to c.grads
        invariant given == GradRows(grads, c, g)
      {
        ghost var before := given;
        for si := 0 to |c.sections|
          invariant given == before + OnSections(grads[g], PositionsOf(c.sections, Special, si))
        {
          OnSectionsStep(grads[g], PositionsOf(c.sections, Special, si), si);
          if c.sections[si].track.Special? {
            given := given + [Assign(grads[g], si, true)];
          }
        }
      }
    }
  }

  lemma BusyStep(marks: seq<Mark>, m: Mark, ta: Ta, day: nat)
    ensures Busy(marks + [m], ta, day) <==> Busy(marks, ta, day) || (m.ta == ta && m.day == day)
  {
    if Busy(marks, ta, day) {
      var w :| w in marks && w.ta == ta && w.day == day;
      assert w in marks + [m];
    }
    assert m in marks + [m];
  }

  // A class given to somebody free that day, not yet in the course and below the limit keeps things fair.
  lemma FairStep(marks: seq<Mark>, m: Mark, cap: Ta)
    requires Fair(marks, cap)
    requires m.ta != cap && m.ta != NIL ==>
      !Busy(marks, m.ta, m.day) && Count(marks, m.ta) < LIMIT && forall o :: o in marks && o.course == m.course ==> o.ta != m.ta
    ensures Fair(marks + [m], cap)
  {
    var all := marks + [m];
    assert all[..|marks|] == marks;
    forall i, j | 0 <= i < j < |all| && all[i].ta == all[j].ta && all[i].ta != cap && all[i].ta != NIL
      ensures all[i].day != all[j].day && all[i].course != all[j].course
    {
      if j == |marks| {
        assert all[i] == marks[i] && marks[i] in marks;
      }
    }
  }

  lemma {:induction false} MarksOfGrads(i: nat, c: Course, given: seq<Assign>, specials: seq<Assign>)
    requires forall a :: a in given ==> a.section < |c.sections|
    requires forall a :: a in specials ==> a.grad && a.section < |c.sections|
    ensures forall a :: a in given + specials ==> a.section < |c.sections|
    ensures MarksOf(i, c, given + specials) == MarksOf(i, c, given)
    decreases |specials|
  {
    if specials == [] {
      assert given + specials == given;
    } else {
      var n := |specials| - 1;
      MarksOfGrads(i, c, given, specials[..n]);
      assert specials[n] in specials;
      assert (given + specials[..n]) + [specials[n]] == given + specials;
      assert forall a :: a in given + specials[..n] ==> a in given || a in specials;
      MarksOfStep(i, c, given + specials[..n], specials[n]);
    }
  }
}
