/** The same throttle with requests in flight: Load, Store, the INSERT and Delete of different requests and
    sweeps interleave freely. */
module ThrottleRaces {
  import opened Throttle

  type Id = nat
  datatype Key = Key(viewer: nat, action: string, subject: string)

  /** A request that disclosed something, and read the clock at `now`. */
  datatype Request =
    | Arrived(key: Key, now: int)
    | Loaded(key: Key, now: int)      // found due; about to Store
    | Marked(key: Key, now: int)      // stored its mark; about to write its row
    | Logged(key: Key, now: int)
    | LogFailed(key: Key, now: int)   // about to Delete the mark
    | Forgot(key: Key, now: int)
    | Skipped(key: Key, now: int)

  // The request has stored its mark, and with it taken on the write of a row.
  predicate Attempts(r: Request) {
    r.Marked? || r.Logged? || r.LogFailed? || r.Forgot?
  }

  datatype State = State(seen: Seen<Key>, rows: seq<(Key, int)>, requests: map<Id, Request>) {
    function Goto(id: Id, r: Request): State {
      this.(requests := requests[id := r])
    }
  }

  datatype Action =
    | Arrive(id: Id, key: Key, now: int)
    | Next(id: Id)
    | WriteFails(id: Id)
    | Drop(key: Key)   // a sweep deletes one key

  function Step(s: State, a: Action): State {
    match a
    case Arrive(id, key, now) => if id in s.requests then s else s.Goto(id, Arrived(key, now))
    case Drop(key) => s.(seen := s.seen - {key})
    case WriteFails(id) =>
      if id in s.requests && s.requests[id].Marked? then s.Goto(id, LogFailed(s.requests[id].key, s.requests[id].now)) else s
    case Next(id) =>
      if id !in s.requests then s
      else
        match s.requests[id]
        case Arrived(k, now) => s.Goto(id, if IsDue(s.seen, k, now) then Loaded(k, now) else Skipped(k, now))
        case Loaded(k, now) => s.(seen := s.seen[k := now]).Goto(id, Marked(k, now))
        case Marked(k, now) => s.(rows := s.rows + [(k, now)]).Goto(id, Logged(k, now))
        case LogFailed(k, now) => s.(seen := s.seen - {k}).Goto(id, Forgot(k, now))
        case _ => s
  }

  function Run(s: State, acts: seq<Action>): State
    decreases |acts|
  {
    if acts == [] then s else Run(Step(s, acts[0]), acts[1..])
  }

  const START := State(map[], [], map[])

  ghost predicate AttemptedAt(s: State, k: Key, t: int) {
    exists id :: id in s.requests && Attempts(s.requests[id]) && s.requests[id].key == k && s.requests[id].now == t
  }

  ghost predicate Inv(s: State) {
    && (forall k :: k in s.seen ==> AttemptedAt(s, k, s.seen[k]))
    && (forall id :: id in s.requests && s.requests[id].Skipped? ==>
          exists t :: s.requests[id].now - t < WINDOW && AttemptedAt(s, s.requests[id].key, t))
  }

  lemma AttemptsStay(s: State, a: Action, k: Key, t: int)
    requires AttemptedAt(s, k, t)
    ensures AttemptedAt(Step(s, a), k, t)
  {
    var id :| id in s.requests && Attempts(s.requests[id]) && s.requests[id].key == k && s.requests[id].now == t;
    assert id in Step(s, a).requests && Attempts(Step(s, a).requests[id]);
  }

  lemma StepKeepsInv(s: State, a: Action)
    requires Inv(s)
    ensures Inv(Step(s, a))
  {
    var s' := Step(s, a);
    forall k | k in s'.seen
      ensures AttemptedAt(s', k, s'.seen[k])
    {
      if a.Next? && a.id in s.requests && s.requests[a.id] == Loaded(k, s'.seen[k]) {
        assert s'.requests[a.id] == Marked(k, s'.seen[k]);
      } else {
        AttemptsStay(s, a, k, s.seen[k]);
      }
    }
    forall id | id in s'.requests && s'.requests[id].Skipped?
      ensures exists t :: s'.requests[id].now - t < WINDOW && AttemptedAt(s', s'.requests[id].key, t)
    {
      var k, now := s'.requests[id].key, s'.requests[id].now;
      if id in s.requests && s.requests[id].Skipped? {
        var t :| now - t < WINDOW && AttemptedAt(s, k, t);
        AttemptsStay(s, a, k, t);
      } else {
        AttemptsStay(s, a, k, s.seen[k]);
      }
    }
  }

  lemma {:induction false} RunKeepsInv(s: State, acts: seq<Action>)
    requires Inv(s)
    ensures Inv(Run(s, acts))
    decreases |acts|
  {
    if acts != [] {
      StepKeepsInv(s, acts[0]);
      RunKeepsInv(Step(s, acts[0]), acts[1..]);
    }
  }

  /** However requests and sweeps interleave, a disclosure is left out of the trail only if some request for
      the same key took on the write of a row less than an hour before. */
  lemma SkippedLooksHaveAnAttempt(acts: seq<Action>, id: Id)
    requires id in Run(START, acts).requests && Run(START, acts).requests[id].Skipped?
    ensures var s := Run(START, acts);
      exists t :: s.requests[id].now - t < WINDOW && AttemptedAt(s, s.requests[id].key, t)
  {
    assert Inv(START);
    RunKeepsInv(START, acts);
  }

  // ----- One request on its own -----

  // What a request does from its arrival on, if its write does or does not fail.
  function Alone(id: Id, key: Key, now: int, written: bool): seq<Action> {
    [Arrive(id, key, now), Next(id), Next(id), if written then Next(id) else WriteFails(id), Next(id)]
  }

  lemma RunFive(s: State, a: Action, b: Action, c: Action, d: Action, e: Action)
    ensures Run(s, [a, b, c, d, e]) == Step(Step(Step(Step(Step(s, a), b), c), d), e)
  {
    var s1 := Step(s, a);
    var s2 := Step(s1, b);
    var s3 := Step(s2, c);
    Then(s, a, [b, c, d, e]);
    Then(s1, b, [c, d, e]);
    Then(s2, c, [d, e]);
    Then(s3, d, [e]);
    Then(Step(s3, d), e, []);
    assert [a] + [b, c, d, e] == [a, b, c, d, e] && [b] + [c, d, e] == [b, c, d, e];
    assert [c] + [d, e] == [c, d, e] && [d] + [e] == [d, e] && [e] + [] == [e];
  }

  // A due request marks, writes, and forgets its mark if the write failed.
  lemma DueAlone(s: State, id: Id, key: Key, now: int, written: bool)
    requires id !in s.requests && IsDue(s.seen, key, now)
    ensures var s' := Run(s, Alone(id, key, now, written));
      (s'.seen, s'.rows) == (if written then s.seen[key := now] else s.seen - {key}, if written then s.rows + [(key, now)] else s.rows)
  {
    var d := if written then Next(id) else WriteFails(id);
    var s1 := Step(s, Arrive(id, key, now));
    var s2 := Step(s1, Next(id));
    var s3 := Step(s2, Next(id));
    var s4 := Step(s3, d);
    RunFive(s, Arrive(id, key, now), Next(id), Next(id), d, Next(id));
    assert s2.requests[id] == Loaded(key, now) && s2.seen == s.seen && s2.rows == s.rows;
    assert s3.requests[id] == Marked(key, now) && s3.seen == s.seen[key := now];
    assert !written ==> s4.requests[id] == LogFailed(key, now) && s.seen[key := now] - {key} == s.seen - {key};
  }

  lemma NotDueAlone(s: State, id: Id, key: Key, now: int, written: bool)
    requires id !in s.requests && !IsDue(s.seen, key, now)
    ensures var s' := Run(s, Alone(id, key, now, written)); s'.seen == s.seen && s'.rows == s.rows
  {
    var d := if written then Next(id) else WriteFails(id);
    var s1 := Step(s, Arrive(id, key, now));
    var s2 := Step(s1, Next(id));
    RunFive(s, Arrive(id, key, now), Next(id), Next(id), d, Next(id));
    assert s1.requests[id] == Arrived(key, now) && s1.seen == s.seen;
    assert s2.requests[id] == Skipped(key, now) && s2.seen == s.seen && s2.rows == s.rows;
    assert Step(s2, Next(id)) == s2 && Step(s2, d) == s2;
  }

  /** Undisturbed, a request does to the marks and the rows what one sequential look does. */
  lemma AloneIsSequential(s: State, id: Id, key: Key, now: int, written: bool)
    requires id !in s.requests
    ensures var s' := Run(s, Alone(id, key, now, written)); (s'.seen, s'.rows) == After((s.seen, s.rows), Look(key, now, written))
  {
    if IsDue(s.seen, key, now) {
      DueAlone(s, id, key, now, written);
    } else {
      NotDueAlone(s, id, key, now, written);
    }
  }

  // ----- Which of the attempts wrote a row -----

  ghost predicate LoggedAt(s: State, k: Key, t: int) {
    exists id :: id in s.requests && s.requests[id] == Logged(k, t)
  }

  function LoggedIds(s: State): set<Id> {
    set id | id in s.requests && s.requests[id].Logged?
  }

  // The rows are those of the requests that got their write done, one each.
  ghost predicate RowsAreLogged(s: State) {
    && (forall k, t :: (k, t) in s.rows <==> LoggedAt(s, k, t))
    && |s.rows| == |LoggedIds(s)|
  }

  lemma LoggedStays(s: State, a: Action, k: Key, t: int)
    ensures LoggedAt(s, k, t) ==> LoggedAt(Step(s, a), k, t)
  {
    if id :| id in s.requests && s.requests[id] == Logged(k, t) {
      assert id in Step(s, a).requests && Step(s, a).requests[id] == Logged(k, t);
    }
  }

  lemma WriteIsLogged(s: State, id: Id)
    requires RowsAreLogged(s) && id in s.requests && s.requests[id].Marked?
    ensures RowsAreLogged(Step(s, Next(id)))
  {
    var s', r := Step(s, Next(id)), s.requests[id];
    assert s'.requests[id] == Logged(r.key, r.now);
    assert LoggedIds(s') == LoggedIds(s) + {id};
    forall k, t
      ensures (k, t) in s'.rows <==> LoggedAt(s', k, t)
    {
      LoggedStays(s, Next(id), k, t);
      assert (k, t) in s'.rows <==> (k, t) in s.rows || (k, t) == (r.key, r.now);
    }
  }

  lemma StepKeepsRows(s: State, a: Action)
    requires RowsAreLogged(s)
    ensures RowsAreLogged(Step(s, a))
  {
    var s' := Step(s, a);
    if a.Next? && a.id in s.requests && s.requests[a.id].Marked? {
      WriteIsLogged(s, a.id);
    } else {
      assert LoggedIds(s') == LoggedIds(s) && s'.rows == s.rows;
      forall k, t
        ensures LoggedAt(s', k, t) <==> LoggedAt(s, k, t)
      {
        LoggedStays(s, a, k, t);
      }
    }
  }

  /** Under any interleaving the trail holds exactly one row for each request whose write succeeded. */
  lemma {:induction false} RunKeepsRows(s: State, acts: seq<Action>)
    requires RowsAreLogged(s)
    ensures RowsAreLogged(Run(s, acts))
    decreases |acts|
  {
    if acts != [] {
      StepKeepsRows(s, acts[0]);
      RunKeepsRows(Step(s, acts[0]), acts[1..]);
    }
  }

  // The requests whose write fails in this run.
  function Failures(s: State, acts: seq<Action>): set<Id>
    decreases |acts|
  {
    if acts == [] then {}
    else
      (if acts[0].WriteFails? && acts[0].id in s.requests && s.requests[acts[0].id].Marked? then {acts[0].id} else {})
      + Failures(Step(s, acts[0]), acts[1..])
  }

  predicate HasFailed(s: State, id: Id) {
    id in s.requests && (s.requests[id].LogFailed? || s.requests[id].Forgot?)
  }

  lemma {:induction false} FailuresAreFailed(s: State, acts: seq<Action>, id: Id)
    ensures HasFailed(Run(s, acts), id) <==> HasFailed(s, id) || id in Failures(s, acts)
    decreases |acts|
  {
    if acts != [] {
      FailuresAreFailed(Step(s, acts[0]), acts[1..], id);
    }
  }

  // ----- Whether a skipped look has a row -----

  // The next statement of request `id` leaves its look out of the trail.
  predicate Skips(s: State, id: Id) {
    id in s.requests && s.requests[id].Arrived? && !IsDue(s.seen, s.requests[id].key, s.requests[id].now)
  }

  // By then request `a` had taken on a write for the same key, at a reading less than an hour before.
  predicate Covers(s: State, a: Id, id: Id)
    requires id in s.requests
  {
    && a in s.requests && Attempts(s.requests[a]) && s.requests[a].key == s.requests[id].key
    && s.requests[id].now - s.requests[a].now < WINDOW
  }

  // Request `a` got its row written.
  predicate HasRow(s: State, a: Id) {
    a in s.requests && s.requests[a].Logged? && (s.requests[a].key, s.requests[a].now) in s.rows
  }

  lemma {:induction false} RunAppend(s: State, acts: seq<Action>, more: seq<Action>)
    ensures Run(s, acts + more) == Run(Run(s, acts), more)
    decreases |acts|
  {
    if acts == [] {
      assert acts + more == more;
    } else {
      assert (acts + more)[0] == acts[0] && (acts + more)[1..] == acts[1..] + more;
      RunAppend(Step(s, acts[0]), acts[1..], more);
    }
  }

  lemma {:induction false} AttemptKept(s: State, acts: seq<Action>, a: Id)
    requires a in s.requests && Attempts(s.requests[a])
    ensures var s' := Run(s, acts);
      a in s'.requests && Attempts(s'.requests[a]) && s'.requests[a].key == s.requests[a].key && s'.requests[a].now == s.requests[a].now
    decreases |acts|
  {
    if acts != [] {
      AttemptKept(Step(s, acts[0]), acts[1..], a);
    }
  }

  // What has become of an attempt that is no longer about to write.
  lemma AttemptEnds(acts: seq<Action>, a: Id)
    requires var s := Run(START, acts); a in s.requests && Attempts(s.requests[a]) && !s.requests[a].Marked?
    ensures HasRow(Run(START, acts), a) <==> a !in Failures(START, acts)
  {
    var s := Run(START, acts);
    assert LoggedIds(START) == {};
    RunKeepsRows(START, acts);
    FailuresAreFailed(START, acts, a);
    if s.requests[a].Logged? {
      assert LoggedAt(s, s.requests[a].key, s.requests[a].now);
    }
  }

  /** A look is skipped only if some request had already taken on the write of a row for its key, at a reading of the
      clock less than an hour before the look's. */
  lemma SkippedLookIsCovered(pre: seq<Action>, id: Id)
    requires Skips(Run(START, pre), id)
    ensures exists a :: Covers(Run(START, pre), a, id)
  {
    var s := Run(START, pre);
    assert Inv(START);
    RunKeepsInv(START, pre);
    var k := s.requests[id].key;
    var a :| a in s.requests && Attempts(s.requests[a]) && s.requests[a].key == k && s.requests[a].now == s.seen[k];
    assert Covers(s, a, id);
  }

  // None of the requests that covered the look is still about to write its row.
  ghost predicate CoverSettled(before: State, after: State, id: Id)
    requires id in before.requests
  {
    forall a :: Covers(before, a, id) && a in after.requests ==> !after.requests[a].Marked?
  }

  /** A look skipped after `pre` has a row of one of the attempts it was skipped for, once those have been decided,
      exactly when the write of one of them did not fail in the run. Later looks at the same thing do not count. */
  lemma LookHasRowIff(pre: seq<Action>, id: Id, post: seq<Action>)
    requires Skips(Run(START, pre), id)
    requires CoverSettled(Run(START, pre), Run(START, pre + ([Next(id)] + post)), id)
    ensures (exists a :: Covers(Run(START, pre), a, id) && HasRow(Run(START, pre + ([Next(id)] + post)), a))
       <==> exists a :: Covers(Run(START, pre), a, id) && a !in Failures(START, pre + ([Next(id)] + post))
  {
    var more := [Next(id)] + post;
    RunAppend(START, pre, more);
    forall a | Covers(Run(START, pre), a, id)
      ensures HasRow(Run(START, pre + more), a) <==> a !in Failures(START, pre + more)
    {
      AttemptKept(Run(START, pre), more, a);
      AttemptEnds(pre + more, a);
    }
  }

  /** Hence a skipped look has such a row in every run in which no write for its key failed and none of the attempts it
      was skipped for is still to be decided. */
  lemma SkippedLookHasRow(pre: seq<Action>, id: Id, post: seq<Action>) returns (a: Id)
    requires Skips(Run(START, pre), id)
    requires CoverSettled(Run(START, pre), Run(START, pre + ([Next(id)] + post)), id)
    requires var s := Run(START, pre + ([Next(id)] + post));
      forall f :: f in Failures(START, pre + ([Next(id)] + post)) && f in s.requests ==>
        s.requests[f].key != Run(START, pre).requests[id].key
    ensures Covers(Run(START, pre), a, id) && HasRow(Run(START, pre + ([Next(id)] + post)), a)
  {
    var more := [Next(id)] + post;
    SkippedLookIsCovered(pre, id);
    a :| Covers(Run(START, pre), a, id);
    RunAppend(START, pre, more);
    AttemptKept(Run(START, pre), more, a);
    AttemptEnds(pre + more, a);
  }

  // ----- A skipped look without a row -----

  lemma Then(s: State, a: Action, acts: seq<Action>)
    ensures Run(s, [a] + acts) == Run(Step(s, a), acts)
  {
    assert ([a] + acts)[1..] == acts;
  }

  lemma FirstRequestMarks(key: Key, now: int, acts: seq<Action>)
    ensures Run(START, [Arrive(1, key, now)] + ([Next(1)] + ([Next(1)] + acts)))
         == Run(State(map[key := now], [], map[1 := Marked(key, now)]), acts)
  {
    var s1 := State(map[], [], map[1 := Arrived(key, now)]);
    var s2 := State(map[], [], map[1 := Loaded(key, now)]);
    Then(START, Arrive(1, key, now), [Next(1)] + ([Next(1)] + acts));
    Then(s1, Next(1), [Next(1)] + acts);
    Then(s2, Next(1), acts);
    assert Step(START, Arrive(1, key, now)) == s1;
    assert Step(s1, Next(1)) == s2;
    assert Step(s2, Next(1)) == State(map[key := now], [], map[1 := Marked(key, now)]);
  }

  lemma SecondRequestSkips(key: Key, now: int, acts: seq<Action>)
    ensures Run(State(map[key := now], [], map[1 := Marked(key, now)]), [Arrive(2, key, now)] + ([Next(2)] + acts))
         == Run(State(map[key := now], [], map[1 := Marked(key, now), 2 := Skipped(key, now)]), acts)
  {
    var s3 := State(map[key := now], [], map[1 := Marked(key, now)]);
    var s4 := State(map[key := now], [], map[1 := Marked(key, now), 2 := Arrived(key, now)]);
    Then(s3, Arrive(2, key, now), [Next(2)] + acts);
    Then(s4, Next(2), acts);
    assert Step(s4, Next(2)) == State(map[key := now], [], map[1 := Marked(key, now), 2 := Skipped(key, now)]);
    assert Step(s3, Arrive(2, key, now)) == s4;
  }

  lemma WriteFailsThenForgets(key: Key, now: int)
    ensures Run(State(map[key := now], [], map[1 := Marked(key, now), 2 := Skipped(key, now)]), [WriteFails(1)] + ([Next(1)] + []))
         == State(map[key := now] - {key}, [], map[1 := Forgot(key, now), 2 := Skipped(key, now)])
  {
    var s5 := State(map[key := now], [], map[1 := Marked(key, now), 2 := Skipped(key, now)]);
    var s6 := State(map[key := now], [], map[1 := LogFailed(key, now), 2 := Skipped(key, now)]);
    Then(s5, WriteFails(1), [Next(1)] + []);
    Then(s6, Next(1), []);
    assert Step(s5, WriteFails(1)) == s6;
  }

  /** The attempt is all there is: the row may never be written. A skips because of B's mark, B's write then
      fails, and no row for the key exists. */
  lemma SkippedLookMayHaveNoRow(key: Key, now: int) returns (acts: seq<Action>)
    ensures var s := Run(START, acts);
      s.requests == map[1 := Forgot(key, now), 2 := Skipped(key, now)] && s.rows == []
  {
    var last := [WriteFails(1)] + ([Next(1)] + []);
    var middle := [Arrive(2, key, now)] + ([Next(2)] + last);
    acts := [Arrive(1, key, now)] + ([Next(1)] + ([Next(1)] + middle));
    FirstRequestMarks(key, now, middle);
    SecondRequestSkips(key, now, last);
    WriteFailsThenForgets(key, now);
  }
}
