/** Migrate, run by several instances that boot together: each takes one session-level advisory lock,
    then checks, applies and records one file after the other. Any statement may fail, and any instance
    may crash at any point; a crash frees its lock and discards its open transaction. */
module Migrations {
  import opened Options

  datatype Version = Version(name: string)
  type Id = nat

  datatype Reason = Fault | AlreadyRecorded | BodyAlreadyApplied

  /** Where one instance is. `k` indexes the file it is working on. */
  datatype Pc =
    | Waiting
    | Holding
    | Checking(k: nat)
    | Reading(k: nat)
    | InTx(k: nat)
    | BodyRun(k: nat)
    | RowInserted(k: nat)
    | Finishing(result: Option<Reason>)
    | Returned(result: Option<Reason>)
    | Crashed
  {
    // Between pg_advisory_lock and pg_advisory_unlock.
    predicate Inside() {
      Holding? || Checking? || Reading? || InTx? || BodyRun? || RowInserted? || Finishing?
    }
  }

  datatype Instance = Instance(files: seq<Version>, pc: Pc)

  /** `applied` are the committed rows of schema_migrations, `effects` the committed migration bodies, each
      in commit order. */
  datatype State = State(applied: seq<Version>, effects: seq<Version>, lock: Option<Id>, insts: map<Id, Instance>) {
    function At(id: Id, pc: Pc): State
      requires id in insts
    {
      this.(insts := insts[id := insts[id].(pc := pc)])
    }
  }

  datatype Action =
    | Boot(id: Id, files: seq<Version>)
    | Next(id: Id)
    // the next statement of the instance fails and changes nothing
    | Fails(id: Id)
    // COMMIT reaches the server, but its answer is lost
    | CommitUnheard(id: Id)
    // pg_advisory_unlock fails; the pooled connection keeps the lock
    | UnlockFails(id: Id)
    | Crash(id: Id)

  function Proceed(s: State, id: Id): Option<State>
    requires id in s.insts
  {
    var i := s.insts[id];
    match i.pc
    case Waiting => if s.lock.None? then Some(s.At(id, Holding).(lock := Some(id))) else None
    case Holding => Some(s.At(id, Checking(0)))
    case Checking(k) =>
      if k >= |i.files| then Some(s.At(id, Finishing(None)))
      else if i.files[k] in s.applied then Some(s.At(id, Checking(k + 1)))
      else Some(s.At(id, Reading(k)))
    case Reading(k) => Some(s.At(id, InTx(k)))
    case InTx(k) =>
      if k >= |i.files| then None
      else if i.files[k] in s.effects then Some(s.At(id, Finishing(Some(BodyAlreadyApplied))))
      else Some(s.At(id, BodyRun(k)))
    case BodyRun(k) =>
      if k >= |i.files| then None
      else if i.files[k] in s.applied then Some(s.At(id, Finishing(Some(AlreadyRecorded))))
      else Some(s.At(id, RowInserted(k)))
    case RowInserted(k) =>
      if k >= |i.files| then None
      else Some(Commit(s, id, i.files[k]).At(id, Checking(k + 1)))
    case Finishing(result) => Some(s.At(id, Returned(result)).(lock := None))
    case _ => None
  }

  function Commit(s: State, id: Id, v: Version): State {
    s.(applied := s.applied + [v], effects := s.effects + [v])
  }

  function Step(s: State, a: Action): Option<State> {
    match a
    case Boot(id, files) =>
      if id !in s.insts then Some(s.(insts := s.insts[id := Instance(files, Waiting)])) else None
    case Next(id) => if id in s.insts then Proceed(s, id) else None
    case Fails(id) =>
      if id in s.insts && s.insts[id].pc.Waiting? then Some(s.At(id, Returned(Some(Fault))))
      else if id in s.insts && s.insts[id].pc.Inside() && !s.insts[id].pc.Finishing? then Some(s.At(id, Finishing(Some(Fault))))
      else None
    case CommitUnheard(id) =>
      if id in s.insts && s.insts[id].pc.RowInserted? && s.insts[id].pc.k < |s.insts[id].files| then
        Some(Commit(s, id, s.insts[id].files[s.insts[id].pc.k]).At(id, Finishing(Some(Fault))))
      else None
    case UnlockFails(id) =>
      if id in s.insts && s.insts[id].pc.Finishing? then Some(s.At(id, Returned(s.insts[id].pc.result))) else None
    case Crash(id) =>
      if id in s.insts then Some(s.At(id, Crashed).(lock := if s.lock == Some(id) then None else s.lock)) else None
  }

  // ----- What every step keeps -----

  ghost predicate Distinct(vs: seq<Version>) {
    forall i, j :: 0 <= i < j < |vs| ==> vs[i] != vs[j]
  }

  ghost predicate Recorded(vs: seq<Version>, applied: seq<Version>) {
    forall v :: v in vs ==> v in applied
  }

  ghost predicate InstanceInv(s: State, id: Id)
    requires id in s.insts
  {
    var i := s.insts[id];
    && (i.pc.Inside() ==> s.lock == Some(id))
    && match i.pc
       case Checking(k) => k <= |i.files| && Recorded(i.files[..k], s.applied)
       case Reading(k) => k < |i.files| && Recorded(i.files[..k], s.applied) && i.files[k] !in s.applied
       case InTx(k) => k < |i.files| && Recorded(i.files[..k], s.applied) && i.files[k] !in s.applied
       case BodyRun(k) => k < |i.files| && Recorded(i.files[..k], s.applied) && i.files[k] !in s.applied
       case RowInserted(k) => k < |i.files| && Recorded(i.files[..k], s.applied) && i.files[k] !in s.applied
       case Finishing(None) => Recorded(i.files, s.applied)
       case Finishing(Some(why)) => why == Fault
       case Returned(None) => Recorded(i.files, s.applied)
       case Returned(Some(why)) => why == Fault
       case _ => true
  }

  // Recording a version and applying its body are one and the same event, which happens once.
  ghost predicate Inv(s: State) {
    && s.effects == s.applied && Distinct(s.applied)
    && (s.lock.Some? ==> s.lock.value in s.insts)
    && forall id :: id in s.insts ==> InstanceInv(s, id)
  }

  lemma StepKeepsInv(s: State, a: Action)
    requires Inv(s) && Step(s, a).Some?
    ensures Inv(Step(s, a).value) && s.applied <= Step(s, a).value.applied
  {
    var s' := Step(s, a).value;
    var me := Actor(a);
    OthersOutside(s, a, me);
    StepKeepsLog(s, a, me);
    StepKeepsMine(s, a, me);
    forall id | id in s'.insts
      ensures InstanceInv(s', id)
    {
      if id != me {
        assert s'.insts[id] == s.insts[id] && InstanceInv(s, id);
      }
    }
  }

  ghost function Actor(a: Action): Id {
    match a case Boot(id, _) => id case Next(id) => id case Fails(id) => id
    case CommitUnheard(id) => id case UnlockFails(id) => id case Crash(id) => id
  }

  // A step touches only its own instance, and takes the lock from nobody.
  lemma OthersOutside(s: State, a: Action, me: Id)
    requires Inv(s) && Step(s, a).Some? && me == Actor(a)
    ensures var s' := Step(s, a).value;
      && (forall id :: id in s'.insts ==> id == me || id in s.insts)
      && (forall id :: id in s.insts && id != me ==> id in s'.insts && s'.insts[id] == s.insts[id])
      && (s'.lock == s.lock || (s.lock.None? && s'.lock == Some(me)) || (s.lock == Some(me) && s'.lock.None?))
      && me in s'.insts
  {
    if a.Next? && me in s.insts {
      assert InstanceInv(s, me);
    }
  }

  lemma StepKeepsLog(s: State, a: Action, me: Id)
    requires Inv(s) && Step(s, a).Some? && me == Actor(a)
    ensures var s' := Step(s, a).value; s'.effects == s'.applied && Distinct(s'.applied) && s.applied <= s'.applied
  {
    if me in s.insts {
      assert InstanceInv(s, me);
    }
  }

  lemma StepKeepsMine(s: State, a: Action, me: Id)
    requires Inv(s) && Step(s, a).Some? && me == Actor(a) && me in Step(s, a).value.insts
    ensures InstanceInv(Step(s, a).value, me)
  {
    if me in s.insts {
      var i := s.insts[me];
      assert InstanceInv(s, me);
      if (i.pc.Checking? || i.pc.RowInserted?) && i.pc.k < |i.files| {
        assert i.files[..i.pc.k + 1] == i.files[..i.pc.k] + [i.files[i.pc.k]];
      }
      if i.pc.Checking? {
        assert i.files[..|i.files|] == i.files;
      }
    }
  }

  // ----- Over every run -----

  // Any consistent history, before any instance boots.
  ghost predicate Fresh(s: State) {
    s.effects == s.applied && Distinct(s.applied) && s.lock.None? && s.insts == map[]
  }

  ghost predicate Run(tr: seq<State>, acts: seq<Action>) {
    |tr| == |acts| + 1 && Fresh(tr[0]) &&
    forall k :: 0 <= k < |acts| ==> Step(tr[k], acts[k]) == Some(tr[k + 1])
  }

  lemma {:induction false} RunInv(tr: seq<State>, acts: seq<Action>, k: nat)
    requires Run(tr, acts) && k < |tr|
    ensures Inv(tr[k])
    decreases k
  {
    if k > 0 {
      RunInv(tr, acts, k - 1);
      assert Step(tr[k - 1], acts[k - 1]) == Some(tr[k - 1 + 1]);
      StepKeepsInv(tr[k - 1], acts[k - 1]);
    }
  }

  lemma {:induction false} AppliedGrows(tr: seq<State>, acts: seq<Action>, a: nat, b: nat)
    requires Run(tr, acts) && a <= b < |tr|
    ensures tr[a].applied <= tr[b].applied
    decreases b - a
  {
    if a < b {
      RunInv(tr, acts, a);
      assert Step(tr[a], acts[a]) == Some(tr[a + 1]);
      StepKeepsInv(tr[a], acts[a]);
      AppliedGrows(tr, acts, a + 1, b);
    }
  }

  function Count(vs: seq<Version>, v: Version): nat {
    if vs == [] then 0 else (if vs[0] == v then 1 else 0) + Count(vs[1..], v)
  }

  lemma {:induction false} DistinctCount(vs: seq<Version>, v: Version)
    requires Distinct(vs)
    ensures Count(vs, v) == if v in vs then 1 else 0
    decreases |vs|
  {
    if vs != [] {
      DistinctCount(vs[1..], v);
      assert vs == [vs[0]] + vs[1..];
    }
  }

  /** However the instances interleave and wherever they crash, the effect of every migration body is
      committed exactly once if its version is recorded, and not at all otherwise. */
  lemma EachBodyExactlyOnce(tr: seq<State>, acts: seq<Action>, k: nat, v: Version)
    requires Run(tr, acts) && k < |tr|
    ensures Count(tr[k].effects, v) == if v in tr[k].applied then 1 else 0
  {
    RunInv(tr, acts, k);
    DistinctCount(tr[k].effects, v);
  }

  /** An instance whose Migrate returned nil has every one of its files applied, then and ever after. */
  lemma NilMeansAllApplied(tr: seq<State>, acts: seq<Action>, k: nat, later: nat, id: Id)
    requires Run(tr, acts) && k <= later < |tr| && id in tr[k].insts && tr[k].insts[id].pc == Returned(None)
    ensures Recorded(tr[k].insts[id].files, tr[later].effects)
  {
    RunInv(tr, acts, k);
    RunInv(tr, acts, later);
    AppliedGrows(tr, acts, k, later);
    assert InstanceInv(tr[k], id);
  }

  /** A file whose COMMIT went through stands, heard or not. */
  lemma UnheardCommitStands(tr: seq<State>, acts: seq<Action>, k: nat, later: nat, id: Id)
    requires Run(tr, acts) && k < later < |tr| && acts[k] == CommitUnheard(id)
    ensures id in tr[k].insts && tr[k].insts[id].pc.RowInserted? && tr[k].insts[id].pc.k < |tr[k].insts[id].files|
    ensures tr[k].insts[id].files[tr[k].insts[id].pc.k] in tr[later].effects
  {
    assert Step(tr[k], acts[k]) == Some(tr[k + 1]);
    var v := tr[k].insts[id].files[tr[k].insts[id].pc.k];
    assert tr[k + 1].applied[|tr[k].applied|] == v;
    AppliedGrows(tr, acts, k + 1, later);
    RunInv(tr, acts, later);
  }

  // The instance returns an error, or is about to, or is gone.
  ghost predicate Spoilt(pc: Pc) {
    pc.Crashed? || ((pc.Finishing? || pc.Returned?) && pc.result.Some?)
  }

  ghost predicate OwnFault(a: Action, id: Id) {
    a == Fails(id) || a == CommitUnheard(id)
  }

  lemma StepSpoils(s: State, a: Action, id: Id)
    requires Inv(s) && Step(s, a).Some? && id in Step(s, a).value.insts
    ensures var pc' := Step(s, a).value.insts[id].pc;
      && (OwnFault(a, id) ==> Spoilt(pc'))
      && (id in s.insts && Spoilt(s.insts[id].pc) ==> Spoilt(pc'))
      && (Spoilt(pc') && !pc'.Crashed? && !OwnFault(a, id) ==>
            id in s.insts && Spoilt(s.insts[id].pc) && !s.insts[id].pc.Crashed?)
  {
    if id in s.insts {
      assert InstanceInv(s, id);
    }
  }

  lemma {:induction false} ErrorsHaveACause(tr: seq<State>, acts: seq<Action>, k: nat, id: Id)
    requires Run(tr, acts) && k < |tr| && id in tr[k].insts && !tr[k].insts[id].pc.Crashed?
    ensures Spoilt(tr[k].insts[id].pc) <==> exists j :: 0 <= j < k && OwnFault(acts[j], id)
    decreases k
  {
    if k > 0 {
      var m := k - 1;
      RunInv(tr, acts, m);
      assert Step(tr[m], acts[m]) == Some(tr[m + 1]) && k == m + 1;
      StepSpoils(tr[m], acts[m], id);
      if id in tr[m].insts && !tr[m].insts[id].pc.Crashed? {
        ErrorsHaveACause(tr, acts, m, id);
      } else {
        NotYetBooted(tr, acts, m, id);
      }
    }
  }

  lemma {:induction false} NotYetBooted(tr: seq<State>, acts: seq<Action>, k: nat, id: Id)
    requires Run(tr, acts) && k < |tr| && id !in tr[k].insts
    ensures forall j :: 0 <= j < k ==> !OwnFault(acts[j], id)
    decreases k
  {
    if k > 0 {
      var m := k - 1;
      assert Step(tr[m], acts[m]) == Some(tr[m + 1]) && k == m + 1;
      NotYetBooted(tr, acts, m, id);
    }
  }

  /** No instance fails because of another: what an instance returns is an error exactly when one of its own
      statements failed or the answer to its COMMIT was lost, and then it is that fault, never a version already
      recorded or a body already applied. */
  lemma NobodyFailsBecauseOfAnother(tr: seq<State>, acts: seq<Action>, k: nat, id: Id)
    requires Run(tr, acts) && k < |tr| && id in tr[k].insts && tr[k].insts[id].pc.Returned?
    ensures tr[k].insts[id].pc.result
         == if exists j :: 0 <= j < k && OwnFault(acts[j], id) then Some(Fault) else None
  {
    RunInv(tr, acts, k);
    assert InstanceInv(tr[k], id);
    ErrorsHaveACause(tr, acts, k, id);
  }

  // Every instance ships a prefix of the same sorted list of migrations: the releases of one deploy.
  ghost predicate ShipsPrefixes(s: State, master: seq<Version>) {
    forall id :: id in s.insts ==> s.insts[id].files <= master
  }

  /** When every instance ships a prefix of one list of distinct migrations, the applied migrations are
      at every point a prefix of that list. */
  lemma {:induction false} AppliedIsPrefix(tr: seq<State>, acts: seq<Action>, k: nat, master: seq<Version>)
    requires Run(tr, acts) && k < |tr| && Distinct(master) && tr[0].applied <= master
    requires forall j :: 0 <= j <= k ==> ShipsPrefixes(tr[j], master)
    ensures tr[k].applied <= master
    decreases k
  {
    if k > 0 {
      AppliedIsPrefix(tr, acts, k - 1, master);
      RunInv(tr, acts, k - 1);
      assert Step(tr[k - 1], acts[k - 1]) == Some(tr[k - 1 + 1]);
      assert ShipsPrefixes(tr[k - 1], master);
      StepKeepsPrefix(tr[k - 1], acts[k - 1], master);
    }
  }

  lemma StepKeepsPrefix(s: State, a: Action, master: seq<Version>)
    requires Inv(s) && Step(s, a).Some? && Distinct(master) && s.applied <= master && ShipsPrefixes(s, master)
    ensures Step(s, a).value.applied <= master
  {
    var me := Actor(a);
    if me in s.insts && s.insts[me].pc.RowInserted? {
      var i := s.insts[me];
      assert InstanceInv(s, me);
      NextInOrder(i.files, s.applied, master, i.pc.k);
    }
  }

  // The first missing file of a prefix of `master` is the one right after what is applied.
  lemma NextInOrder(files: seq<Version>, applied: seq<Version>, master: seq<Version>, k: nat)
    requires Distinct(master) && files <= master && applied <= master && k < |files|
    requires Recorded(files[..k], applied) && files[k] !in applied
    ensures |applied| == k && applied + [files[k]] <= master
  {
    assert files[k] == master[k];
    assert forall j :: 0 <= j < |applied| ==> applied[j] == master[j];
    if k > 0 {
      assert files[..k][k - 1] == master[k - 1] && files[..k][k - 1] in files[..k];
      IndexInPrefix(master, applied, k - 1);
    }
  }

  lemma IndexInPrefix(master: seq<Version>, applied: seq<Version>, j: nat)
    requires Distinct(master) && applied <= master && j < |master| && master[j] in applied
    ensures j < |applied|
  {}

  // ----- Whoever waits gets its turn -----

  // How far an instance has come: its statements so far, at least.
  function Rank(i: Instance): nat {
    match i.pc
    case Waiting => 0
    case Holding => 1
    case Checking(k) => 2 + 5 * k
    case Reading(k) => 3 + 5 * k
    case InTx(k) => 4 + 5 * k
    case BodyRun(k) => 5 + 5 * k
    case RowInserted(k) => 6 + 5 * k
    case Finishing(_) => 3 + 5 * |i.files|
    case _ => 4 + 5 * |i.files|
  }

  function Statements(acts: seq<Action>, id: Id): nat {
    if acts == [] then 0 else Statements(acts[..|acts| - 1], id) + if acts[|acts| - 1] == Next(id) then 1 else 0
  }

  lemma StepRaisesRank(s: State, a: Action, id: Id)
    requires Inv(s) && Step(s, a).Some? && id in s.insts
    ensures id in Step(s, a).value.insts
    ensures Rank(Step(s, a).value.insts[id]) >= Rank(s.insts[id]) + if a == Next(id) then 1 else 0
  {
    assert InstanceInv(s, id);
  }

  lemma {:induction false} StatementsBounded(tr: seq<State>, acts: seq<Action>, k: nat, id: Id)
    requires Run(tr, acts) && k < |tr|
    ensures if id in tr[k].insts then Statements(acts[..k], id) <= Rank(tr[k].insts[id]) else Statements(acts[..k], id) == 0
    decreases k
  {
    if k > 0 {
      var m := k - 1;
      RunInv(tr, acts, m);
      assert Step(tr[m], acts[m]) == Some(tr[m + 1]) && k == m + 1;
      StatementsBounded(tr, acts, m, id);
      assert acts[..k][..m] == acts[..m] && acts[..k][m] == acts[m];
      if id in tr[m].insts {
        StepRaisesRank(tr[m], acts[m], id);
      }
    } else {
      assert acts[..0] == [];
    }
  }

  // Nobody can go on.
  ghost predicate AtRest(s: State) {
    forall id :: id in s.insts ==> Step(s, Next(id)).None?
  }

  // Only the holder of the lock can be in the way of anybody, and it can always go on.
  lemma OneCanGoOn(s: State, id: Id)
    requires Inv(s) && id in s.insts && !(s.insts[id].pc.Returned? || s.insts[id].pc.Crashed?)
    ensures Step(s, Next(id)).Some? || (s.insts[id].pc.Waiting? && s.lock.Some?)
  {
    assert InstanceInv(s, id);
  }

  // The lock is held by an instance that is not done yet.
  ghost predicate LockIsInUse(s: State) {
    s.lock.Some? ==> s.lock.value in s.insts && s.insts[s.lock.value].pc.Inside()
  }

  lemma StepKeepsLockInUse(s: State, a: Action)
    requires Inv(s) && LockIsInUse(s) && Step(s, a).Some? && !a.UnlockFails?
    ensures LockIsInUse(Step(s, a).value)
  {
    StepKeepsInv(s, a);
    if Actor(a) in s.insts {
      assert InstanceInv(s, Actor(a));
    }
  }

  lemma {:induction false} LockStaysInUse(tr: seq<State>, acts: seq<Action>, k: nat)
    requires Run(tr, acts) && k < |tr| && forall j :: 0 <= j < k ==> !acts[j].UnlockFails?
    ensures LockIsInUse(tr[k])
    decreases k
  {
    if k > 0 {
      var m := k - 1;
      RunInv(tr, acts, m);
      assert Step(tr[m], acts[m]) == Some(tr[m + 1]) && k == m + 1;
      LockStaysInUse(tr, acts, m);
      StepKeepsLockInUse(tr[m], acts[m]);
    }
  }

  /** Nobody waits for ever: an instance executes at most 4 + 5 * |files| statements, and when no one can go on,
      then unless an unlock failed, every instance has returned or crashed. */
  lemma EveryoneReturns(tr: seq<State>, acts: seq<Action>, k: nat, id: Id)
    requires Run(tr, acts) && k < |tr| && id in tr[k].insts
    ensures Statements(acts[..k], id) <= 4 + 5 * |tr[k].insts[id].files|
    ensures AtRest(tr[k]) && (forall j :: 0 <= j < k ==> !acts[j].UnlockFails?) ==>
      tr[k].insts[id].pc.Returned? || tr[k].insts[id].pc.Crashed?
  {
    var s := tr[k];
    RunInv(tr, acts, k);
    assert InstanceInv(s, id);
    StatementsBounded(tr, acts, k, id);
    if AtRest(s) && (forall j :: 0 <= j < k ==> !acts[j].UnlockFails?) {
      LockStaysInUse(tr, acts, k);
      if !(s.insts[id].pc.Returned? || s.insts[id].pc.Crashed?) {
        OneCanGoOn(s, id);
        OneCanGoOn(s, s.lock.value);
      }
    }
  }

  // ----- One instance on its own -----

  function Missing(files: seq<Version>, applied: seq<Version>): seq<Version> {
    if files == [] then []
    else if files[0] in applied then Missing(files[1..], applied)
    else [files[0]] + Missing(files[1..], applied + [files[0]])
  }

  // The next n statements are all of one instance.
  function Alone(s: State, id: Id, n: nat): Option<State>
    decreases n
  {
    if n == 0 then Some(s)
    else if Step(s, Next(id)).None? then None
    else Alone(Step(s, Next(id)).value, id, n - 1)
  }

  lemma {:induction false} AloneThen(s: State, id: Id, n: nat, s': State, m: nat)
    requires Alone(s, id, n) == Some(s')
    ensures Alone(s, id, n + m) == Alone(s', id, m)
    decreases n
  {
    if n > 0 {
      AloneThen(Step(s, Next(id)).value, id, n - 1, s', m);
    }
  }

  // The instance is at pc, and has added the bodies and rows of `more`.
  function Reached(s: State, id: Id, pc: Pc, more: seq<Version>, lock: Option<Id>): State
    requires id in s.insts
  {
    State(s.applied + more, s.effects + more, lock, s.insts[id := Instance(s.insts[id].files, pc)])
  }

  lemma OneStep(s: State, s': State, id: Id, n: nat)
    requires Step(s, Next(id)) == Some(s')
    ensures Alone(s, id, n + 1) == Alone(s', id, n)
  {}

  lemma MovesOn(s: State, id: Id, pc: Pc, more: seq<Version>, lock: Option<Id>, pc': Pc)
    requires id in s.insts
    ensures Reached(s, id, pc, more, lock).At(id, pc') == Reached(s, id, pc', more, lock)
  {
    var i := s.insts[id];
    assert s.insts[id := i.(pc := pc)][id := i.(pc := pc')] == s.insts[id := i.(pc := pc')];
  }

  // Each statement on the way, as a step.
  lemma Starts(s: State, id: Id)
    requires id in s.insts && s.insts[id].pc == Waiting && s.lock.None?
    ensures Step(s, Next(id)) == Some(Reached(s, id, Holding, [], Some(id)))
    ensures Step(Reached(s, id, Holding, [], Some(id)), Next(id)) == Some(Reached(s, id, Checking(0), [], Some(id)))
  {
    MovesOn(s, id, Holding, [], Some(id), Checking(0));
    assert s.applied + [] == s.applied && s.effects + [] == s.effects;
  }

  lemma Checks(s: State, id: Id, k: nat, more: seq<Version>)
    requires id in s.insts && k < |s.insts[id].files|
    ensures Step(Reached(s, id, Checking(k), more, Some(id)), Next(id))
         == Some(Reached(s, id, if s.insts[id].files[k] in s.applied + more then Checking(k + 1) else Reading(k), more, Some(id)))
  {
    MovesOn(s, id, Checking(k), more, Some(id), Checking(k + 1));
    MovesOn(s, id, Checking(k), more, Some(id), Reading(k));
  }

  lemma Reads(s: State, id: Id, k: nat, more: seq<Version>)
    requires id in s.insts
    ensures Step(Reached(s, id, Reading(k), more, Some(id)), Next(id)) == Some(Reached(s, id, InTx(k), more, Some(id)))
  {
    MovesOn(s, id, Reading(k), more, Some(id), InTx(k));
  }

  lemma RunsBody(s: State, id: Id, k: nat, more: seq<Version>)
    requires id in s.insts && k < |s.insts[id].files| && s.insts[id].files[k] !in s.effects + more
    ensures Step(Reached(s, id, InTx(k), more, Some(id)), Next(id)) == Some(Reached(s, id, BodyRun(k), more, Some(id)))
  {
    MovesOn(s, id, InTx(k), more, Some(id), BodyRun(k));
  }

  lemma InsertsRow(s: State, id: Id, k: nat, more: seq<Version>)
    requires id in s.insts && k < |s.insts[id].files| && s.insts[id].files[k] !in s.applied + more
    ensures Step(Reached(s, id, BodyRun(k), more, Some(id)), Next(id)) == Some(Reached(s, id, RowInserted(k), more, Some(id)))
  {
    MovesOn(s, id, BodyRun(k), more, Some(id), RowInserted(k));
  }

  lemma CommitsFile(s: State, id: Id, k: nat, more: seq<Version>)
    requires id in s.insts && k < |s.insts[id].files|
    ensures Step(Reached(s, id, RowInserted(k), more, Some(id)), Next(id))
         == Some(Reached(s, id, Checking(k + 1), more + [s.insts[id].files[k]], Some(id)))
  {
    var v := s.insts[id].files[k];
    MovesOn(s, id, RowInserted(k), more + [v], Some(id), Checking(k + 1));
    assert s.applied + more + [v] == s.applied + (more + [v]) && s.effects + more + [v] == s.effects + (more + [v]);
  }

  lemma Ends(s: State, id: Id, more: seq<Version>)
    requires id in s.insts
    ensures Step(Reached(s, id, Checking(|s.insts[id].files|), more, Some(id)), Next(id))
         == Some(Reached(s, id, Finishing(None), more, Some(id)))
  {
    MovesOn(s, id, Checking(|s.insts[id].files|), more, Some(id), Finishing(None));
  }

  lemma Returns(s: State, id: Id, more: seq<Version>, result: Option<Reason>)
    requires id in s.insts
    ensures Step(Reached(s, id, Finishing(result), more, Some(id)), Next(id)) == Some(Reached(s, id, Returned(result), more, None))
  {
    MovesOn(s, id, Finishing(result), more, Some(id), Returned(result));
  }

  lemma BodyFails(s: State, id: Id, k: nat, more: seq<Version>)
    requires id in s.insts
    ensures Step(Reached(s, id, InTx(k), more, Some(id)), Fails(id)) == Some(Reached(s, id, Finishing(Some(Fault)), more, Some(id)))
  {
    MovesOn(s, id, InTx(k), more, Some(id), Finishing(Some(Fault)));
  }

  lemma OpensTx(s: State, s': State, id: Id, k: nat, more: seq<Version>)
    requires id in s.insts && k < |s.insts[id].files| && s.insts[id].files[k] !in s.applied + more
    requires s' == Reached(s, id, Checking(k), more, Some(id))
    ensures Alone(s', id, 2) == Some(Reached(s, id, InTx(k), more, Some(id)))
  {
    var s1 := Reached(s, id, Reading(k), more, Some(id));
    Checks(s, id, k, more);
    Reads(s, id, k, more);
    OneStep(s', s1, id, 1);
    OneStep(s1, Reached(s, id, InTx(k), more, Some(id)), id, 0);
  }

  lemma FinishesTx(s: State, s': State, id: Id, k: nat, more: seq<Version>)
    requires id in s.insts && s.effects == s.applied && k < |s.insts[id].files| && s.insts[id].files[k] !in s.applied + more
    requires s' == Reached(s, id, InTx(k), more, Some(id))
    ensures Alone(s', id, 3) == Some(Reached(s, id, Checking(k + 1), more + [s.insts[id].files[k]], Some(id)))
  {
    var s1, s2 := Reached(s, id, BodyRun(k), more, Some(id)), Reached(s, id, RowInserted(k), more, Some(id));
    RunsBody(s, id, k, more);
    InsertsRow(s, id, k, more);
    CommitsFile(s, id, k, more);
    OneStep(s', s1, id, 2);
    OneStep(s1, s2, id, 1);
    OneStep(s2, Reached(s, id, Checking(k + 1), more + [s.insts[id].files[k]], Some(id)), id, 0);
  }

  lemma PassesFile(s: State, s': State, id: Id, k: nat, more: seq<Version>)
    requires id in s.insts && s.effects == s.applied && k < |s.insts[id].files|
    requires s' == Reached(s, id, Checking(k), more, Some(id))
    ensures var v := s.insts[id].files[k];
      if v in s.applied + more then Alone(s', id, 1) == Some(Reached(s, id, Checking(k + 1), more, Some(id)))
      else Alone(s', id, 5) == Some(Reached(s, id, Checking(k + 1), more + [v], Some(id)))
  {
    if s.insts[id].files[k] in s.applied + more {
      Checks(s, id, k, more);
      OneStep(s', Reached(s, id, Checking(k + 1), more, Some(id)), id, 0);
    } else {
      var s2 := Reached(s, id, InTx(k), more, Some(id));
      OpensTx(s, s', id, k, more);
      AloneThen(s', id, 2, s2, 3);
      FinishesTx(s, s2, id, k, more);
    }
  }

  lemma {:induction false} PassesFiles(s: State, id: Id, k: nat)
    requires id in s.insts && s.insts[id].pc == Waiting && s.lock.None? && s.effects == s.applied && k <= |s.insts[id].files|
    ensures var more := Missing(s.insts[id].files[..k], s.applied);
      Alone(s, id, 2 + k + 4 * |more|) == Some(Reached(s, id, Checking(k), more, Some(id)))
    decreases k
  {
    var files := s.insts[id].files;
    if k == 0 {
      assert files[..0] == [];
      Starts(s, id);
      var s1, s2 := Reached(s, id, Holding, [], Some(id)), Reached(s, id, Checking(0), [], Some(id));
      OneStep(s, s1, id, 1);
      OneStep(s1, s2, id, 0);
    } else {
      var m := k - 1;
      var more, more' := Missing(files[..m], s.applied), Missing(files[..k], s.applied);
      var s' := Reached(s, id, Checking(m), more, Some(id));
      PassesFiles(s, id, m);
      PassesFile(s, s', id, m, more);
      assert files[..k] == files[..m] + [files[m]] && k == m + 1;
      MissingAppend(files[..m], files[m], s.applied);
      AloneThen(s, id, 2 + m + 4 * |more|, s', if files[m] in s'.applied then 1 else 5);
      assert more + [] == more;
    }
  }

  /** An instance that finds the lock free and is left alone returns nil: it applies and records exactly the files that
      were missing, in order, with no other file touched, and gives the lock back. */
  lemma AloneItMigrates(s: State, id: Id)
    requires id in s.insts && s.insts[id].pc == Waiting && s.lock.None? && s.effects == s.applied
    ensures var files := s.insts[id].files; var more := Missing(files, s.applied);
      Alone(s, id, 4 + |files| + 4 * |more|) == Some(Reached(s, id, Returned(None), more, None))
  {
    var files := s.insts[id].files;
    var n, more := |files|, Missing(files, s.applied);
    assert files[..n] == files;
    PassesFiles(s, id, n);
    var s1, s2 := Reached(s, id, Checking(n), more, Some(id)), Reached(s, id, Finishing(None), more, Some(id));
    AloneThen(s, id, 2 + n + 4 * |more|, s1, 2);
    Ends(s, id, more);
    Returns(s, id, more, None);
    OneStep(s1, s2, id, 1);
    OneStep(s2, Reached(s, id, Returned(None), more, None), id, 0);
  }

  /** If instead the body of its missing file k fails, the files before k stay applied, nothing of k is, the error is
      returned and the lock given back. */
  lemma AloneItStopsAtBrokenBody(s: State, id: Id, k: nat) returns (before: State)
    requires id in s.insts && s.insts[id].pc == Waiting && s.lock.None? && s.effects == s.applied && k < |s.insts[id].files|
    requires s.insts[id].files[k] !in s.applied + Missing(s.insts[id].files[..k], s.applied)
    ensures Alone(s, id, 4 + k + 4 * |Missing(s.insts[id].files[..k], s.applied)|) == Some(before)
    ensures id in before.insts && before.insts[id].pc == InTx(k) && Step(before, Fails(id)).Some?
    ensures var more := Missing(s.insts[id].files[..k], s.applied);
      Alone(Step(before, Fails(id)).value, id, 1) == Some(Reached(s, id, Returned(Some(Fault)), more, None))
  {
    var more := Missing(s.insts[id].files[..k], s.applied);
    var s1 := Reached(s, id, Checking(k), more, Some(id));
    PassesFiles(s, id, k);
    OpensTx(s, s1, id, k, more);
    AloneThen(s, id, 2 + k + 4 * |more|, s1, 2);
    before := Reached(s, id, InTx(k), more, Some(id));
    var s2 := Reached(s, id, Finishing(Some(Fault)), more, Some(id));
    BodyFails(s, id, k, more);
    Returns(s, id, more, Some(Fault));
    OneStep(s2, Reached(s, id, Returned(Some(Fault)), more, None), id, 0);
  }

  lemma {:induction false} MissingAppend(files: seq<Version>, v: Version, applied: seq<Version>)
    ensures Missing(files + [v], applied)
         == Missing(files, applied) + (if v in applied + Missing(files, applied) then [] else [v])
    decreases |files|
  {
    if files == [] {
      assert files + [v] == [v] && [v][1..] == [];
      assert applied + [] == applied;
    } else {
      assert (files + [v])[0] == files[0] && (files + [v])[1..] == files[1..] + [v];
      if files[0] in applied {
        MissingAppend(files[1..], v, applied);
      } else {
        MissingAppend(files[1..], v, applied + [files[0]]);
        assert applied + [files[0]] + Missing(files[1..], applied + [files[0]])
            == applied + ([files[0]] + Missing(files[1..], applied + [files[0]]));
      }
    }
  }

  class Database {
    var applied: seq<Version>
    var effects: seq<Version>

    ghost predicate Valid()
      reads this
    {
      effects == applied && Distinct(applied)
    }

    constructor ()
      ensures Valid() && applied == []
    {
      applied, effects := [], [];
    }

    /** The loop of one instance that holds the lock. `breaks` is the index of a file whose body fails. */
    method Migrate(files: seq<Version>, breaks: Option<nat>) returns (ok: bool)
      requires Valid()
      modifies this
      ensures Valid()
      ensures !ok <==> breaks.Some? && breaks.value < |files|
                       && files[breaks.value] !in old(applied) + Missing(files[..breaks.value], old(applied))
      ensures ok ==> applied == old(applied) + Missing(files, old(applied)) && Recorded(files, applied)
      ensures !ok ==> applied == old(applied) + Missing(files[..breaks.value], old(applied))
    {
      for k := 0 to |files|
        invariant Valid()
        invariant applied == old(applied) + Missing(files[..k], old(applied))
        invariant Recorded(files[..k], applied)
        invariant breaks.Some? && breaks.value < k ==>
          files[breaks.value] in old(applied) + Missing(files[..breaks.value], old(applied))
      {
        MissingAppend(files[..k], files[k], old(applied));
        assert files[..k + 1] == files[..k] + [files[k]];
        if files[k] !in applied {
          if breaks == Some(k) {
            return false;
          }
          effects := effects + [files[k]];
          applied := applied + [files[k]];
        }
      }
      assert files[..|files|] == files;
      ok := true;
    }
  }
}
