/** What holds over every run of the sandbox registry, whatever calls are in flight and however their
    statements interleave. */
module SlotRuns {
  import opened Options
  import opened SlotProtocol

  // Any registry in which no email owns two slots, before the first call.
  ghost predicate Fresh(s: State) {
    s.locks == map[] && s.procs == map[] && OneSlotEach(s)
  }

  ghost predicate Run(tr: seq<State>, acts: seq<Action>) {
    |tr| == |acts| + 1 && Fresh(tr[0]) &&
    forall k :: 0 <= k < |acts| ==> Step(tr[k], acts[k]) == Some(tr[k + 1])
  }

  lemma {:induction false} RunInv(tr: seq<State>, acts: seq<Action>, k: nat)
    requires Run(tr, acts) && k < |tr|
    ensures Inv(tr[k])
    decreases k
  {
    if k > 0 {
      RunInv(tr, acts, k - 1);
      assert Step(tr[k - 1], acts[k - 1]) == Some(tr[k - 1 + 1]);
      StepKeepsInv(tr[k - 1], acts[k - 1]);
    }
  }

  /** No email ever owns two slots, at any point of any interleaving. */
  lemma NoEmailOwnsTwoSlots(tr: seq<State>, acts: seq<Action>, k: nat, email: Email, i: nat, j: nat)
    requires Run(tr, acts) && k < |tr| && tr[k].Owns(email, i) && tr[k].Owns(email, j)
    ensures i == j
  {
    RunInv(tr, acts, k);
  }

  // ----- How an owner loses a slot -----

  // Release of `owner` clears the owner of slot i.
  ghost predicate ReleaseFrees(s: State, a: Action, i: nat, owner: Email) {
    a.Advance? && a.p in s.procs && s.procs[a.p] == ReleaseUpdate(owner, Some(i)) && s.Owns(owner, i)
  }

  // The COMMIT of a reclaim gives the idle slot i to its caller.
  ghost predicate ReclaimTakes(s: State, a: Action, i: nat) {
    && a.Advance? && a.p in s.procs && s.procs[a.p].Written?
    && var pr := s.procs[a.p];
       pr.slot == i && pr.pick.Reclaim? && i < |s.rows| && s.rows[i].Idle(pr.began, s.limit) && pr.began <= s.now
  }

  lemma OwnerChanges(s: State, a: Action, i: nat)
    requires Inv(s) && Step(s, a).Some? && i < |s.rows|
    ensures |Step(s, a).value.rows| == |s.rows| && Step(s, a).value.limit == s.limit
    ensures Step(s, a).value.rows[i].owner != s.rows[i].owner ==>
      && a.Advance? && a.p in s.procs
      && ((s.procs[a.p].Written? && s.procs[a.p].slot == i
           && Step(s, a).value.rows[i].owner == Some(s.procs[a.p].email)) ||
          (s.procs[a.p].ReleaseUpdate? && s.procs[a.p].target == Some(i)
           && s.Owns(s.procs[a.p].email, i) && Step(s, a).value.rows[i].owner == None))
  {
    if a.Advance? {
      ClaimOwnerChanges(s, a.p, i);
      ReleaseOwnerChanges(s, a.p, i);
      LoginOwnerChanges(s, a.p);
    }
  }

  lemma ClaimOwnerChanges(s: State, p: Pid, i: nat)
    requires p in s.procs && i < |s.rows|
    ensures ClaimStep(s, p).Some? ==>
      var s' := ClaimStep(s, p).value;
      && |s'.rows| == |s.rows| && s'.limit == s.limit
      && (s'.rows[i].owner != s.rows[i].owner ==>
            s.procs[p].Written? && s.procs[p].slot == i && s'.rows[i].owner == Some(s.procs[p].email))
  {}

  lemma ReleaseOwnerChanges(s: State, p: Pid, i: nat)
    requires p in s.procs && i < |s.rows|
    ensures ReleaseStep(s, p).Some? ==>
      var s' := ReleaseStep(s, p).value;
      && |s'.rows| == |s.rows| && s'.limit == s.limit
      && (s'.rows[i].owner != s.rows[i].owner ==>
            s.procs[p].ReleaseUpdate? && s.procs[p].target == Some(i)
            && s.Owns(s.procs[p].email, i) && s'.rows[i].owner == None)
  {}

  lemma LoginOwnerChanges(s: State, p: Pid)
    requires p in s.procs
    ensures LoginStep(s, p).Some? ==> LoginStep(s, p).value.rows == s.rows && LoginStep(s, p).value.limit == s.limit
  {}

  /** An owner loses its slot only to its own Release, or to a reclaim of a slot idle past the limit. */
  lemma OwnerLosesSlotOnlyBy(s: State, a: Action, i: nat, owner: Email)
    requires Inv(s) && Step(s, a).Some? && s.Owns(owner, i) && !Step(s, a).value.Owns(owner, i)
    ensures (ReleaseFrees(s, a, i, owner) && Step(s, a).value.rows[i].owner == None)
         || (ReclaimTakes(s, a, i) && Step(s, a).value.rows[i].owner == Some(s.procs[a.p].email))
  {
    OwnerChanges(s, a, i);
    if s.procs[a.p].Written? {
      assert PickStands(s, s.procs[a.p]);
    }
  }

  // ----- Where a reclaim's view of the free slots came from -----

  function SeenBy(pr: Proc): Option<View> {
    if pr.ScanIdle? then Some(pr.seen)
    else if (pr.Picked? || pr.Written?) && pr.pick.Reclaim? then Some(pr.pick.seen)
    else None
  }

  ghost predicate ScannedAt(s: State, p: Pid, seen: View) {
    p in s.procs && s.procs[p].ScanFree? && seen == View(s.rows, s.locks.Keys)
  }

  lemma SeenStep(s: State, a: Action, p: Pid)
    requires Inv(s) && Step(s, a).Some? && p in Step(s, a).value.procs && SeenBy(Step(s, a).value.procs[p]).Some?
    ensures p in s.procs && (SeenBy(s.procs[p]) == SeenBy(Step(s, a).value.procs[p])
                             || ScannedAt(s, p, SeenBy(Step(s, a).value.procs[p]).value))
  {
    if a.Advance? {
      if a.p == p {
        OtherStepsAnswerNothing(s, p);
        ClaimSeenStep(s, p);
      } else {
        AdvanceTouchesOneCall(s, a.p, p);
      }
    }
  }

  lemma AdvanceTouchesOneCall(s: State, q: Pid, p: Pid)
    requires q in s.procs && q != p && AdvanceProc(s, q).Some?
    ensures p in AdvanceProc(s, q).value.procs <==> p in s.procs
    ensures p in s.procs ==> AdvanceProc(s, q).value.procs[p] == s.procs[p]
  {}

  // Release and login calls neither scan for a slot nor answer with one.
  lemma OtherStepsAnswerNothing(s: State, p: Pid)
    requires p in s.procs
    ensures ReleaseStep(s, p).Some? ==> SeenBy(ReleaseStep(s, p).value.procs[p]).None? && AnswerOf(ReleaseStep(s, p).value.procs[p]).None?
    ensures LoginStep(s, p).Some? ==> SeenBy(LoginStep(s, p).value.procs[p]).None? && AnswerOf(LoginStep(s, p).value.procs[p]).None?
  {}

  lemma ClaimSeenStep(s: State, p: Pid)
    requires p in s.procs && ClaimStep(s, p).Some? && SeenBy(ClaimStep(s, p).value.procs[p]).Some?
    ensures SeenBy(s.procs[p]) == SeenBy(ClaimStep(s, p).value.procs[p])
         || ScannedAt(s, p, SeenBy(ClaimStep(s, p).value.procs[p]).value)
  {}

  lemma {:induction false} SeenIsFromRun(tr: seq<State>, acts: seq<Action>, k: nat, p: Pid) returns (j: nat)
    requires Run(tr, acts) && k < |tr| && p in tr[k].procs && SeenBy(tr[k].procs[p]).Some?
    ensures j < k && ScannedAt(tr[j], p, SeenBy(tr[k].procs[p]).value)
    decreases k
  {
    RunInv(tr, acts, k - 1);
    assert Step(tr[k - 1], acts[k - 1]) == Some(tr[k - 1 + 1]);
    SeenStep(tr[k - 1], acts[k - 1], p);
    if SeenBy(tr[k - 1].procs[p]) == SeenBy(tr[k].procs[p]) {
      j := SeenIsFromRun(tr, acts, k - 1, p);
    } else {
      j := k - 1;
    }
  }

  /** Whoever is displaced by another email had been idle past the limit, and at an earlier point of the
      run every slot was owned or locked. */
  lemma DisplacedOnlyWhenIdleAndNothingFree(tr: seq<State>, acts: seq<Action>, k: nat, i: nat, owner: Email, heir: Email)
    returns (j: nat)
    requires Run(tr, acts) && k < |acts| && tr[k].Owns(owner, i) && tr[k + 1].Owns(heir, i) && owner != heir
    ensures tr[k].rows[i].Activity().Some? && tr[k].rows[i].Activity().value < tr[k].now - tr[k].limit
    ensures j < k && forall n :: 0 <= n < |tr[j].rows| ==> tr[j].Taken(n)
  {
    RunInv(tr, acts, k);
    OwnerLosesSlotOnlyBy(tr[k], acts[k], i, owner);
    var p := acts[k].p;
    j := SeenIsFromRun(tr, acts, k, p);
    var seen := tr[k].procs[p].pick.seen;
    assert PickStands(tr[k], tr[k].procs[p]) && seen.NothingFree();
    assert seen == View(tr[j].rows, tr[j].locks.Keys);
    forall n | 0 <= n < |tr[j].rows|
      ensures tr[j].Taken(n)
    {
      assert seen.rows[n].owner.Some? || n in seen.locked;
    }
  }

  // The owner of slot i has shown a sign of life at `seen` or later.
  ghost predicate ActiveSince(s: State, i: nat, owner: Email, seen: int) {
    s.Owns(owner, i) && s.rows[i].lastActive.Some? && seen <= s.rows[i].lastActive.value && seen <= s.now
  }

  lemma ActivityStep(s: State, a: Action, i: nat, owner: Email, seen: int)
    requires Inv(s) && Step(s, a).Some? && ActiveSince(s, i, owner, seen) && Step(s, a).value.Owns(owner, i)
    ensures ActiveSince(Step(s, a).value, i, owner, seen)
  {
    if a.Advance? && s.procs[a.p].Written? {
      assert PickStands(s, s.procs[a.p]);
    }
  }

  lemma RunActivityStep(tr: seq<State>, acts: seq<Action>, k: nat, i: nat, owner: Email, seen: int)
    requires Run(tr, acts) && k < |acts| && ActiveSince(tr[k], i, owner, seen) && tr[k + 1].Owns(owner, i)
    ensures ActiveSince(tr[k + 1], i, owner, seen)
  {
    RunInv(tr, acts, k);
    assert Step(tr[k], acts[k]) == Some(tr[k + 1]);
    ActivityStep(tr[k], acts[k], i, owner, seen);
  }

  lemma {:induction false} ActivityKept(tr: seq<State>, acts: seq<Action>, j: nat, k: nat, i: nat, owner: Email, seen: int)
    requires Run(tr, acts) && j <= k < |tr| && ActiveSince(tr[j], i, owner, seen)
    requires forall m :: j <= m <= k ==> tr[m].Owns(owner, i)
    ensures ActiveSince(tr[k], i, owner, seen)
    decreases k
  {
    if j < k {
      ActivityKept(tr, acts, j, k - 1, i, owner, seen);
      RunActivityStep(tr, acts, k - 1, i, owner, seen);
    }
  }

  /** An owner who logs in, or resets the slot, is displaced only after a full idle limit from then on. */
  lemma ActiveOwnerIsKept(tr: seq<State>, acts: seq<Action>, j: nat, k: nat, i: nat, owner: Email, heir: Email)
    requires Run(tr, acts) && j < k < |acts| && acts[j] == MarkActive(i)
    requires (forall m :: j <= m <= k ==> tr[m].Owns(owner, i)) && tr[k + 1].Owns(heir, i) && owner != heir
    ensures tr[k].now - tr[j].now > tr[k].limit
  {
    assert Step(tr[j], acts[j]) == Some(tr[j + 1]);
    ActivityKept(tr, acts, j + 1, k, i, owner, tr[j].now);
    var _ := DisplacedOnlyWhenIdleAndNothingFree(tr, acts, k, i, owner, heir);
  }

  // ----- Claims of one email -----

  lemma {:induction false} FirstLoss(tr: seq<State>, acts: seq<Action>, email: Email, i: nat, a: nat, b: nat) returns (k: nat)
    requires Run(tr, acts) && a <= b < |tr| && tr[a].Owns(email, i) && !tr[b].Owns(email, i)
    ensures a <= k < b && tr[k].Owns(email, i) && !tr[k + 1].Owns(email, i)
    decreases b - a
  {
    k := a;
    if tr[a + 1].Owns(email, i) {
      k := FirstLoss(tr, acts, email, i, a + 1, b);
    }
  }

  // What a Claim has decided to answer.
  function AnswerOf(pr: Proc): Option<(Email, nat)> {
    if pr.Touch? then Some((pr.email, pr.slot))
    else if pr.Entered? then Some((pr.email, pr.slot))
    else if pr.Signed? then Some((pr.email, pr.slot))
    else None
  }

  lemma AnswerStep(s: State, a: Action, p: Pid)
    requires Inv(s) && Step(s, a).Some? && p in Step(s, a).value.procs && AnswerOf(Step(s, a).value.procs[p]).Some?
    ensures var s' := Step(s, a).value; var (email, i) := AnswerOf(s'.procs[p]).value;
      s.Owns(email, i) || s'.Owns(email, i) || (p in s.procs && AnswerOf(s.procs[p]) == Some((email, i)))
  {
    if a.Advance? {
      if a.p == p {
        OtherStepsAnswerNothing(s, p);
        ClaimAnswerStep(s, p);
      } else {
        AdvanceTouchesOneCall(s, a.p, p);
      }
    }
  }

  lemma ClaimAnswerStep(s: State, p: Pid)
    requires Inv(s) && p in s.procs && ClaimStep(s, p).Some? && AnswerOf(ClaimStep(s, p).value.procs[p]).Some?
    ensures var s' := ClaimStep(s, p).value; var (email, i) := AnswerOf(s'.procs[p]).value;
      s.Owns(email, i) || s'.Owns(email, i) || AnswerOf(s.procs[p]) == Some((email, i))
  {
    if s.procs[p].Written? {
      assert PickStands(s, s.procs[p]);
    }
  }

  /** Every slot a Claim answers with was owned by its email at some point no later than the answer. */
  lemma {:induction false} AnswerWasOwned(tr: seq<State>, acts: seq<Action>, k: nat, p: Pid) returns (j: nat)
    requires Run(tr, acts) && k < |tr| && p in tr[k].procs && AnswerOf(tr[k].procs[p]).Some?
    ensures j <= k && tr[j].Owns(AnswerOf(tr[k].procs[p]).value.0, AnswerOf(tr[k].procs[p]).value.1)
    decreases k
  {
    RunInv(tr, acts, k - 1);
    assert Step(tr[k - 1], acts[k - 1]) == Some(tr[k - 1 + 1]);
    AnswerStep(tr[k - 1], acts[k - 1], p);
    var (email, i) := AnswerOf(tr[k].procs[p]).value;
    if tr[k - 1].Owns(email, i) {
      j := k - 1;
    } else if tr[k].Owns(email, i) {
      j := k;
    } else {
      j := AnswerWasOwned(tr, acts, k - 1, p);
    }
  }

  /** Two claims of one email answer with the same slot, unless some step in between took the slot of
      one of the answers from it: its Release, or a reclaim after the idle limit. */
  lemma ClaimsOfOneEmailAgree(tr: seq<State>, acts: seq<Action>, k: nat, p: Pid, k': nat, p': Pid)
    returns (m: nat, slot: nat)
    requires Run(tr, acts) && k < |tr| && k' < |tr| && p in tr[k].procs && p' in tr[k'].procs
    requires AnswerOf(tr[k].procs[p]).Some? && AnswerOf(tr[k'].procs[p']).Some?
    requires AnswerOf(tr[k].procs[p]).value.0 == AnswerOf(tr[k'].procs[p']).value.0
    ensures var (email, i) := AnswerOf(tr[k].procs[p]).value; var i' := AnswerOf(tr[k'].procs[p']).value.1;
      i == i' || (m < |acts| && (m < k || m < k') && slot in {i, i'} && tr[m].Owns(email, slot) && !tr[m + 1].Owns(email, slot)
                  && (ReleaseFrees(tr[m], acts[m], slot, email) || ReclaimTakes(tr[m], acts[m], slot)))
  {
    var (email, i) := AnswerOf(tr[k].procs[p]).value;
    var i' := AnswerOf(tr[k'].procs[p']).value.1;
    m, slot := 0, i;
    if i != i' {
      var j := AnswerWasOwned(tr, acts, k, p);
      var j' := AnswerWasOwned(tr, acts, k', p');
      RunInv(tr, acts, j);
      RunInv(tr, acts, j');
      if j <= j' {
        m := FirstLoss(tr, acts, email, i, j, j');
      } else {
        slot := i';
        m := FirstLoss(tr, acts, email, i', j', j);
      }
      RunInv(tr, acts, m);
      OwnerLosesSlotOnlyBy(tr[m], acts[m], slot, email);
    }
  }

  // ----- One free slot, one caller -----

  ghost predicate CommitsSlot(s: State, a: Action, i: nat) {
    a.Advance? && a.p in s.procs && s.procs[a.p].Written? && s.procs[a.p].slot == i
  }

  lemma {:induction false} FirstFreed(tr: seq<State>, acts: seq<Action>, i: nat, a: nat, b: nat) returns (k: nat)
    requires Run(tr, acts) && a <= b < |tr| && i < |tr[a].rows| && tr[a].rows[i].owner.Some?
    requires i < |tr[b].rows| && tr[b].rows[i].owner.None?
    ensures a <= k < b && i < |tr[k].rows| && tr[k].rows[i].owner.Some?
    ensures i < |tr[k + 1].rows| && tr[k + 1].rows[i].owner.None?
    decreases b - a
  {
    RunInv(tr, acts, a);
    assert Step(tr[a], acts[a]) == Some(tr[a + 1]);
    OwnerChanges(tr[a], acts[a], i);
    k := a;
    if tr[a + 1].rows[i].owner.Some? {
      k := FirstFreed(tr, acts, i, a + 1, b);
    }
  }

  /** Two callers are never given the same free slot: when a slot is handed out as free after an earlier
      hand-out, its owner at the time was released in between. */
  lemma FreeSlotGivenOnce(tr: seq<State>, acts: seq<Action>, i: nat, a: nat, b: nat) returns (k: nat)
    requires Run(tr, acts) && a < b < |acts| && CommitsSlot(tr[a], acts[a], i) && CommitsSlot(tr[b], acts[b], i)
    requires tr[b].procs[acts[b].p].pick.Free?
    ensures a < k < b && i < |tr[k].rows| && tr[k].rows[i].owner.Some?
    ensures ReleaseFrees(tr[k], acts[k], i, tr[k].rows[i].owner.value)
  {
    RunInv(tr, acts, a);
    RunInv(tr, acts, b);
    assert PickStands(tr[a], tr[a].procs[acts[a].p]) && PickStands(tr[b], tr[b].procs[acts[b].p]);
    assert Step(tr[a], acts[a]) == Some(tr[a + 1]);
    k := FirstFreed(tr, acts, i, a + 1, b);
    RunInv(tr, acts, k);
    OwnerChanges(tr[k], acts[k], i);
  }

  // ----- ErrFull -----

  /** A slot stops being owned or locked only when its owner is released, or when the transaction that had
      picked it as a free slot rolls back. */
  lemma SlotFreedOnlyBy(s: State, a: Action, i: nat)
    requires Inv(s) && Step(s, a).Some? && s.Taken(i) && !Step(s, a).value.Taken(i)
    ensures (s.rows[i].owner.Some? && ReleaseFrees(s, a, i, s.rows[i].owner.value))
         || (i in s.locks && s.rows[i].owner.None? && RollsBack(s, Step(s, a).value, s.locks[i]))
  {
    var s' := Step(s, a).value;
    OwnerChanges(s, a, i);
    if s.rows[i].owner.None? {
      LockReleasedBy(s, a, i);
    }
  }

  // Of the five kinds of step only a rollback frees a lock and leaves its slot without an owner.
  lemma OnlyRollbackUnlocks(s: State, s': State, p: Pid, i: nat)
    requires LocksMatch(s) && OfSomeKind(s, s', p) && i < |s.rows| <= |s'.rows|
    requires i in s.locks && i !in s'.locks && s'.rows[i].owner.None?
    ensures RollsBack(s, s', s.locks[i])
  {
    if RollsBack(s, s', p) {
      assert i == s.procs[p].slot;
    }
  }

  lemma LockReleasedBy(s: State, a: Action, i: nat)
    requires Inv(s) && Step(s, a).Some? && i < |s.rows| <= |Step(s, a).value.rows|
    requires i in s.locks && i !in Step(s, a).value.locks && Step(s, a).value.rows[i].owner.None?
    ensures RollsBack(s, Step(s, a).value, s.locks[i])
  {
    StepKinds(s, a);
    if OfSomeKind(s, Step(s, a).value, Caller(a)) {
      OnlyRollbackUnlocks(s, Step(s, a).value, Caller(a), i);
    }
  }

  // Between a and b no slot stops being owned or locked.
  ghost predicate NothingFreed(tr: seq<State>, a: nat, b: nat)
    requires a <= b < |tr|
    decreases b - a
  {
    a == b || ((forall i: nat :: tr[a].Taken(i) ==> tr[a + 1].Taken(i)) && NothingFreed(tr, a + 1, b))
  }

  lemma {:induction false} TakenStays(tr: seq<State>, acts: seq<Action>, i: nat, a: nat, b: nat)
    requires Run(tr, acts) && a <= b < |tr| && tr[a].Taken(i) && NothingFreed(tr, a, b)
    ensures tr[b].Taken(i)
    decreases b - a
  {
    if a < b {
      TakenStays(tr, acts, i, a + 1, b);
    }
  }

  /** ErrFull: at the free scan every slot was owned or locked, and at the idle scan no unlocked slot was
      idle. Every slot is then owned and active, or locked, provided no slot was freed between the scans. */
  lemma FullMeansEverySlotWasTaken(tr: seq<State>, acts: seq<Action>, b: nat, p: Pid) returns (a: nat)
    requires Run(tr, acts) && b < |acts| && acts[b] == Advance(p)
    requires p in tr[b].procs && tr[b].procs[p].ScanIdle? && tr[b + 1].procs[p].Full?
    ensures a < b && (forall i :: 0 <= i < |tr[a].rows| ==> tr[a].Taken(i))
    ensures forall i :: 0 <= i < |tr[b].rows| ==>
      i in tr[b].locks || !tr[b].rows[i].Idle(tr[b].procs[p].began, tr[b].limit)
    ensures NothingFreed(tr, a, b) ==>
      forall i :: 0 <= i < |tr[b].rows| ==>
        i in tr[b].locks || (tr[b].rows[i].owner.Some? && !tr[b].rows[i].Idle(tr[b].procs[p].began, tr[b].limit))
  {
    RunInv(tr, acts, b);
    assert Step(tr[b], acts[b]) == Some(tr[b + 1]);
    a := SeenIsFromRun(tr, acts, b, p);
    var seen := tr[b].procs[p].seen;
    assert seen.NothingFree() && seen == View(tr[a].rows, tr[a].locks.Keys);
    forall i | 0 <= i < |tr[a].rows|
      ensures tr[a].Taken(i)
    {
      assert seen.rows[i].owner.Some? || i in seen.locked;
    }
    forall i | 0 <= i < |tr[b].rows|
      ensures i in tr[b].locks || !tr[b].rows[i].Idle(tr[b].procs[p].began, tr[b].limit)
    {
      assert !tr[b].IdleNow(i, tr[b].procs[p].began);
    }
    if NothingFreed(tr, a, b) {
      SameSize(tr, acts, a, b);
      forall i | 0 <= i < |tr[b].rows|
        ensures tr[b].rows[i].owner.Some? || i in tr[b].locks
      {
        TakenStays(tr, acts, i, a, b);
        assert tr[b].Taken(i);
      }
    }
  }

  lemma {:induction false} SameSize(tr: seq<State>, acts: seq<Action>, a: nat, b: nat)
    requires Run(tr, acts) && a <= b < |tr|
    ensures |tr[a].rows| == |tr[b].rows|
    decreases b - a
  {
    if a < b {
      RunInv(tr, acts, a);
      assert Step(tr[a], acts[a]) == Some(tr[a + 1]);
      RowCount(tr[a], acts[a]);
      SameSize(tr, acts, a + 1, b);
    }
  }

  lemma RowCount(s: State, a: Action)
    requires Step(s, a).Some?
    ensures |Step(s, a).value.rows| == |s.rows|
  {}

  // The step frees slot i: a Release of its owner, or the rollback of the transaction that had picked it as free.
  ghost predicate Frees(s: State, a: Action, i: nat) {
    && Step(s, a).Some? && s.Taken(i) && !Step(s, a).value.Taken(i)
    && (|| (s.rows[i].owner.Some? && ReleaseFrees(s, a, i, s.rows[i].owner.value))
        || (i in s.locks && s.rows[i].owner.None? && RollsBack(s, Step(s, a).value, s.locks[i])))
  }

  ghost predicate NeverTaken(tr: seq<State>, a: nat, b: nat, i: nat)
    requires b < |tr|
  {
    forall m :: a <= m <= b ==> !tr[m].Taken(i)
  }

  // The last change of slot i between a and b frees it.
  ghost predicate LastChangeFrees(tr: seq<State>, acts: seq<Action>, a: nat, b: nat, i: nat)
    requires b < |tr| && b <= |acts|
  {
    exists m :: a <= m < b && Frees(tr[m], acts[m], i) && NeverTaken(tr, m + 1, b, i)
  }

  lemma {:induction false} FreeIsLastFreed(tr: seq<State>, acts: seq<Action>, a: nat, b: nat, i: nat)
    requires Run(tr, acts) && a <= b < |tr| && tr[a].Taken(i) && !tr[b].Taken(i)
    ensures LastChangeFrees(tr, acts, a, b, i)
    decreases b
  {
    var m := b - 1;
    assert Step(tr[m], acts[m]) == Some(tr[m + 1]);
    if tr[m].Taken(i) {
      RunInv(tr, acts, m);
      SlotFreedOnlyBy(tr[m], acts[m], i);
      assert Frees(tr[m], acts[m], i) && NeverTaken(tr, m + 1, b, i);
    } else {
      FreeIsLastFreed(tr, acts, a, m, i);
      var n :| a <= n < m && Frees(tr[n], acts[n], i) && NeverTaken(tr, n + 1, m, i);
      assert NeverTaken(tr, n + 1, b, i);
    }
  }

  /** ErrFull, slot by slot: a slot is free at the answer exactly when the last change to it after the free scan was a
      Release of its owner or the rollback of a transaction that had picked it as free. */
  lemma SlotFreeAtFullIff(tr: seq<State>, acts: seq<Action>, b: nat, p: Pid) returns (a: nat)
    requires Run(tr, acts) && b < |acts| && acts[b] == Advance(p)
    requires p in tr[b].procs && tr[b].procs[p].ScanIdle? && tr[b + 1].procs[p].Full?
    ensures a < b && ScannedAt(tr[a], p, tr[b].procs[p].seen)
    ensures forall i: nat :: i < |tr[b].rows| ==> (!tr[b].Taken(i) <==> LastChangeFrees(tr, acts, a, b, i))
  {
    a := SeenIsFromRun(tr, acts, b, p);
    SameSize(tr, acts, a, b);
    RunInv(tr, acts, b);
    forall i: nat | i < |tr[b].rows|
      ensures !tr[b].Taken(i) <==> LastChangeFrees(tr, acts, a, b, i)
    {
      assert tr[a].rows[i].owner.Some? || i in tr[a].locks;
      if !tr[b].Taken(i) {
        FreeIsLastFreed(tr, acts, a, b, i);
      }
    }
  }

  // ----- Logins -----

  // The state in which a login for `cred` passed the signature and expiry check ...
  ghost predicate VerifiedAt(s: State, cred: Credential) {
    cred in s.creds && s.now <= cred.expires
  }

  // Index of the last statement a login has passed: 1 = verified, 2 = owner read, 3 = granted.
  function LoginStage(pr: Proc): nat {
    if pr.LoginOwner? then 1 else if pr.LoginTier? then 2 else if pr.Granted? then 3 else 0
  }

  // What one statement of a login checks, in state `s`.
  ghost predicate PassesCheck(s: State, pr: Proc, pr': Proc) {
    && LoginStage(pr') == LoginStage(pr) + 1
    && (pr'.LoginOwner? ==> pr == LoginStart(pr'.cred.slot, pr'.cred) && VerifiedAt(s, pr'.cred))
    && (pr'.LoginTier? ==> pr == LoginOwner(pr'.cred) && s.Owns(pr'.cred.email, pr'.cred.slot))
    && (pr'.Granted? ==> pr == LoginTier(pr'.cred) && pr'.cred.email in s.testers && pr'.grant == s.testers[pr'.cred.email])
  }

  lemma LoginStageStep(s: State, a: Action, p: Pid)
    requires Step(s, a).Some? && p in Step(s, a).value.procs && LoginStage(Step(s, a).value.procs[p]) > 0
    ensures p in s.procs
    ensures s.procs[p] == Step(s, a).value.procs[p] || PassesCheck(s, s.procs[p], Step(s, a).value.procs[p])
  {
    if a.Advance? {
      if a.p == p {
        ClaimIsNoLogin(s, p);
      } else {
        AdvanceTouchesOneCall(s, a.p, p);
      }
    }
  }

  lemma ClaimIsNoLogin(s: State, p: Pid)
    requires p in s.procs
    ensures ClaimStep(s, p).Some? ==> LoginStage(ClaimStep(s, p).value.procs[p]) == 0
    ensures ReleaseStep(s, p).Some? ==> LoginStage(ReleaseStep(s, p).value.procs[p]) == 0
  {}

  // The step that brought login `p` from `stage - 1` to `stage`, no earlier than its start.
  lemma {:induction false} LoginStageReached(tr: seq<State>, acts: seq<Action>, from: nat, k: nat, p: Pid) returns (j: nat)
    requires Run(tr, acts) && from <= k < |tr| && p !in tr[from].procs
    requires p in tr[k].procs && LoginStage(tr[k].procs[p]) > 0
    ensures from <= j < k && p in tr[j].procs && PassesCheck(tr[j], tr[j].procs[p], tr[k].procs[p])
    decreases k
  {
    assert Step(tr[k - 1], acts[k - 1]) == Some(tr[k - 1 + 1]);
    LoginStageStep(tr[k - 1], acts[k - 1], p);
    if tr[k - 1].procs[p] == tr[k].procs[p] {
      j := LoginStageReached(tr, acts, from, k - 1, p);
    } else {
      j := k - 1;
    }
  }

  lemma LoginStartStep(s: State, a: Action, p: Pid)
    requires Step(s, a).Some? && p in Step(s, a).value.procs && Step(s, a).value.procs[p].LoginStart?
    ensures a == Start(p, Step(s, a).value.procs[p]) || (p in s.procs && s.procs[p] == Step(s, a).value.procs[p])
  {
    if p in s.procs {
      LoginStays(s, a, p);
    } else if a.Advance? {
      AdvanceTouchesOneCall(s, a.p, p);
    }
  }

  // A login at its first statement was started as it stands.
  lemma {:induction false} LoginStarted(tr: seq<State>, acts: seq<Action>, from: nat, k: nat, p: Pid) returns (j: nat)
    requires Run(tr, acts) && from <= k < |tr| && p !in tr[from].procs && p in tr[k].procs && tr[k].procs[p].LoginStart?
    ensures from <= j < k && acts[j] == Start(p, tr[k].procs[p])
    decreases k
  {
    j := k - 1;
    assert Step(tr[j], acts[j]) == Some(tr[j + 1]);
    LoginStartStep(tr[j], acts[j], p);
    if acts[j] != Start(p, tr[k].procs[p]) {
      j := LoginStarted(tr, acts, from, k - 1, p);
    }
  }

  // No statement leads to the first one of a login.
  lemma LoginStays(s: State, a: Action, p: Pid)
    requires Step(s, a).Some? && p in s.procs && Step(s, a).value.procs[p].LoginStart?
    ensures s.procs[p] == Step(s, a).value.procs[p]
  {
    if a.Advance? {
      if a.p == p {
        ClaimIsNoLoginStart(s, p);
      } else {
        AdvanceTouchesOneCall(s, a.p, p);
      }
    }
  }

  lemma ClaimIsNoLoginStart(s: State, p: Pid)
    requires p in s.procs
    ensures ClaimStep(s, p).Some? ==> !ClaimStep(s, p).value.procs[p].LoginStart?
    ensures ReleaseStep(s, p).Some? ==> !ReleaseStep(s, p).value.procs[p].LoginStart?
    ensures LoginStep(s, p).Some? ==> !LoginStep(s, p).value.procs[p].LoginStart?
  {}

  /** A granted login was made on the slot its credential names, and passed three reads in order, none before the call
      started: the credential was signed and unexpired, then its email owned that slot, then that email was listed with
      the granted tier. */
  lemma GrantMeansThreeReads(tr: seq<State>, acts: seq<Action>, from: nat, k: nat, p: Pid)
    returns (started: nat, verified: nat, owned: nat, listed: nat)
    requires Run(tr, acts) && from <= k < |tr| && p !in tr[from].procs && p in tr[k].procs && tr[k].procs[p].Granted?
    ensures from <= started < verified < owned < listed < k
    ensures var Granted(cred, tier) := tr[k].procs[p];
      && acts[started] == Start(p, LoginStart(cred.slot, cred))
      && VerifiedAt(tr[verified], cred)
      && tr[owned].Owns(cred.email, cred.slot)
      && cred.email in tr[listed].testers && tr[listed].testers[cred.email] == tier
  {
    listed := LoginStageReached(tr, acts, from, k, p);
    owned := LoginStageReached(tr, acts, from, listed, p);
    verified := LoginStageReached(tr, acts, from, owned, p);
    started := LoginStarted(tr, acts, from, verified, p);
  }

  lemma CallStays(s: State, a: Action, p: Pid)
    requires Step(s, a).Some? && p in s.procs
    ensures p in Step(s, a).value.procs
  {
    if a.Advance? && a.p != p {
      AdvanceTouchesOneCall(s, a.p, p);
    }
  }

  lemma {:induction false} StartedBefore(tr: seq<State>, acts: seq<Action>, m: nat, k: nat, p: Pid)
    requires Run(tr, acts) && m <= k < |tr| && p in tr[m].procs
    ensures p in tr[k].procs
    decreases k
  {
    if m < k {
      var j := k - 1;
      StartedBefore(tr, acts, m, j, p);
      assert Step(tr[j], acts[j]) == Some(tr[j + 1]);
      CallStays(tr[j], acts[j], p);
    }
  }

  lemma StartIsNew(tr: seq<State>, acts: seq<Action>, m: nat, p: Pid, call: Proc)
    requires Run(tr, acts) && m < |acts| && acts[m] == Start(p, call)
    ensures p !in tr[m].procs && p in tr[m + 1].procs
  {
    assert Step(tr[m], acts[m]) == Some(tr[m + 1]);
  }

  /** A login made on slot i with credential c is only ever granted for c, and only if c names slot i. */
  lemma LoginIsForItsSlot(tr: seq<State>, acts: seq<Action>, m: nat, k: nat, p: Pid, i: nat, c: Credential)
    requires Run(tr, acts) && m < k < |tr| && acts[m] == Start(p, LoginStart(i, c)) && p in tr[k].procs && tr[k].procs[p].Granted?
    ensures tr[k].procs[p].cred == c && c.slot == i
  {
    StartIsNew(tr, acts, m, p, LoginStart(i, c));
    var started, verified, owned, listed := GrantMeansThreeReads(tr, acts, m, k, p);
    var cred := tr[k].procs[p].cred;
    StartIsNew(tr, acts, started, p, LoginStart(cred.slot, cred));
    if m < started {
      StartedBefore(tr, acts, m + 1, started, p);
    }
  }

  /** Once an email is neither listed nor owns a slot (its removal and release have finished), no login that
      starts later with one of its credentials is granted before the email owns that slot again and,
      after that, is listed again. */
  lemma RemovedTesterStaysOut(tr: seq<State>, acts: seq<Action>, done: nat, k: nat, p: Pid)
    returns (started: nat, owned: nat, listed: nat)
    requires Run(tr, acts) && done <= k < |tr| && p !in tr[done].procs && p in tr[k].procs && tr[k].procs[p].Granted?
    requires var cred := tr[k].procs[p].cred; cred.email !in tr[done].testers && !tr[done].Owns(cred.email, cred.slot)
    ensures var cred := tr[k].procs[p].cred;
      && done <= started < owned < listed < k && acts[started] == Start(p, LoginStart(cred.slot, cred))
      && tr[owned].Owns(cred.email, cred.slot) && cred.email in tr[listed].testers
  {
    var verified: nat;
    started, verified, owned, listed := GrantMeansThreeReads(tr, acts, done, k, p);
  }

  // ----- Credentials -----

  // The step signs this credential: the last one of a Claim that answers with its slot.
  ghost predicate Signs(s: State, a: Action, cred: Credential) {
    && a.Advance? && a.p in s.procs && s.procs[a.p].Entered?
    && cred == Credential(s.procs[a.p].slot, s.procs[a.p].email, s.now + CLAIM_TTL)
  }

  lemma CredentialStep(s: State, a: Action, cred: Credential)
    requires Step(s, a).Some? && cred in Step(s, a).value.creds && cred !in s.creds
    ensures Signs(s, a, cred)
  {
    if a.Advance? {
      ClaimCredentials(s, a.p, cred);
    }
  }

  lemma ClaimCredentials(s: State, p: Pid, cred: Credential)
    requires p in s.procs && cred !in s.creds
    ensures ClaimStep(s, p).Some? && cred in ClaimStep(s, p).value.creds ==> Signs(s, Advance(p), cred)
    ensures ReleaseStep(s, p).Some? ==> cred !in ReleaseStep(s, p).value.creds
    ensures LoginStep(s, p).Some? ==> cred !in LoginStep(s, p).value.creds
  {}

  /** Every credential was signed by a Claim that answered its email with its slot, for 12 hours from then; so that email
      owned that slot at some point before. */
  lemma {:induction false} CredentialWasOwned(tr: seq<State>, acts: seq<Action>, k: nat, cred: Credential) returns (signed: nat, owned: nat)
    requires Run(tr, acts) && k < |tr| && cred in tr[k].creds && cred !in tr[0].creds
    ensures owned <= signed < k && Signs(tr[signed], acts[signed], cred) && tr[owned].Owns(cred.email, cred.slot)
    decreases k
  {
    assert Step(tr[k - 1], acts[k - 1]) == Some(tr[k - 1 + 1]);
    if cred in tr[k - 1].creds {
      signed, owned := CredentialWasOwned(tr, acts, k - 1, cred);
    } else {
      signed := k - 1;
      CredentialStep(tr[signed], acts[signed], cred);
      owned := AnswerWasOwned(tr, acts, signed, acts[signed].p);
    }
  }

  /** Whenever it started, a login is only ever granted to an email listed at that very step. */
  lemma GrantOnlyWhileListed(s: State, a: Action, p: Pid)
    requires Step(s, a).Some? && p in Step(s, a).value.procs && Step(s, a).value.procs[p].Granted?
    ensures p in s.procs && (s.procs[p] == Step(s, a).value.procs[p] || Step(s, a).value.procs[p].cred.email in s.testers)
  {
    LoginStageStep(s, a, p);
  }
}
