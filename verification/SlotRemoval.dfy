/** A tester removed and released: when the email can still end up owning a slot without being listed again. */
module SlotRemoval {
  import opened Options
  import opened SlotProtocol
  import opened SlotRuns

  // ----- Continuations -----

  // The state after these steps, if each of them can be taken.
  function Runs(s: State, acts: seq<Action>): Option<State>
    decreases |acts|
  {
    if acts == [] then Some(s)
    else if Step(s, acts[0]).None? then None
    else Runs(Step(s, acts[0]).value, acts[1..])
  }

  ghost predicate NeverAdds(acts: seq<Action>, email: Email) {
    forall k :: 0 <= k < |acts| && acts[k].AddTester? ==> acts[k].email != email
  }

  predicate OwnsNothing(s: State, email: Email) {
    forall i :: 0 <= i < |s.rows| ==> s.rows[i].owner != Some(email)
  }

  // Some continuation in which nobody lists the email ends with the email owning a slot.
  ghost predicate CanEndOwning(s: State, email: Email) {
    exists acts :: NeverAdds(acts, email) && Runs(s, acts).Some? && !OwnsNothing(Runs(s, acts).value, email)
  }

  // ----- The condition -----

  // The reclaim scan of a transaction that began at `began` finds an idle slot, or can still come to find one: a
  // transaction begun more than the limit before it would leave one.
  predicate IdleCanCome(s: State, began: int) {
    || (exists i :: 0 <= i < |s.rows| && s.rows[i].Idle(began, s.limit))
    || (exists q :: q in s.procs && OldTaker(s.procs[q], began - s.limit))
  }

  // Looks for a free slot, or has a slot to write.
  predicate Taking(pr: Proc) {
    pr.ScanFree? || pr.Picked? || pr.Written?
  }

  predicate OldTaker(pr: Proc, bound: int) {
    Taking(pr) && pr.began < bound
  }

  // A Claim of the email past its tier lookup and not yet past the scan for a free slot, or with a slot to write.
  predicate Eager(pr: Proc, email: Email) {
    || ((pr.Begin? || pr.ScanFree? || pr.Picked? || pr.Written?) && pr.email == email)
    || (pr.Resume? && !pr.retry && pr.email == email)
  }

  // A Claim of the email that can still be given a slot.
  predicate MayTake(s: State, pr: Proc, email: Email) {
    Eager(pr, email) || (pr.ScanIdle? && pr.email == email && IdleCanCome(s, pr.began))
  }

  predicate SomeCallMayTake(s: State, email: Email) {
    |s.rows| > 0 && exists p :: p in s.procs && MayTake(s, s.procs[p], email)
  }

  // ----- Without such a call the email stays without a slot -----

  ghost predicate StaysOut(s: State, email: Email) {
    email !in s.testers && OwnsNothing(s, email) && !SomeCallMayTake(s, email)
  }

  lemma ClaimOutcome(s: State, p: Pid, email: Email)
    requires p in s.procs && ClaimStep(s, p).Some? && email !in s.testers && !Eager(s.procs[p], email)
    ensures var pr := ClaimStep(s, p).value.procs[p];
      !Eager(pr, email) && (pr.ScanIdle? && pr.email == email ==> s.procs[p] == pr)
  {}

  lemma OtherOutcome(s: State, p: Pid, email: Email)
    requires p in s.procs
    ensures ReleaseStep(s, p).Some? ==> var pr := ReleaseStep(s, p).value.procs[p]; !Eager(pr, email) && !pr.ScanIdle? && !Taking(pr)
    ensures LoginStep(s, p).Some? ==> var pr := LoginStep(s, p).value.procs[p]; !Eager(pr, email) && !pr.ScanIdle? && !Taking(pr)
  {}

  // The call that an Eager or scanning call of the email was before the step.
  lemma CallBefore(s: State, a: Action, p: Pid, email: Email)
    requires Step(s, a).Some? && p in Step(s, a).value.procs && email !in s.testers
    requires var pr := Step(s, a).value.procs[p]; Eager(pr, email) || (pr.ScanIdle? && pr.email == email)
    ensures p in s.procs
    ensures Eager(s.procs[p], email) || s.procs[p] == Step(s, a).value.procs[p]
         || (a.TakeIdle? && a.p == p && s.procs[p].ScanIdle? && s.procs[p].email == email && s.IdleNow(a.i, s.procs[p].began))
  {
    if a.Advance? {
      if a.p == p {
        OtherOutcome(s, p, email);
        if !Eager(s.procs[p], email) && ClaimStep(s, p).Some? {
          ClaimOutcome(s, p, email);
        }
      } else {
        AdvanceTouchesOneCall(s, a.p, p);
      }
    }
  }

  lemma ClaimTaking(s: State, p: Pid)
    requires p in s.procs && ClaimStep(s, p).Some? && Taking(ClaimStep(s, p).value.procs[p])
    ensures var pr := ClaimStep(s, p).value.procs[p]; (Taking(s.procs[p]) && s.procs[p].began == pr.began) || pr.began == s.now
  {}

  lemma TakingBefore(s: State, a: Action, q: Pid)
    requires Step(s, a).Some? && q in Step(s, a).value.procs && Taking(Step(s, a).value.procs[q])
    ensures var pr := Step(s, a).value.procs[q];
      || pr.began == s.now
      || (q in s.procs && Taking(s.procs[q]) && s.procs[q].began == pr.began)
      || (q in s.procs && s.procs[q].ScanIdle? && s.procs[q].began == pr.began && a.TakeIdle? && s.IdleNow(a.i, pr.began))
  {
    if a.Advance? {
      if a.p == q {
        OtherOutcome(s, q, Email(""));
        if ClaimStep(s, q).Some? && Taking(ClaimStep(s, q).value.procs[q]) {
          ClaimTaking(s, q);
        }
      } else {
        AdvanceTouchesOneCall(s, a.p, q);
      }
    }
  }

  // What a step may make of a row: nothing, a sign of life, no owner, or what its transaction wrote.
  ghost predicate RowChange(s: State, row: Row, row': Row, i: nat) {
    || row' == row || row'.owner.None? || row'.lastActive == Some(s.now)
    || exists q :: q in s.procs && s.procs[q].Written? && s.procs[q].slot == i && row'.lastActive == Some(s.procs[q].began)
  }

  lemma RowBefore(s: State, a: Action, i: nat)
    requires Step(s, a).Some? && i < |s.rows|
    ensures |Step(s, a).value.rows| == |s.rows| && RowChange(s, s.rows[i], Step(s, a).value.rows[i], i)
  {
    if a.Advance? {
      ClaimRow(s, a.p, i);
      ReleaseRow(s, a.p, i);
      LoginOwnerChanges(s, a.p);
    }
  }

  lemma ClaimRow(s: State, p: Pid, i: nat)
    requires p in s.procs && i < |s.rows|
    ensures ClaimStep(s, p).Some? ==> |ClaimStep(s, p).value.rows| == |s.rows| && RowChange(s, s.rows[i], ClaimStep(s, p).value.rows[i], i)
  {}

  lemma ReleaseRow(s: State, p: Pid, i: nat)
    requires p in s.procs && i < |s.rows|
    ensures ReleaseStep(s, p).Some? ==> |ReleaseStep(s, p).value.rows| == |s.rows| && RowChange(s, s.rows[i], ReleaseStep(s, p).value.rows[i], i)
  {}

  lemma LimitStays(s: State, a: Action)
    requires Step(s, a).Some?
    ensures Step(s, a).value.limit == s.limit
  {
    if a.Advance? {
      ClaimLimit(s, a.p);
    }
  }

  lemma ClaimLimit(s: State, p: Pid)
    requires p in s.procs
    ensures AdvanceProc(s, p).Some? ==> AdvanceProc(s, p).value.limit == s.limit && AdvanceProc(s, p).value.testers == s.testers
  {}

  // An idle slot does not come out of nothing.
  lemma IdleStaysAway(s: State, a: Action, began: int)
    requires Step(s, a).Some? && began <= s.now && !IdleCanCome(s, began)
    ensures !IdleCanCome(Step(s, a).value, began)
  {
    var s' := Step(s, a).value;
    LimitStays(s, a);
    forall i | 0 <= i < |s'.rows|
      ensures !s'.rows[i].Idle(began, s.limit)
    {
      RowCount(s, a);
      RowBefore(s, a, i);
      assert !s.rows[i].Idle(began, s.limit);
    }
    forall q | q in s'.procs
      ensures !OldTaker(s'.procs[q], began - s.limit)
    {
      if Taking(s'.procs[q]) {
        TakingBefore(s, a, q);
        assert q in s.procs ==> !OldTaker(s.procs[q], began - s.limit);
      }
    }
  }

  lemma TestersAfter(s: State, a: Action, email: Email)
    requires Step(s, a).Some? && email !in s.testers && !(a.AddTester? && a.email == email)
    ensures email !in Step(s, a).value.testers
  {
    if a.Advance? {
      ClaimLimit(s, a.p);
    }
  }

  lemma StillOwnsNothing(s: State, a: Action, email: Email)
    requires Inv(s) && Step(s, a).Some? && StaysOut(s, email)
    ensures OwnsNothing(Step(s, a).value, email)
  {
    RowCount(s, a);
    forall i | 0 <= i < |s.rows|
      ensures Step(s, a).value.rows[i].owner != Some(email)
    {
      OwnerChanges(s, a, i);
      if a.Advance? && a.p in s.procs && s.procs[a.p].Written? {
        assert !MayTake(s, s.procs[a.p], email);
      }
    }
  }

  lemma StaysOutStep(s: State, a: Action, email: Email)
    requires Inv(s) && Step(s, a).Some? && StaysOut(s, email) && !(a.AddTester? && a.email == email)
    ensures StaysOut(Step(s, a).value, email)
  {
    var s' := Step(s, a).value;
    TestersAfter(s, a, email);
    StillOwnsNothing(s, a, email);
    RowCount(s, a);
    forall p | p in s'.procs && |s.rows| > 0
      ensures !MayTake(s', s'.procs[p], email)
    {
      var pr := s'.procs[p];
      if Eager(pr, email) || (pr.ScanIdle? && pr.email == email) {
        CallBefore(s, a, p, email);
        assert !MayTake(s, s.procs[p], email);
        assert s.procs[p] == pr;
        assert !IdleCanCome(s, pr.began) && pr.began <= s.now;
        IdleStaysAway(s, a, pr.began);
      }
    }
  }

  lemma {:induction false} StaysOutForever(s: State, acts: seq<Action>, email: Email)
    requires Inv(s) && StaysOut(s, email) && NeverAdds(acts, email) && Runs(s, acts).Some?
    ensures StaysOut(Runs(s, acts).value, email)
    decreases |acts|
  {
    if acts != [] {
      StepKeepsInv(s, acts[0]);
      StaysOutStep(s, acts[0], email);
      StaysOutForever(Step(s, acts[0]).value, acts[1..], email);
    }
  }

  // ----- With such a call some continuation ends with a slot -----

  // A continuation in which nobody lists the email leads from s to s'.
  ghost predicate Leads(s: State, s': State, email: Email) {
    exists acts :: NeverAdds(acts, email) && Runs(s, acts) == Some(s')
  }

  lemma {:induction false} RunsAppend(s: State, a: seq<Action>, b: seq<Action>)
    ensures Runs(s, a + b) == if Runs(s, a).Some? then Runs(Runs(s, a).value, b) else None
    decreases |a|
  {
    if a == [] {
      assert a + b == b;
    } else {
      assert (a + b)[0] == a[0] && (a + b)[1..] == a[1..] + b;
      if Step(s, a[0]).Some? {
        RunsAppend(Step(s, a[0]).value, a[1..], b);
      }
    }
  }

  lemma LeadsHere(s: State, email: Email)
    ensures Leads(s, s, email)
  {
    assert NeverAdds([], email) && Runs(s, []) == Some(s);
  }

  lemma LeadsOn(s: State, s': State, a: Action, s'': State, email: Email)
    requires Leads(s, s', email) && Step(s', a) == Some(s'') && !a.AddTester?
    ensures Leads(s, s'', email)
  {
    var acts :| NeverAdds(acts, email) && Runs(s, acts) == Some(s');
    RunsAppend(s, acts, [a]);
    assert Runs(s', [a]) == Runs(s'', [a][1..]);
    assert NeverAdds(acts + [a], email);
  }

  lemma LeadsThrough(s: State, s': State, s'': State, email: Email)
    requires Leads(s, s', email) && Leads(s', s'', email)
    ensures Leads(s, s'', email)
  {
    var a :| NeverAdds(a, email) && Runs(s, a) == Some(s');
    var b :| NeverAdds(b, email) && Runs(s', b) == Some(s'');
    RunsAppend(s, a, b);
    assert NeverAdds(a + b, email);
  }

  lemma LeadsToOwner(s: State, s': State, email: Email)
    requires Leads(s, s', email) && !OwnsNothing(s', email)
    ensures CanEndOwning(s, email)
  {
    var acts :| NeverAdds(acts, email) && Runs(s, acts) == Some(s');
  }

  lemma LeadsToOwning(s: State, s': State, email: Email)
    requires Leads(s, s', email) && CanEndOwning(s', email)
    ensures CanEndOwning(s, email)
  {
    var acts :| NeverAdds(acts, email) && Runs(s', acts).Some? && !OwnsNothing(Runs(s', acts).value, email);
    LeadsThrough(s, s', Runs(s', acts).value, email);
    LeadsToOwner(s, Runs(s', acts).value, email);
  }

  lemma StepLeads(s: State, a: Action, s': State, email: Email)
    requires Inv(s) && Step(s, a) == Some(s') && !a.AddTester?
    ensures Inv(s') && Leads(s, s', email)
  {
    StepKeepsInv(s, a);
    LeadsHere(s, email);
    LeadsOn(s, s, a, s', email);
  }

  lemma CommitOwns(s: State, p: Pid, email: Email)
    requires Inv(s) && p in s.procs && s.procs[p].Written? && s.procs[p].email == email
    ensures CanEndOwning(s, email)
  {
    assert PickStands(s, s.procs[p]);
    var s' := AdvanceProc(s, p).value;
    StepLeads(s, Advance(p), s', email);
    assert s'.rows[s.procs[p].slot].owner == Some(email);
    LeadsToOwner(s, s', email);
  }

  lemma PickedOwns(s: State, p: Pid, email: Email)
    requires Inv(s) && p in s.procs && s.procs[p].Picked? && s.procs[p].email == email
    ensures CanEndOwning(s, email)
  {
    var pr := s.procs[p];
    if !OwnsNothing(s, email) {
      LeadsHere(s, email);
      LeadsToOwner(s, s, email);
    } else if IndexWaits(s, email, pr.slot) {
      var j: nat :| j < |s.rows| && j != pr.slot && s.Uncommitted(j) &&
        (s.rows[j].owner == Some(email) || s.procs[s.locks[j]].email == email);
      CommitOwns(s, s.locks[j], email);
    } else {
      var s' := s.Goto(p, Written(email, pr.tier, pr.began, pr.slot, pr.pick));
      StepLeads(s, Advance(p), s', email);
      CommitOwns(s', p, email);
      LeadsToOwning(s, s', email);
    }
  }

  // The calls that hold no lock go on where they are.
  ghost predicate BystandersKept(s: State, s': State) {
    |s'.rows| == |s.rows| && s'.limit == s.limit &&
    forall q :: q in s.procs && !s.procs[q].Picked? && !s.procs[q].Written? ==> q in s'.procs && s'.procs[q] == s.procs[q]
  }

  // Whoever holds the lock of slot i loses its connection.
  lemma Unlocked(s: State, i: nat, email: Email) returns (s': State)
    requires Inv(s) && i < |s.rows|
    ensures Inv(s') && Leads(s, s', email) && BystandersKept(s, s') && i !in s'.locks && s'.rows == s.rows
    ensures forall j :: j in s'.locks ==> j in s.locks && s'.locks[j] == s.locks[j]
  {
    s' := s;
    LeadsHere(s, email);
    if i in s.locks {
      var q := s.locks[i];
      s' := s.Unlock(i).Goto(q, Failed);
      assert HoldsLock(s.procs[q], i);
      StepLeads(s, Abort(q), s', email);
    }
  }

  lemma ReleaseFinds(s: State, i: nat, o: Email)
    requires Inv(s) && s.Owns(o, i)
    ensures OwnedSlot(s, o, 0) == Some(i)
  {}

  lemma ReleaseReads(s: State, i: nat, o: Email, email: Email) returns (r: Pid, s': State)
    requires Inv(s) && s.Owns(o, i)
    ensures r !in s.procs && s' == s.Goto(r, ReleaseUpdate(o, Some(i))) && Inv(s') && Leads(s, s', email)
  {
    r := FreshPid(s);
    var s1 := s.Goto(r, ReleaseStart(o));
    StepLeads(s, Start(r, ReleaseStart(o)), s1, email);
    ReleaseFinds(s1, i, o);
    s' := s1.Goto(r, ReleaseUpdate(o, Some(i)));
    assert s' == s.Goto(r, ReleaseUpdate(o, Some(i)));
    StepLeads(s1, Advance(r), s', email);
    LeadsThrough(s, s1, s', email);
  }

  // The owner of the unlocked slot i is released.
  lemma ReleasedSlot(s: State, i: nat, o: Email, email: Email) returns (s': State)
    requires Inv(s) && s.Owns(o, i) && i !in s.locks
    ensures Inv(s') && Leads(s, s', email) && BystandersKept(s, s') && s'.locks == s.locks
    ensures s'.rows == s.rows[i := s.rows[i].(owner := None)]
    ensures forall q :: q in s.procs ==> q in s'.procs && s'.procs[q] == s.procs[q]
    ensures forall q :: q in s'.procs && Taking(s'.procs[q]) ==> q in s.procs
  {
    var r, s1 := ReleaseReads(s, i, o, email);
    s' := s1.SetRow(i, s1.rows[i].(owner := None)).Goto(r, Released(o, true));
    StepLeads(s1, Advance(r), s', email);
    LeadsThrough(s, s1, s', email);
  }

  // The first slot becomes free.
  lemma FirstSlotFreed(s: State, email: Email) returns (s': State)
    requires Inv(s) && |s.rows| > 0
    ensures Inv(s') && Leads(s, s', email) && BystandersKept(s, s') && s'.FreeNow(0)
  {
    s' := Unlocked(s, 0, email);
    if s'.rows[0].owner.Some? {
      var s1 := s';
      s' := ReleasedSlot(s1, 0, s1.rows[0].owner.value, email);
      LeadsThrough(s, s1, s', email);
    }
  }

  // A call that looks for a free slot is given the first one.
  lemma FreeScanPicks(s: State, p: Pid, email: Email) returns (s': State)
    requires Inv(s) && |s.rows| > 0 && p in s.procs && s.procs[p].ScanFree?
    ensures Inv(s') && Leads(s, s', email) && |s'.rows| == |s.rows| && s'.limit == s.limit && p in s'.procs
    ensures var pr := s.procs[p]; s'.procs[p] == Picked(pr.email, pr.tier, pr.began, 0, Free)
    ensures forall q :: q != p && q in s.procs && !s.procs[q].Picked? && !s.procs[q].Written? ==>
      q in s'.procs && s'.procs[q] == s.procs[q]
  {
    var s1 := FirstSlotFreed(s, email);
    var pr := s.procs[p];
    assert FirstFree(s1, 0) == Some(0);
    s' := s1.(locks := s1.locks[0 := p]).Goto(p, Picked(pr.email, pr.tier, pr.began, 0, Free));
    StepLeads(s1, Advance(p), s', email);
    LeadsThrough(s, s1, s', email);
  }

  lemma FreeScanOwns(s: State, p: Pid, email: Email)
    requires Inv(s) && |s.rows| > 0 && p in s.procs && s.procs[p].ScanFree? && s.procs[p].email == email
    ensures CanEndOwning(s, email)
  {
    var s' := FreeScanPicks(s, p, email);
    PickedOwns(s', p, email);
    LeadsToOwning(s, s', email);
  }

  lemma BeginOwns(s: State, p: Pid, email: Email)
    requires Inv(s) && |s.rows| > 0 && p in s.procs && s.procs[p].Begin? && s.procs[p].email == email
    ensures CanEndOwning(s, email)
  {
    var s' := s.Goto(p, ScanFree(email, s.procs[p].tier, s.now));
    StepLeads(s, Advance(p), s', email);
    FreeScanOwns(s', p, email);
    LeadsToOwning(s, s', email);
  }

  lemma ResumeOwns(s: State, p: Pid, email: Email)
    requires Inv(s) && |s.rows| > 0 && p in s.procs && s.procs[p].Resume? && !s.procs[p].retry && s.procs[p].email == email
    requires OwnsNothing(s, email)
    ensures CanEndOwning(s, email)
  {
    assert OwnedSlot(s, email, 0).None?;
    var s' := s.Goto(p, Begin(email, s.procs[p].tier));
    StepLeads(s, Advance(p), s', email);
    BeginOwns(s', p, email);
    LeadsToOwning(s, s', email);
  }

  // ----- The reclaim scan -----

  // The unlocked idle slot whose last sign of life is oldest.
  lemma {:induction false} OldestIdle(s: State, began: int, n: nat) returns (m: nat)
    requires n <= |s.rows| && exists i: nat :: i < n && s.IdleNow(i, began)
    ensures m < n && s.IdleNow(m, began)
    ensures forall j: nat :: j < n && s.IdleNow(j, began) ==> s.rows[m].Activity().value <= s.rows[j].Activity().value
    decreases n
  {
    if exists i: nat :: i < n - 1 && s.IdleNow(i, began) {
      m := OldestIdle(s, began, n - 1);
      if s.IdleNow(n - 1, began) && s.rows[n - 1].Activity().value < s.rows[m].Activity().value {
        m := n - 1;
      }
    } else {
      m := n - 1;
    }
  }

  lemma IdleScanOwns(s: State, p: Pid, email: Email, i: nat)
    requires Inv(s) && p in s.procs && s.procs[p].ScanIdle? && s.procs[p].email == email
    requires i < |s.rows| && s.rows[i].Idle(s.procs[p].began, s.limit)
    ensures CanEndOwning(s, email)
  {
    var pr := s.procs[p];
    var s1 := Unlocked(s, i, email);
    assert s1.IdleNow(i, pr.began);
    var m := OldestIdle(s1, pr.began, |s1.rows|);
    var s2 := s1.(locks := s1.locks[m := p]).Goto(p, Picked(email, pr.tier, pr.began, m, Reclaim(pr.seen)));
    StepLeads(s1, TakeIdle(p, m), s2, email);
    PickedOwns(s2, p, email);
    LeadsThrough(s, s1, s2, email);
    LeadsToOwning(s, s2, email);
  }

  // An older transaction that commits leaves a slot idle for the scan.
  lemma OldCommitOwns(s: State, p: Pid, q: Pid, email: Email)
    requires Inv(s) && p in s.procs && s.procs[p].ScanIdle? && s.procs[p].email == email
    requires q in s.procs && s.procs[q].Written? && s.procs[q].began < s.procs[p].began - s.limit
    ensures CanEndOwning(s, email)
  {
    var pr := s.procs[q];
    assert PickStands(s, pr);
    var s' := s.SetRow(pr.slot, Row(Some(pr.email), Some(pr.began), Some(pr.began))).Unlock(pr.slot)
               .Goto(q, Entered(pr.email, pr.tier, pr.slot));
    StepLeads(s, Advance(q), s', email);
    IdleScanOwns(s', p, email, pr.slot);
    LeadsToOwning(s, s', email);
  }

  // No other call is writing the email that q is to write, and no other slot is its.
  ghost predicate WayIsClear(s: State, q: Pid)
    requires q in s.procs && s.procs[q].Picked?
  {
    var pr := s.procs[q];
    && (forall w :: w in s.procs && s.procs[w].Written? ==> s.procs[w].email != pr.email)
    && (forall j: nat :: j < |s.rows| && j != pr.slot ==> s.rows[j].owner != Some(pr.email))
  }

  lemma OtherWriterAborted(s: State, q: Pid, email: Email) returns (s': State)
    requires Inv(s) && q in s.procs && s.procs[q].Picked?
    ensures Inv(s') && Leads(s, s', email) && BystandersKept(s, s') && q in s'.procs && s'.procs[q] == s.procs[q]
    ensures forall w :: w in s'.procs && s'.procs[w].Written? ==> s'.procs[w].email != s.procs[q].email
  {
    s' := s;
    LeadsHere(s, email);
    if w :| w in s.procs && s.procs[w].Written? && s.procs[w].email == s.procs[q].email {
      s' := s.Unlock(s.procs[w].slot).Goto(w, Failed);
      StepLeads(s, Abort(w), s', email);
    }
  }

  lemma OtherSlotReleased(s: State, q: Pid, email: Email) returns (s': State)
    requires Inv(s) && q in s.procs && s.procs[q].Picked?
    requires forall w :: w in s.procs && s.procs[w].Written? ==> s.procs[w].email != s.procs[q].email
    ensures Inv(s') && Leads(s, s', email) && BystandersKept(s, s') && q in s'.procs && s'.procs[q] == s.procs[q]
    ensures WayIsClear(s', q)
  {
    var pr := s.procs[q];
    s' := s;
    LeadsHere(s, email);
    if j: nat :| j < |s.rows| && j != pr.slot && s.rows[j].owner == Some(pr.email) {
      var s1 := UnlockedFor(s, j, q, email);
      s' := ReleasedSlot(s1, j, pr.email, email);
      LeadsThrough(s, s1, s', email);
    }
  }

  lemma UnlockedFor(s: State, j: nat, q: Pid, email: Email) returns (s': State)
    requires Inv(s) && q in s.procs && s.procs[q].Picked? && j < |s.rows| && j != s.procs[q].slot
    requires forall w :: w in s.procs && s.procs[w].Written? ==> s.procs[w].email != s.procs[q].email
    ensures Inv(s') && Leads(s, s', email) && BystandersKept(s, s') && j !in s'.locks && s'.rows == s.rows
    ensures q in s'.procs && s'.procs[q] == s.procs[q]
    ensures forall w :: w in s'.procs && s'.procs[w].Written? ==> s'.procs[w].email != s.procs[q].email
  {
    s' := s;
    LeadsHere(s, email);
    if j in s.locks {
      var h := s.locks[j];
      assert HoldsLock(s.procs[h], j);
      s' := s.Unlock(j).Goto(h, Failed);
      StepLeads(s, Abort(h), s', email);
    }
  }

  lemma ClearPickOwns(s: State, p: Pid, q: Pid, email: Email)
    requires Inv(s) && p in s.procs && s.procs[p].ScanIdle? && s.procs[p].email == email
    requires q in s.procs && s.procs[q].Picked? && s.procs[q].began < s.procs[p].began - s.limit && WayIsClear(s, q)
    ensures CanEndOwning(s, email)
  {
    var pr := s.procs[q];
    var s' := s.Goto(q, Written(pr.email, pr.tier, pr.began, pr.slot, pr.pick));
    StepLeads(s, Advance(q), s', email);
    OldCommitOwns(s', p, q, email);
    LeadsToOwning(s, s', email);
  }

  lemma OldPickOwns(s: State, p: Pid, q: Pid, email: Email)
    requires Inv(s) && p in s.procs && s.procs[p].ScanIdle? && s.procs[p].email == email
    requires q in s.procs && s.procs[q].Picked? && s.procs[q].began < s.procs[p].began - s.limit
    ensures CanEndOwning(s, email)
  {
    var s1 := OtherWriterAborted(s, q, email);
    var s2 := OtherSlotReleased(s1, q, email);
    ClearPickOwns(s2, p, q, email);
    LeadsToOwning(s1, s2, email);
    LeadsToOwning(s, s1, email);
  }

  lemma OldScanOwns(s: State, p: Pid, q: Pid, email: Email)
    requires Inv(s) && |s.rows| > 0 && p in s.procs && s.procs[p].ScanIdle? && s.procs[p].email == email
    requires q in s.procs && s.procs[q].ScanFree? && s.procs[q].began < s.procs[p].began - s.limit
    ensures CanEndOwning(s, email)
  {
    var s' := FreeScanPicks(s, q, email);
    OldPickOwns(s', p, q, email);
    LeadsToOwning(s, s', email);
  }

  lemma IdleCanComeOwns(s: State, p: Pid, email: Email)
    requires Inv(s) && |s.rows| > 0 && p in s.procs && s.procs[p].ScanIdle? && s.procs[p].email == email
    requires IdleCanCome(s, s.procs[p].began)
    ensures CanEndOwning(s, email)
  {
    if i :| 0 <= i < |s.rows| && s.rows[i].Idle(s.procs[p].began, s.limit) {
      IdleScanOwns(s, p, email, i);
    } else {
      var q :| q in s.procs && OldTaker(s.procs[q], s.procs[p].began - s.limit);
      if s.procs[q].ScanFree? {
        OldScanOwns(s, p, q, email);
      } else if s.procs[q].Picked? {
        OldPickOwns(s, p, q, email);
      } else {
        OldCommitOwns(s, p, q, email);
      }
    }
  }

  lemma CallThatMayTakeOwns(s: State, p: Pid, email: Email)
    requires Inv(s) && |s.rows| > 0 && OwnsNothing(s, email) && p in s.procs && MayTake(s, s.procs[p], email)
    ensures CanEndOwning(s, email)
  {
    var pr := s.procs[p];
    if pr.Resume? {
      ResumeOwns(s, p, email);
    } else if pr.Begin? {
      BeginOwns(s, p, email);
    } else if pr.ScanFree? {
      FreeScanOwns(s, p, email);
    } else if pr.ScanIdle? {
      IdleCanComeOwns(s, p, email);
    } else if pr.Picked? {
      PickedOwns(s, p, email);
    } else {
      CommitOwns(s, p, email);
    }
  }

  // ----- The main results -----

  /** An email that is not listed and owns nothing can end up owning a slot, without being listed again, exactly when
      a Claim of it has already read the tier and can still be given a slot: it has not yet looked for a free one, or
      has one to write, or looks for an idle one that is there or that an older transaction would leave. */
  lemma CanEndOwningIff(s: State, email: Email)
    requires Inv(s) && email !in s.testers && OwnsNothing(s, email)
    ensures CanEndOwning(s, email) <==> SomeCallMayTake(s, email)
  {
    if SomeCallMayTake(s, email) {
      var p :| p in s.procs && MayTake(s, s.procs[p], email);
      CallThatMayTakeOwns(s, p, email);
    } else {
      forall acts | NeverAdds(acts, email) && Runs(s, acts).Some?
        ensures OwnsNothing(Runs(s, acts).value, email)
      {
        StaysOutForever(s, acts, email);
      }
    }
  }

  lemma RunStepStaysOut(tr: seq<State>, acts: seq<Action>, k: nat, email: Email)
    requires SlotRuns.Run(tr, acts) && k < |acts| && StaysOut(tr[k], email)
    requires acts[k].AddTester? ==> acts[k].email != email
    ensures StaysOut(tr[k + 1], email)
  {
    RunInv(tr, acts, k);
    assert Step(tr[k], acts[k]) == Some(tr[k + 1]);
    StaysOutStep(tr[k], acts[k], email);
  }

  lemma {:induction false} RunStaysOut(tr: seq<State>, acts: seq<Action>, done: nat, k: nat, email: Email)
    requires SlotRuns.Run(tr, acts) && done <= k < |tr| && StaysOut(tr[done], email)
    requires forall m :: done <= m < k && acts[m].AddTester? ==> acts[m].email != email
    ensures StaysOut(tr[k], email)
    decreases k
  {
    if done < k {
      RunStaysOut(tr, acts, done, k - 1, email);
      RunStepStaysOut(tr, acts, k - 1, email);
    }
  }

  /** Once removal and release have finished and no Claim of the email is past its tier lookup, the email owns no slot
      at any later point of the run before it is listed again. */
  lemma RemovedTesterTakesNoSlot(tr: seq<State>, acts: seq<Action>, done: nat, k: nat, email: Email, i: nat)
    requires SlotRuns.Run(tr, acts) && done <= k < |tr| && email !in tr[done].testers && OwnsNothing(tr[done], email)
    requires forall p :: p in tr[done].procs ==> !MayTake(tr[done], tr[done].procs[p], email)
    requires forall m :: done <= m < k && acts[m].AddTester? ==> acts[m].email != email
    ensures !tr[k].Owns(email, i)
  {
    RunStaysOut(tr, acts, done, k, email);
  }
}
