/** Two runs in which the sandbox registry ends up somewhere its comments do not mention. */
module SlotExamples {
  import opened Options
  import opened SlotProtocol
  import opened SlotRuns

  // A run so far.
  datatype Story = Story(tr: seq<State>, acts: seq<Action>) {
    ghost predicate Valid() {
      Run(tr, acts)
    }

    function Last(): State
      requires |tr| > 0
    {
      tr[|tr| - 1]
    }
  }

  lemma Begins(s: State) returns (st: Story)
    requires Fresh(s)
    ensures st.Valid() && st.Last() == s
  {
    st := Story([s], []);
  }

  lemma Continues(st: Story, a: Action, next: State) returns (st': Story)
    requires st.Valid() && Step(st.Last(), a) == Some(next)
    ensures st'.Valid() && st'.Last() == next
  {
    st' := Story(st.tr + [next], st.acts + [a]);
    forall k | 0 <= k < |st'.acts|
      ensures Step(st'.tr[k], st'.acts[k]) == Some(st'.tr[k + 1])
    {
      if k < |st.acts| {
        assert Step(st.tr[k], st.acts[k]) == Some(st.tr[k + 1]);
      }
    }
  }

  lemma CallStarts(st: Story, p: Pid, call: Proc) returns (st': Story)
    requires st.Valid() && p !in st.Last().procs && (call.Lookup? || call.ReleaseStart? || call.LoginStart?)
    ensures st'.Valid() && st'.Last() == st.Last().Goto(p, call)
  {
    st' := Continues(st, Start(p, call), st.Last().Goto(p, call));
  }

  lemma ClaimLooksUp(st: Story, p: Pid, email: Email, tier: Tier) returns (st': Story)
    requires st.Valid() && p in st.Last().procs && st.Last().procs[p] == Lookup(email)
    requires email in st.Last().testers && st.Last().testers[email] == tier
    ensures st'.Valid() && st'.Last() == st.Last().Goto(p, Resume(email, tier, false))
  {
    st' := Continues(st, Advance(p), st.Last().Goto(p, Resume(email, tier, false)));
  }

  lemma ClaimFindsNothingToResume(st: Story, p: Pid, email: Email, tier: Tier) returns (st': Story)
    requires st.Valid() && p in st.Last().procs && st.Last().procs[p] == Resume(email, tier, false)
    requires forall i: nat :: !st.Last().Owns(email, i)
    ensures st'.Valid() && st'.Last() == st.Last().Goto(p, Begin(email, tier))
  {
    st' := Continues(st, Advance(p), st.Last().Goto(p, Begin(email, tier)));
  }

  lemma ClaimBegins(st: Story, p: Pid, email: Email, tier: Tier) returns (st': Story)
    requires st.Valid() && p in st.Last().procs && st.Last().procs[p] == Begin(email, tier)
    ensures st'.Valid() && st'.Last() == st.Last().Goto(p, ScanFree(email, tier, st.Last().now))
  {
    st' := Continues(st, Advance(p), st.Last().Goto(p, ScanFree(email, tier, st.Last().now)));
  }

  lemma ClaimSeesNothingFree(st: Story, p: Pid, email: Email, tier: Tier, began: int) returns (st': Story)
    requires st.Valid() && p in st.Last().procs && st.Last().procs[p] == ScanFree(email, tier, began)
    requires forall i: nat :: !st.Last().FreeNow(i)
    ensures st'.Valid()
    ensures st'.Last() == st.Last().Goto(p, ScanIdle(email, tier, began, View(st.Last().rows, st.Last().locks.Keys)))
  {
    var s := st.Last();
    st' := Continues(st, Advance(p), s.Goto(p, ScanIdle(email, tier, began, View(s.rows, s.locks.Keys))));
  }

  lemma ClaimGivesUp(st: Story, p: Pid, email: Email, tier: Tier, began: int, seen: View) returns (st': Story)
    requires st.Valid() && p in st.Last().procs && st.Last().procs[p] == ScanIdle(email, tier, began, seen)
    requires forall i: nat :: !st.Last().IdleNow(i, began)
    ensures st'.Valid() && st'.Last() == st.Last().Goto(p, Full(email))
  {
    st' := Continues(st, Advance(p), st.Last().Goto(p, Full(email)));
  }

  lemma ClaimTakesFirstSlot(st: Story, p: Pid, email: Email, tier: Tier, began: int) returns (st': Story)
    requires st.Valid() && p in st.Last().procs && st.Last().procs[p] == ScanFree(email, tier, began)
    requires st.Last().locks == map[] && |st.Last().rows| == 1 && st.Last().rows[0].owner.None?
    ensures st'.Valid() && st'.Last().Owns(email, 0) && st'.Last().testers == st.Last().testers
    ensures forall q :: q in st.Last().procs && q != p ==> q in st'.Last().procs && st'.Last().procs[q] == st.Last().procs[q]
  {
    var s := st.Last();
    assert FirstFree(s, 0) == Some(0);
    var s1 := s.(locks := s.locks[0 := p]).Goto(p, Picked(email, tier, began, 0, Free));
    var st1 := Continues(st, Advance(p), s1);
    st' := PickedCommits(st1, p, email, tier, began);
  }

  lemma PickedCommits(st: Story, p: Pid, email: Email, tier: Tier, began: int) returns (st': Story)
    requires st.Valid() && p in st.Last().procs && st.Last().procs[p] == Picked(email, tier, began, 0, Free)
    requires |st.Last().rows| == 1
    ensures st'.Valid() && st'.Last().Owns(email, 0) && st'.Last().testers == st.Last().testers
    ensures forall q :: q in st.Last().procs && q != p ==> q in st'.Last().procs && st'.Last().procs[q] == st.Last().procs[q]
  {
    var s := st.Last();
    var s1 := s.Goto(p, Written(email, tier, began, 0, Free));
    var st1 := Continues(st, Advance(p), s1);
    var s2 := s1.SetRow(0, Row(Some(email), Some(began), Some(began))).Unlock(0).Goto(p, Entered(email, tier, 0));
    st' := Continues(st1, Advance(p), s2);
  }

  lemma ReleaseLooks(st: Story, p: Pid, email: Email, target: Option<nat>) returns (st': Story)
    requires st.Valid() && p in st.Last().procs && st.Last().procs[p] == ReleaseStart(email)
    requires OwnedSlot(st.Last(), email, 0) == target
    ensures st'.Valid() && st'.Last() == st.Last().Goto(p, ReleaseUpdate(email, target))
  {
    st' := Continues(st, Advance(p), st.Last().Goto(p, ReleaseUpdate(email, target)));
  }

  /** ErrFull can be returned while a slot is free and unlocked: its owner was released between the two scans. */
  lemma FullThoughOneSlotIsFree(owner: Email, caller: Email, limit: nat) returns (tr: seq<State>, acts: seq<Action>)
    requires owner != caller
    ensures Run(tr, acts) && tr[|acts|].FreeNow(0) && 1 in tr[|acts|].procs && tr[|acts|].procs[1] == Full(caller)
  {
    var st := NothingFreeForCaller(owner, caller, limit);
    var began, seen := st.Last().procs[1].began, st.Last().procs[1].seen;
    st := CallStarts(st, 2, ReleaseStart(owner));
    st := ReleaseLooks(st, 2, owner, Some(0));
    var s := st.Last();
    st := Continues(st, Advance(2), s.SetRow(0, s.rows[0].(owner := None)).Goto(2, Released(owner, true)));
    st := ClaimGivesUp(st, 1, caller, TaTier, began, seen);
    tr, acts := st.tr, st.acts;
  }

  lemma NothingFreeForCaller(owner: Email, caller: Email, limit: nat) returns (st: Story)
    requires owner != caller
    ensures st.Valid() && st.Last().rows == [Row(Some(owner), Some(0), Some(0))] && st.Last().locks == map[]
    ensures st.Last().procs.Keys == {1} && st.Last().procs[1] == ScanIdle(caller, TaTier, 0, View(st.Last().rows, {}))
  {
    st := Begins(State([Row(Some(owner), Some(0), Some(0))], map[], map[], map[caller := TaTier], {}, 0, limit));
    st := CallStarts(st, 1, Lookup(caller));
    st := ClaimLooksUp(st, 1, caller, TaTier);
    st := ClaimFindsNothingToResume(st, 1, caller, TaTier);
    st := ClaimBegins(st, 1, caller, TaTier);
    assert st.Last().locks.Keys == {};
    st := ClaimSeesNothingFree(st, 1, caller, TaTier, 0);
  }

  /** Removing a tester and then releasing its slot does not keep the slot in the pool: a Claim whose tier
      lookup came first still takes one, for an email no longer listed. */
  lemma RemovedTesterCanStillTakeASlot(email: Email, limit: nat) returns (tr: seq<State>, acts: seq<Action>)
    ensures Run(tr, acts) && tr[|acts|].Owns(email, 0) && email !in tr[|acts|].testers
    ensures 2 in tr[|acts|].procs && tr[|acts|].procs[2] == Released(email, false)
  {
    var st := RemovedAndReleased(email, limit);
    st := ClaimFindsNothingToResume(st, 1, email, TaTier);
    st := ClaimBegins(st, 1, email, TaTier);
    st := ClaimTakesFirstSlot(st, 1, email, TaTier, 0);
    tr, acts := st.tr, st.acts;
  }

  lemma RemovedAndReleased(email: Email, limit: nat) returns (st: Story)
    ensures st.Valid() && st.Last().rows == [Row(None, None, None)] && st.Last().locks == map[] && st.Last().now == 0
    ensures email !in st.Last().testers
    ensures st.Last().procs == map[1 := Resume(email, TaTier, false), 2 := Released(email, false)]
  {
    st := Begins(State([Row(None, None, None)], map[], map[], map[email := TaTier], {}, 0, limit));
    st := CallStarts(st, 1, Lookup(email));
    st := ClaimLooksUp(st, 1, email, TaTier);
    var s := st.Last();
    st := Continues(st, RemoveTester(email), s.(testers := s.testers - {email}));
    st := CallStarts(st, 2, ReleaseStart(email));
    st := ReleaseLooks(st, 2, email, None);
    st := Continues(st, Advance(2), st.Last().Goto(2, Released(email, false)));
  }
}
