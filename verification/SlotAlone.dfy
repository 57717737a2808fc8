/** One call of the sandbox registry with no other statement in between: what it computes. */
module SlotAlone {
  import opened Options
  import opened SlotProtocol
  import opened SlotRuns

  // The call takes up to n statements, as far as it can.
  function Finish(s: State, p: Pid, n: nat): State
    requires p in s.procs
    decreases n
  {
    if n == 0 || AdvanceProc(s, p).None? || p !in AdvanceProc(s, p).value.procs then s
    else Finish(AdvanceProc(s, p).value, p, n - 1)
  }

  lemma FinishStep(s: State, p: Pid, n: nat, s': State)
    requires p in s.procs && n > 0 && AdvanceProc(s, p) == Some(s') && p in s'.procs
    ensures Finish(s, p, n) == Finish(s', p, n - 1)
  {}

  // ----- Login -----

  lemma LoginVerifies(s: State, p: Pid, i: nat, c: Credential)
    requires p in s.procs && s.procs[p] == LoginStart(i, c)
    ensures AdvanceProc(s, p) == Some(s.Goto(p, if c in s.creds && s.now <= c.expires && c.slot == i then LoginOwner(c) else Denied))
  {}

  lemma LoginReadsOwner(s: State, p: Pid, c: Credential)
    requires p in s.procs && s.procs[p] == LoginOwner(c)
    ensures AdvanceProc(s, p) == Some(s.Goto(p, if s.Owns(c.email, c.slot) then LoginTier(c) else Denied))
  {}

  lemma LoginReadsTier(s: State, p: Pid, c: Credential)
    requires p in s.procs && s.procs[p] == LoginTier(c)
    ensures AdvanceProc(s, p) == Some(s.Goto(p, if c.email in s.testers then Granted(c, s.testers[c.email]) else Denied))
  {}

  lemma DeniedStays(s: State, p: Pid, n: nat)
    requires p in s.procs && s.procs[p] == Denied
    ensures Finish(s, p, n) == s
  {}

  lemma GotoTwice(s: State, p: Pid, a: Proc, b: Proc)
    ensures s.Goto(p, a).Goto(p, b) == s.Goto(p, b)
  {
    assert s.procs[p := a][p := b] == s.procs[p := b];
  }

  // What a login on slot i with credential c must meet.
  predicate MayLogIn(s: State, i: nat, c: Credential) {
    c in s.creds && s.now <= c.expires && c.slot == i && s.Owns(c.email, i) && c.email in s.testers
  }

  /** An undisturbed login on slot i is granted, with the tier listed for its email, exactly when its credential is
      signed, unexpired and for slot i, and its email owns slot i and is listed. Nothing else changes. */
  lemma LoginAlone(s: State, p: Pid, i: nat, c: Credential)
    requires p in s.procs && s.procs[p] == LoginStart(i, c)
    ensures Finish(s, p, 3) == s.Goto(p, if MayLogIn(s, i, c) then Granted(c, s.testers[c.email]) else Denied)
  {
    LoginVerifies(s, p, i, c);
    if c in s.creds && s.now <= c.expires && c.slot == i {
      var s1 := s.Goto(p, LoginOwner(c));
      FinishStep(s, p, 3, s1);
      LoginReadsOwner(s1, p, c);
      if s.Owns(c.email, i) {
        var s2 := s1.Goto(p, LoginTier(c));
        FinishStep(s1, p, 2, s2);
        LoginReadsTier(s2, p, c);
        var s3 := s2.Goto(p, if c.email in s.testers then Granted(c, s.testers[c.email]) else Denied);
        FinishStep(s2, p, 1, s3);
        GotoTwice(s, p, LoginOwner(c), LoginTier(c));
        GotoTwice(s, p, LoginTier(c), s3.procs[p]);
      } else {
        FinishStep(s1, p, 2, s1.Goto(p, Denied));
        DeniedStays(s1.Goto(p, Denied), p, 1);
        GotoTwice(s, p, LoginOwner(c), Denied);
      }
    } else {
      FinishStep(s, p, 3, s.Goto(p, Denied));
      DeniedStays(s.Goto(p, Denied), p, 2);
    }
  }

  // ----- Release -----

  lemma OwnerIsFound(s: State, email: Email, i: nat)
    requires OneSlotEach(s) && s.Owns(email, i)
    ensures OwnedSlot(s, email, 0) == Some(i)
  {}

  lemma ReleaseReadsOwner(s: State, p: Pid, email: Email)
    requires p in s.procs && s.procs[p] == ReleaseStart(email)
    ensures AdvanceProc(s, p) == Some(s.Goto(p, ReleaseUpdate(email, OwnedSlot(s, email, 0))))
  {}

  lemma ReleaseUpdates(s: State, p: Pid, email: Email, i: nat)
    requires p in s.procs && s.procs[p] == ReleaseUpdate(email, Some(i)) && s.Owns(email, i) && i !in s.locks
    ensures AdvanceProc(s, p) == Some(s.SetRow(i, s.rows[i].(owner := None)).Goto(p, Released(email, true)))
  {}

  lemma ReleaseHasNone(s: State, p: Pid, email: Email)
    requires p in s.procs && s.procs[p] == ReleaseUpdate(email, None)
    ensures AdvanceProc(s, p) == Some(s.Goto(p, Released(email, false)))
  {}

  /** An undisturbed Release takes the email from its slot, if that is not locked, and reports that it did. */
  lemma ReleaseAlone(s: State, p: Pid, email: Email, i: nat)
    requires OneSlotEach(s) && p in s.procs && s.procs[p] == ReleaseStart(email) && s.Owns(email, i) && i !in s.locks
    ensures Finish(s, p, 2) == s.SetRow(i, s.rows[i].(owner := None)).Goto(p, Released(email, true))
  {
    OwnerIsFound(s, email, i);
    ReleaseReadsOwner(s, p, email);
    var s1 := s.Goto(p, ReleaseUpdate(email, Some(i)));
    FinishStep(s, p, 2, s1);
    ReleaseUpdates(s1, p, email, i);
    FinishStep(s1, p, 1, s1.SetRow(i, s1.rows[i].(owner := None)).Goto(p, Released(email, true)));
    GotoTwice(s.SetRow(i, s.rows[i].(owner := None)), p, ReleaseUpdate(email, Some(i)), Released(email, true));
  }

  /** Of an email that owns no slot it changes nothing, and says so. */
  lemma ReleaseOfNobody(s: State, p: Pid, email: Email)
    requires p in s.procs && s.procs[p] == ReleaseStart(email) && OwnsNothing(s, email)
    ensures Finish(s, p, 2) == s.Goto(p, Released(email, false))
  {
    ReleaseReadsOwner(s, p, email);
    var s1 := s.Goto(p, ReleaseUpdate(email, None));
    FinishStep(s, p, 2, s1);
    ReleaseHasNone(s1, p, email);
    FinishStep(s1, p, 1, s1.Goto(p, Released(email, false)));
    GotoTwice(s, p, ReleaseUpdate(email, None), Released(email, false));
  }

  // ----- Claim -----

  ghost predicate OwnsNothing(s: State, email: Email) {
    forall i: nat :: !s.Owns(email, i)
  }

  ghost predicate NoneFree(s: State) {
    forall i: nat :: !s.FreeNow(i)
  }

  ghost predicate NoneIdle(s: State, began: int) {
    forall i: nat :: !s.IdleNow(i, began)
  }

  predicate LowestFree(s: State, i: nat) {
    s.FreeNow(i) && forall j: nat :: j < i ==> !s.FreeNow(j)
  }

  // Slot m is idle and unlocked, and no other such slot has been quiet for longer.
  predicate LongestIdle(s: State, m: nat, began: int) {
    && s.IdleNow(m, began)
    && forall j: nat :: j < |s.rows| && s.IdleNow(j, began) ==> s.rows[m].Activity().value <= s.rows[j].Activity().value
  }

  // No transaction in flight writes another slot than i, and the email owns none.
  predicate Unopposed(s: State, email: Email, i: nat) {
    forall j: nat :: j < |s.rows| ==> s.rows[j].owner != Some(email) && (j != i ==> !s.Uncommitted(j))
  }

  lemma OwnsNothingStays(s: State, p: Pid, pr: Proc, email: Email)
    requires OwnsNothing(s, email)
    ensures OwnsNothing(s.Goto(p, pr), email)
  {
    forall i: nat ensures !s.Goto(p, pr).Owns(email, i) { assert !s.Owns(email, i); }
  }

  lemma NoneFreeStays(s: State, p: Pid, pr: Proc)
    requires NoneFree(s)
    ensures NoneFree(s.Goto(p, pr))
  {
    forall i: nat ensures !s.Goto(p, pr).FreeNow(i) { assert !s.FreeNow(i); }
  }

  lemma NoneIdleStays(s: State, p: Pid, pr: Proc, began: int)
    requires NoneIdle(s, began)
    ensures NoneIdle(s.Goto(p, pr), began)
  {
    forall i: nat ensures !s.Goto(p, pr).IdleNow(i, began) { assert !s.IdleNow(i, began); }
  }

  lemma LowestFreeStays(s: State, p: Pid, pr: Proc, i: nat)
    requires LowestFree(s, i)
    ensures LowestFree(s.Goto(p, pr), i)
  {
    forall j: nat | j < i ensures !s.Goto(p, pr).FreeNow(j) { assert !s.FreeNow(j); }
  }

  lemma LongestIdleStays(s: State, p: Pid, pr: Proc, m: nat, began: int)
    ensures LongestIdle(s.Goto(p, pr), m, began) <==> LongestIdle(s, m, began)
  {
    assert s.Goto(p, pr).rows == s.rows;
    forall j: nat ensures s.Goto(p, pr).IdleNow(j, began) == s.IdleNow(j, began) {}
  }

  /** A Claim of an email that is not listed is turned away at once. */
  lemma ClaimOfUnlisted(s: State, p: Pid, email: Email)
    requires p in s.procs && s.procs[p] == Lookup(email) && email !in s.testers
    ensures AdvanceProc(s, p) == Some(s.Goto(p, NotAuthorized(email)))
  {}

  lemma ClaimIsListed(s: State, p: Pid, email: Email)
    requires p in s.procs && s.procs[p] == Lookup(email) && email in s.testers
    ensures AdvanceProc(s, p) == Some(s.Goto(p, Resume(email, s.testers[email], false)))
  {}

  lemma ClaimResumes(s: State, p: Pid, email: Email, tier: Tier, i: nat)
    requires OneSlotEach(s) && p in s.procs && s.procs[p] == Resume(email, tier, false) && s.Owns(email, i)
    ensures AdvanceProc(s, p) == Some(s.Goto(p, Touch(email, tier, i)))
  {
    OwnerIsFound(s, email, i);
  }

  lemma ClaimTouches(s: State, p: Pid, email: Email, tier: Tier, i: nat)
    requires p in s.procs && s.procs[p] == Touch(email, tier, i) && i < |s.rows| && i !in s.locks
    ensures AdvanceProc(s, p) == Some(s.SetRow(i, s.rows[i].(lastActive := Some(s.now))).Goto(p, Entered(email, tier, i)))
  {}

  lemma ClaimSigns(s: State, p: Pid, email: Email, tier: Tier, i: nat)
    requires p in s.procs && s.procs[p] == Entered(email, tier, i)
    ensures AdvanceProc(s, p) == Some(s.(creds := s.creds + {Credential(i, email, s.now + CLAIM_TTL)}).Goto(p, Signed(email, i)))
  {}

  // The Claim is answered with slot i, whose row is now `row`.
  function Answered(s: State, p: Pid, email: Email, i: nat, row: Row): State {
    s.SetRow(i, row).(creds := s.creds + {Credential(i, email, s.now + 12 * 3600)}).Goto(p, Signed(email, i))
  }

  lemma SignsAnswer(s: State, s': State, p: Pid, email: Email, tier: Tier, i: nat, row: Row)
    requires p in s.procs && s' == s.SetRow(i, row).Goto(p, Entered(email, tier, i))
    ensures p in s'.procs && Finish(s', p, 1) == Answered(s, p, email, i, row)
  {
    ClaimSigns(s', p, email, tier, i);
    FinishStep(s', p, 1, s'.(creds := s'.creds + {Credential(i, email, s'.now + CLAIM_TTL)}).Goto(p, Signed(email, i)));
    assert s'.procs[p := Signed(email, i)] == s.procs[p := Signed(email, i)];
  }

  /** An undisturbed Claim of a listed email that owns slot i resumes it: the row is only marked as active, and a credential
      for that slot is signed for 12 hours. */
  lemma ClaimOfOwner(s: State, p: Pid, email: Email, i: nat)
    requires OneSlotEach(s) && p in s.procs && s.procs[p] == Lookup(email) && email in s.testers
    requires s.Owns(email, i) && i !in s.locks
    ensures Finish(s, p, 4) == Answered(s, p, email, i, s.rows[i].(lastActive := Some(s.now)))
  {
    var tier := s.testers[email];
    ClaimIsListed(s, p, email);
    var s1 := s.Goto(p, Resume(email, tier, false));
    FinishStep(s, p, 4, s1);
    ClaimResumes(s1, p, email, tier, i);
    var s2 := s.Goto(p, Touch(email, tier, i));
    GotoTwice(s, p, Resume(email, tier, false), Touch(email, tier, i));
    FinishStep(s1, p, 3, s2);
    ClaimTouches(s2, p, email, tier, i);
    var row := s.rows[i].(lastActive := Some(s.now));
    GotoTwice(s.SetRow(i, row), p, Touch(email, tier, i), Entered(email, tier, i));
    FinishStep(s2, p, 2, s.SetRow(i, row).Goto(p, Entered(email, tier, i)));
    SignsAnswer(s, s.SetRow(i, row).Goto(p, Entered(email, tier, i)), p, email, tier, i, row);
  }

  lemma OwnerIsResumed(s: State, p: Pid, email: Email, i: nat)
    requires OneSlotEach(s) && p in s.procs && s.procs[p] == Lookup(email) && email in s.testers && s.Owns(email, i)
    ensures Finish(s, p, 2) == s.Goto(p, Touch(email, s.testers[email], i))
  {
    var tier := s.testers[email];
    ClaimIsListed(s, p, email);
    var s1 := s.Goto(p, Resume(email, tier, false));
    FinishStep(s, p, 2, s1);
    ClaimResumes(s1, p, email, tier, i);
    GotoTwice(s, p, Resume(email, tier, false), Touch(email, tier, i));
    FinishStep(s1, p, 1, s.Goto(p, Touch(email, tier, i)));
  }

  lemma MarkIsSkipped(s: State, p: Pid, email: Email, tier: Tier, i: nat)
    requires p in s.procs
    ensures Step(s.Goto(p, Touch(email, tier, i)), SkipTouch(p)) == Some(s.Goto(p, Entered(email, tier, i)))
  {
    GotoTwice(s, p, Touch(email, tier, i), Entered(email, tier, i));
  }

  /** It is answered just the same when the activity mark fails: only that mark is missing. */
  lemma ClaimWithoutMark(s: State, p: Pid, email: Email, i: nat) returns (s2: State)
    requires OneSlotEach(s) && p in s.procs && s.procs[p] == Lookup(email) && email in s.testers && s.Owns(email, i)
    ensures Step(Finish(s, p, 2), SkipTouch(p)) == Some(s2)
    ensures p in s2.procs && Finish(s2, p, 1) == Answered(s, p, email, i, s.rows[i])
  {
    var tier := s.testers[email];
    OwnerIsResumed(s, p, email, i);
    MarkIsSkipped(s, p, email, tier, i);
    s2 := s.Goto(p, Entered(email, tier, i));
    assert s.SetRow(i, s.rows[i]) == s;
    SignsAnswer(s, s2, p, email, tier, i, s.rows[i]);
  }

  lemma ClaimHasNothing(s: State, p: Pid, email: Email, tier: Tier)
    requires p in s.procs && s.procs[p] == Resume(email, tier, false) && OwnsNothing(s, email)
    ensures AdvanceProc(s, p) == Some(s.Goto(p, Begin(email, tier)))
  {}

  lemma ClaimBegins(s: State, p: Pid, email: Email, tier: Tier)
    requires p in s.procs && s.procs[p] == Begin(email, tier)
    ensures AdvanceProc(s, p) == Some(s.Goto(p, ScanFree(email, tier, s.now)))
  {}

  // Up to the scan for a free slot.
  lemma ClaimOfNewcomer(s: State, p: Pid, email: Email, n: nat)
    requires p in s.procs && s.procs[p] == Lookup(email) && email in s.testers && OwnsNothing(s, email)
    ensures p in s.Goto(p, ScanFree(email, s.testers[email], s.now)).procs
    ensures Finish(s, p, n + 3) == Finish(s.Goto(p, ScanFree(email, s.testers[email], s.now)), p, n)
  {
    var tier := s.testers[email];
    ClaimIsListed(s, p, email);
    var s1 := s.Goto(p, Resume(email, tier, false));
    FinishStep(s, p, n + 3, s1);
    OwnsNothingStays(s, p, Resume(email, tier, false), email);
    ClaimHasNothing(s1, p, email, tier);
    var s2 := s.Goto(p, Begin(email, tier));
    GotoTwice(s, p, Resume(email, tier, false), Begin(email, tier));
    FinishStep(s1, p, n + 2, s2);
    ClaimBegins(s2, p, email, tier);
    GotoTwice(s, p, Begin(email, tier), ScanFree(email, tier, s.now));
    FinishStep(s2, p, n + 1, s.Goto(p, ScanFree(email, tier, s.now)));
  }

  lemma LowestIsFirst(s: State, i: nat)
    requires LowestFree(s, i)
    ensures FirstFree(s, 0) == Some(i)
  {}

  lemma ClaimPicks(s: State, p: Pid, email: Email, tier: Tier, began: int, i: nat)
    requires p in s.procs && s.procs[p] == ScanFree(email, tier, began)
    requires LowestFree(s, i)
    ensures AdvanceProc(s, p) == Some(s.(locks := s.locks[i := p]).Goto(p, Picked(email, tier, began, i, Free)))
  {
    LowestIsFirst(s, i);
  }

  lemma ClaimWrites(s: State, p: Pid, email: Email, tier: Tier, began: int, i: nat, pick: Pick)
    requires p in s.procs && s.procs[p] == Picked(email, tier, began, i, pick) && Unopposed(s, email, i)
    ensures AdvanceProc(s, p) == Some(s.Goto(p, Written(email, tier, began, i, pick)))
  {}

  lemma ClaimCommits(s: State, p: Pid, email: Email, tier: Tier, began: int, i: nat, pick: Pick)
    requires p in s.procs && s.procs[p] == Written(email, tier, began, i, pick)
    ensures AdvanceProc(s, p)
         == Some(s.SetRow(i, Row(Some(email), Some(began), Some(began))).Unlock(i).Goto(p, Entered(email, tier, i)))
  {}

  lemma OthersStillApart(s: State, s': State, p: Pid, pr: Proc, email: Email, i: nat)
    requires Unopposed(s, email, i) && s' == s.(locks := s.locks[i := p]).Goto(p, pr) && !pr.Written?
    ensures Unopposed(s', email, i)
  {
    forall j: nat | j < |s.rows|
      ensures s'.rows[j].owner != Some(email) && (j != i ==> !s'.Uncommitted(j))
    {
      assert s.rows[j].owner != Some(email) && (j != i ==> !s.Uncommitted(j));
    }
  }

  lemma UnlockedAgain(s: State, i: nat, p: Pid, pr: Proc, row: Row)
    requires i !in s.locks && i < |s.rows|
    ensures s.(locks := s.locks[i := p]).Goto(p, pr).SetRow(i, row).Unlock(i) == s.SetRow(i, row).Goto(p, pr)
  {
    assert s.locks[i := p] - {i} == s.locks;
  }

  /** A Claim that has picked slot i, free or idle, ends with the slot owned, claimed and active as of its beginning, the
      lock gone and a credential signed. */
  lemma PickIsTaken(s: State, s': State, p: Pid, email: Email, tier: Tier, began: int, i: nat, pick: Pick)
    requires i !in s.locks && i < |s.rows| && Unopposed(s, email, i) && p in s.procs
    requires s' == s.(locks := s.locks[i := p]).Goto(p, Picked(email, tier, began, i, pick))
    ensures p in s'.procs && Finish(s', p, 3) == Answered(s, p, email, i, Row(Some(email), Some(began), Some(began)))
  {
    var row := Row(Some(email), Some(began), Some(began));
    var written, entered := Written(email, tier, began, i, pick), Entered(email, tier, i);
    OthersStillApart(s, s', p, Picked(email, tier, began, i, pick), email, i);
    ClaimWrites(s', p, email, tier, began, i, pick);
    var locked := s.(locks := s.locks[i := p]);
    GotoTwice(locked, p, Picked(email, tier, began, i, pick), written);
    var s1 := locked.Goto(p, written);
    FinishStep(s', p, 3, s1);
    ClaimCommits(s1, p, email, tier, began, i, pick);
    UnlockedAgain(s, i, p, written, row);
    GotoTwice(s.SetRow(i, row), p, written, entered);
    var s2 := s.SetRow(i, row).Goto(p, entered);
    FinishStep(s1, p, 2, s2);
    SignsAnswer(s, s2, p, email, tier, i, row);
  }

  /** An undisturbed Claim of a listed email without a slot takes the lowest free slot. */
  lemma ClaimOfFreeSlot(s: State, p: Pid, email: Email, i: nat)
    requires p in s.procs && s.procs[p] == Lookup(email) && email in s.testers && OwnsNothing(s, email)
    requires LowestFree(s, i) && Unopposed(s, email, i)
    ensures Finish(s, p, 7) == Answered(s, p, email, i, Row(Some(email), Some(s.now), Some(s.now)))
  {
    var tier := s.testers[email];
    ClaimOfNewcomer(s, p, email, 4);
    var s1 := s.Goto(p, ScanFree(email, tier, s.now));
    LowestFreeStays(s, p, ScanFree(email, tier, s.now), i);
    ClaimPicks(s1, p, email, tier, s.now, i);
    var s2 := s.(locks := s.locks[i := p]).Goto(p, Picked(email, tier, s.now, i, Free));
    GotoTwice(s.(locks := s.locks[i := p]), p, ScanFree(email, tier, s.now), Picked(email, tier, s.now, i, Free));
    FinishStep(s1, p, 4, s2);
    PickIsTaken(s, s2, p, email, tier, s.now, i, Free);
  }

  lemma ClaimSeesNoneFree(s: State, p: Pid, email: Email, tier: Tier, began: int)
    requires p in s.procs && s.procs[p] == ScanFree(email, tier, began) && NoneFree(s)
    ensures AdvanceProc(s, p) == Some(s.Goto(p, ScanIdle(email, tier, began, View(s.rows, s.locks.Keys))))
  {}

  lemma ClaimSeesNoneIdle(s: State, p: Pid, email: Email, tier: Tier, began: int, seen: View)
    requires p in s.procs && s.procs[p] == ScanIdle(email, tier, began, seen) && NoneIdle(s, began)
    ensures AdvanceProc(s, p) == Some(s.Goto(p, Full(email)))
  {}

  // Up to the scan for an idle slot.
  lemma ClaimWithNoneFree(s: State, p: Pid, email: Email, n: nat)
    requires p in s.procs && s.procs[p] == Lookup(email) && email in s.testers && OwnsNothing(s, email)
    requires NoneFree(s)
    ensures var s' := s.Goto(p, ScanIdle(email, s.testers[email], s.now, View(s.rows, s.locks.Keys)));
      p in s'.procs && Finish(s, p, n + 4) == Finish(s', p, n)
  {
    var tier := s.testers[email];
    ClaimOfNewcomer(s, p, email, n + 1);
    var s1 := s.Goto(p, ScanFree(email, tier, s.now));
    NoneFreeStays(s, p, ScanFree(email, tier, s.now));
    ClaimSeesNoneFree(s1, p, email, tier, s.now);
    GotoTwice(s, p, ScanFree(email, tier, s.now), ScanIdle(email, tier, s.now, View(s.rows, s.locks.Keys)));
    FinishStep(s1, p, n + 1, s.Goto(p, ScanIdle(email, tier, s.now, View(s.rows, s.locks.Keys))));
  }

  /** With nothing free and nothing idle it is told that all slots are taken, and changes nothing. */
  lemma ClaimOfFullHouse(s: State, p: Pid, email: Email)
    requires p in s.procs && s.procs[p] == Lookup(email) && email in s.testers && OwnsNothing(s, email)
    requires NoneFree(s) && NoneIdle(s, s.now)
    ensures Finish(s, p, 5) == s.Goto(p, Full(email))
  {
    var tier, seen := s.testers[email], View(s.rows, s.locks.Keys);
    ClaimWithNoneFree(s, p, email, 1);
    var s1 := s.Goto(p, ScanIdle(email, tier, s.now, seen));
    NoneIdleStays(s, p, ScanIdle(email, tier, s.now, seen), s.now);
    ClaimSeesNoneIdle(s1, p, email, tier, s.now, seen);
    GotoTwice(s, p, ScanIdle(email, tier, s.now, seen), Full(email));
    FinishStep(s1, p, 1, s.Goto(p, Full(email)));
  }

  lemma TakesLongestIdle(s: State, p: Pid, email: Email, tier: Tier, began: int, seen: View, m: nat)
    requires p in s.procs && s.procs[p] == ScanIdle(email, tier, began, seen)
    ensures Step(s, TakeIdle(p, m)) ==
      if LongestIdle(s, m, began) then Some(s.(locks := s.locks[m := p]).Goto(p, Picked(email, tier, began, m, Reclaim(seen)))) else None
  {}

  lemma IdleIsTaken(s: State, s2: State, p: Pid, email: Email, tier: Tier, seen: View, m: nat)
    requires p in s.procs && m < |s.rows| && m !in s.locks && Unopposed(s, email, m)
    requires s2 == s.Goto(p, ScanIdle(email, tier, s.now, seen)).(locks := s.locks[m := p]).Goto(p, Picked(email, tier, s.now, m, Reclaim(seen)))
    ensures p in s2.procs && Finish(s2, p, 3) == Answered(s, p, email, m, Row(Some(email), Some(s.now), Some(s.now)))
  {
    var picked := Picked(email, tier, s.now, m, Reclaim(seen));
    GotoTwice(s.(locks := s.locks[m := p]), p, ScanIdle(email, tier, s.now, seen), picked);
    PickIsTaken(s, s2, p, email, tier, s.now, m, Reclaim(seen));
  }

  lemma ScanMayTake(s: State, s1: State, p: Pid, email: Email, tier: Tier, seen: View, m: nat)
    requires p in s.procs && s1 == s.Goto(p, ScanIdle(email, tier, s.now, seen)) && Unopposed(s, email, m)
    ensures Step(s1, TakeIdle(p, m)).Some? <==> LongestIdle(s, m, s.now)
    ensures LongestIdle(s, m, s.now) ==>
      var s2 := Step(s1, TakeIdle(p, m)).value;
      p in s2.procs && Finish(s2, p, 3) == Answered(s, p, email, m, Row(Some(email), Some(s.now), Some(s.now)))
  {
    LongestIdleStays(s, p, ScanIdle(email, tier, s.now, seen), m, s.now);
    TakesLongestIdle(s1, p, email, tier, s.now, seen, m);
    if LongestIdle(s, m, s.now) {
      IdleIsTaken(s, Step(s1, TakeIdle(p, m)).value, p, email, tier, seen, m);
    }
  }

  /** With nothing free it may take slot m exactly if m is idle, unlocked and the longest idle; its owner is replaced. */
  lemma ClaimOfIdleSlot(s: State, p: Pid, email: Email, m: nat) returns (s1: State)
    requires p in s.procs && s.procs[p] == Lookup(email) && email in s.testers && OwnsNothing(s, email)
    requires NoneFree(s) && Unopposed(s, email, m)
    ensures s1 == Finish(s, p, 4) && (Step(s1, TakeIdle(p, m)).Some? <==> LongestIdle(s, m, s.now))
    ensures LongestIdle(s, m, s.now) ==>
      var s2 := Step(s1, TakeIdle(p, m)).value;
      p in s2.procs && Finish(s2, p, 3) == Answered(s, p, email, m, Row(Some(email), Some(s.now), Some(s.now)))
  {
    var tier, seen := s.testers[email], View(s.rows, s.locks.Keys);
    ClaimWithNoneFree(s, p, email, 0);
    s1 := s.Goto(p, ScanIdle(email, tier, s.now, seen));
    ScanMayTake(s, s1, p, email, tier, seen, m);
  }
}
