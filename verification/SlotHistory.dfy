/** What the answers, the list of testers and the clock of the registry say about the run that led to them. */
module SlotHistory {
  import opened Options
  import opened SlotProtocol
  import opened SlotRuns

  // ----- A call is about the email it was made for -----

  // A stage of a Claim for this email, or its failure.
  predicate ClaimFor(pr: Proc, email: Email) {
    if pr.Lookup? || pr.Resume? || pr.Touch? || pr.Begin? || pr.ScanFree? || pr.ScanIdle? || pr.Picked? || pr.Written?
       || pr.Entered? || pr.Signed? || pr.NotAuthorized? || pr.Full? || pr.LostRace? then pr.email == email
    else pr.Failed?
  }

  predicate ReleaseFor(pr: Proc, email: Email) {
    if pr.ReleaseStart? || pr.ReleaseUpdate? || pr.Released? then pr.email == email else pr.Failed?
  }

  lemma ClaimKeepsEmail(s: State, p: Pid, email: Email)
    requires p in s.procs && ClaimFor(s.procs[p], email) && AdvanceProc(s, p).Some?
    ensures var s' := AdvanceProc(s, p).value; p in s'.procs && ClaimFor(s'.procs[p], email)
  {}

  lemma ReleaseKeepsEmail(s: State, p: Pid, email: Email)
    requires p in s.procs && ReleaseFor(s.procs[p], email) && AdvanceProc(s, p).Some?
    ensures var s' := AdvanceProc(s, p).value; p in s'.procs && ReleaseFor(s'.procs[p], email)
  {}

  lemma StepKeepsEmail(s: State, a: Action, p: Pid, email: Email)
    requires Step(s, a).Some? && p in s.procs
    ensures p in Step(s, a).value.procs
    ensures ClaimFor(s.procs[p], email) ==> ClaimFor(Step(s, a).value.procs[p], email)
    ensures ReleaseFor(s.procs[p], email) ==> ReleaseFor(Step(s, a).value.procs[p], email)
  {
    if a == Advance(p) {
      if ClaimFor(s.procs[p], email) {
        ClaimKeepsEmail(s, p, email);
      }
      if ReleaseFor(s.procs[p], email) {
        ReleaseKeepsEmail(s, p, email);
      }
    } else if a.Advance? {
      AdvanceTouchesOneCall(s, a.p, p);
    }
  }

  /** Every answer of a Claim or Release is about the email the call was made for. */
  lemma {:induction false} CallsKeepTheirEmail(tr: seq<State>, acts: seq<Action>, m: nat, k: nat, p: Pid, email: Email)
    requires Run(tr, acts) && m < k < |tr|
    ensures acts[m] == Start(p, Lookup(email)) ==> p in tr[k].procs && ClaimFor(tr[k].procs[p], email)
    ensures acts[m] == Start(p, ReleaseStart(email)) ==> p in tr[k].procs && ReleaseFor(tr[k].procs[p], email)
    decreases k
  {
    var n := k - 1;
    assert Step(tr[n], acts[n]) == Some(tr[n + 1]) && k == n + 1;
    if m < n && (acts[m] == Start(p, Lookup(email)) || acts[m] == Start(p, ReleaseStart(email))) {
      CallsKeepTheirEmail(tr, acts, m, n, p, email);
      StepKeepsEmail(tr[n], acts[n], p, email);
    }
  }

  // ----- What a Release reports -----

  // The step ends the Release: it takes the email from a slot it owns, or finds that there is nothing to take.
  ghost predicate Releases(s: State, a: Action, p: Pid, email: Email, changed: bool) {
    && a == Advance(p) && p in s.procs && s.procs[p].ReleaseUpdate? && s.procs[p].email == email
    && Step(s, a).Some? && (changed <==> s.procs[p].target.Some? && s.Owns(email, s.procs[p].target.value))
    && (if changed then Step(s, a).value.rows[..] == s.rows[s.procs[p].target.value := s.rows[s.procs[p].target.value].(owner := None)]
        else Step(s, a).value.rows == s.rows)
  }

  lemma ReleasedStep(s: State, a: Action, p: Pid)
    requires Step(s, a).Some? && p in Step(s, a).value.procs && Step(s, a).value.procs[p].Released?
    ensures var Released(email, changed) := Step(s, a).value.procs[p];
      (p in s.procs && s.procs[p] == Released(email, changed)) || Releases(s, a, p, email, changed)
  {
    var s' := Step(s, a).value;
    if a.Advance? && a.p != p {
      AdvanceTouchesOneCall(s, a.p, p);
    } else if a == Advance(p) {
      ClaimReleasesNothing(s, p);
      UpdateReleases(s, p);
    }
  }

  lemma ClaimReleasesNothing(s: State, p: Pid)
    requires p in s.procs
    ensures ClaimStep(s, p).Some? ==> !ClaimStep(s, p).value.procs[p].Released?
    ensures LoginStep(s, p).Some? ==> !LoginStep(s, p).value.procs[p].Released?
  {}

  lemma UpdateReleases(s: State, p: Pid)
    requires p in s.procs && ReleaseStep(s, p).Some? && ReleaseStep(s, p).value.procs[p].Released?
    ensures var Released(email, changed) := ReleaseStep(s, p).value.procs[p]; Releases(s, Advance(p), p, email, changed)
  {}

  lemma RunReleasedStep(tr: seq<State>, acts: seq<Action>, j: nat, p: Pid)
    requires Run(tr, acts) && j < |acts| && p in tr[j + 1].procs && tr[j + 1].procs[p].Released?
    ensures (p in tr[j].procs && tr[j].procs[p] == tr[j + 1].procs[p])
         || Releases(tr[j], acts[j], p, tr[j + 1].procs[p].email, tr[j + 1].procs[p].changed)
  {
    assert Step(tr[j], acts[j]) == Some(tr[j + 1]);
    ReleasedStep(tr[j], acts[j], p);
  }

  /** A Release that reports a change has taken the email from a slot it owned; one that reports none has changed nothing. */
  lemma {:induction false} ReleaseTellsTheTruth(tr: seq<State>, acts: seq<Action>, k: nat, p: Pid, email: Email, changed: bool)
    returns (j: nat)
    requires Run(tr, acts) && k < |tr| && p in tr[k].procs && tr[k].procs[p] == Released(email, changed)
    ensures j < k && Releases(tr[j], acts[j], p, email, changed)
    decreases k
  {
    assert k > 0;
    j := k - 1;
    RunReleasedStep(tr, acts, j, p);
    if p in tr[j].procs && tr[j].procs[p] == Released(email, changed) {
      j := ReleaseTellsTheTruth(tr, acts, j, p, email, changed);
    }
  }

  // ----- The list and the clock -----

  // Who is listed with what after these actions, if it was `was` before them.
  function Listing(acts: seq<Action>, email: Email, was: Option<Tier>): Option<Tier> {
    if acts == [] then was
    else
      var last := acts[|acts| - 1];
      if last.AddTester? && last.email == email then Some(last.tier)
      else if last.RemoveTester? && last.email == email then None
      else Listing(acts[..|acts| - 1], email, was)
  }

  function Elapsed(acts: seq<Action>): nat {
    if acts == [] then 0 else Elapsed(acts[..|acts| - 1]) + (if acts[|acts| - 1].Tick? then acts[|acts| - 1].seconds else 0)
  }

  function ListedAs(s: State, email: Email): Option<Tier> {
    if email in s.testers then Some(s.testers[email]) else None
  }

  lemma ListStep(s: State, a: Action, email: Email)
    requires Step(s, a).Some?
    ensures ListedAs(Step(s, a).value, email) ==
      if a.AddTester? && a.email == email then Some(a.tier)
      else if a.RemoveTester? && a.email == email then None else ListedAs(s, email)
    ensures Step(s, a).value.now == s.now + if a.Tick? then a.seconds else 0
  {
    if a.Advance? {
      CallsLeaveTheList(s, a.p);
    }
  }

  lemma CallsLeaveTheList(s: State, p: Pid)
    requires p in s.procs && AdvanceProc(s, p).Some?
    ensures AdvanceProc(s, p).value.testers == s.testers && AdvanceProc(s, p).value.now == s.now
  {}

  /** No call changes the list of testers or the clock: an email is listed as it was last added or removed, and the time
      is the time that has passed. */
  lemma {:induction false} ListAndClock(tr: seq<State>, acts: seq<Action>, k: nat, email: Email)
    requires Run(tr, acts) && k < |tr|
    ensures ListedAs(tr[k], email) == Listing(acts[..k], email, ListedAs(tr[0], email))
    ensures tr[k].now == tr[0].now + Elapsed(acts[..k])
    decreases k
  {
    if k > 0 {
      var n := k - 1;
      assert Step(tr[n], acts[n]) == Some(tr[n + 1]) && k == n + 1;
      assert acts[..k][..n] == acts[..n] && acts[..k][n] == acts[n];
      ListAndClock(tr, acts, n, email);
      ListStep(tr[n], acts[n], email);
    }
  }
}
