/** AccountGuard: the session gate every protected request passes, and the two forced flows. */
module AccountGuard {
  import opened Options
  import opened Text

  // ----- The session, with requests in flight -----

  const IDLE_TIMEOUT: int := 15 * 60
  const KEPT_FOR: int := 7 * 24 * 3600
  type Id = nat

  datatype Reason = Superseded | IdleTimedOut | OtherReason
  datatype Session = Session(revoked: Option<Reason>, lastActivity: int, expiresAt: int)
  datatype Verdict = Accept | SessionRevoked | SessionSuperseded | SessionIdle

  // The switch on the session row joined to the request.
  function Judge(row: Option<Session>, now: int): Verdict {
    if row.None? then SessionRevoked
    else if row.value.revoked == Some(Superseded) then SessionSuperseded
    else if row.value.revoked.Some? then SessionRevoked
    else if now - row.value.lastActivity > IDLE_TIMEOUT then SessionIdle
    else Accept
  }

  /** One request on the session. `mutating`: neither GET nor HEAD, and not stopped by a forced flow. */
  datatype Request =
    | Arrived(mutating: bool)
    | Accepted              // about to Touch
    | FoundIdle             // about to MarkIdle
    | Finished(verdict: Verdict)

  datatype State = State(row: Option<Session>, now: int, requests: map<Id, Request>)

  datatype Action =
    | Tick(seconds: nat)
    | Arrive(id: Id, mutating: bool)
    | Next(id: Id)
    // the best-effort MarkIdle fails
    | MarkFails(id: Id)
    // Touch fails, and the request with it
    | TouchFails(id: Id)
    // logout, another login, password change, deactivation, role edit
    | Revoke(reason: Reason)
    // the daily sweep
    | Cleanup

  // Revoked or past its expiry, and last touched over a week ago.
  predicate Swept(session: Session, now: int) {
    (session.revoked.Some? || session.expiresAt < now) && session.lastActivity < now - KEPT_FOR
  }

  function Step(s: State, a: Action): State {
    match a
    case Tick(d) => s.(now := s.now + d)
    case Arrive(id, mutating) => if id in s.requests then s else s.(requests := s.requests[id := Arrived(mutating)])
    case Revoke(reason) =>
      if s.row.Some? && s.row.value.revoked.None? then s.(row := Some(s.row.value.(revoked := Some(reason)))) else s
    case Cleanup => if s.row.Some? && Swept(s.row.value, s.now) then s.(row := None) else s
    case MarkFails(id) =>
      if id in s.requests && s.requests[id].FoundIdle? then s.(requests := s.requests[id := Finished(SessionIdle)]) else s
    case TouchFails(id) =>
      if id in s.requests && s.requests[id].Accepted? then s.(requests := s.requests[id := Finished(Accept)]) else s
    case Next(id) =>
      if id !in s.requests then s
      else
        match s.requests[id]
        case Arrived(mutating) =>
          var v := Judge(s.row, s.now);
          s.(requests := s.requests[id := if v == SessionIdle then FoundIdle
                                          else if v == Accept && mutating then Accepted else Finished(v)])
        case Accepted =>
          s.(row := if s.row.Some? then Some(s.row.value.(lastActivity := s.now)) else None,
             requests := s.requests[id := Finished(Accept)])
        case FoundIdle =>
          s.(row := if s.row.Some? && s.row.value.revoked.None? then Some(s.row.value.(revoked := Some(IdleTimedOut))) else s.row,
             requests := s.requests[id := Finished(SessionIdle)])
        case Finished(_) => s
  }

  function Run(s: State, acts: seq<Action>): State
    decreases |acts|
  {
    if acts == [] then s else Run(Step(s, acts[0]), acts[1..])
  }

  ghost predicate Dead(s: State) {
    s.row.None? || s.row.value.revoked.Some?
  }

  /** Revocation is final: once a session is revoked or gone, no request judged later is accepted, and as long as the row
      is there the answer keeps giving the first reason. */
  lemma {:induction false} RevokedForever(s: State, acts: seq<Action>)
    requires Dead(s)
    ensures Dead(Run(s, acts)) && Judge(Run(s, acts).row, Run(s, acts).now) in {SessionRevoked, SessionSuperseded}
    ensures Run(s, acts).row.Some? ==> s.row.Some? && Judge(Run(s, acts).row, Run(s, acts).now) == Judge(s.row, s.now)
    decreases |acts|
  {
    if acts != [] {
      RevokedForever(Step(s, acts[0]), acts[1..]);
    }
  }

  /** The reason given first is the one every later request is told: a session another login took over says so. */
  lemma ReasonIsKept(s: State, reason: Reason, acts: seq<Action>)
    requires !Dead(s)
    ensures var s' := Run(Step(s, Revoke(reason)), acts);
      s'.row.Some? ==> Judge(s'.row, s'.now) == if reason == Superseded then SessionSuperseded else SessionRevoked
  {
    RevokedForever(Step(s, Revoke(reason)), acts);
  }

  // No request is between being accepted and moving the activity clock.
  ghost predicate NoTouchPending(s: State) {
    forall id :: id in s.requests ==> !s.requests[id].Accepted?
  }

  ghost predicate Expired(s: State) {
    Judge(s.row, s.now) != Accept
  }

  lemma ExpiredStep(s: State, a: Action)
    requires Expired(s) && NoTouchPending(s)
    ensures Expired(Step(s, a)) && NoTouchPending(Step(s, a))
  {}

  /** An idle session stays rejected as well, provided no request accepted before still has its Touch to come. */
  lemma {:induction false} IdleForever(s: State, acts: seq<Action>)
    requires Expired(s) && NoTouchPending(s)
    ensures Expired(Run(s, acts))
    decreases |acts|
  {
    if acts != [] {
      ExpiredStep(s, acts[0]);
      IdleForever(Step(s, acts[0]), acts[1..]);
    }
  }

  lemma TouchRevives(s: State, id: Id)
    requires s.row.Some? && s.row.value.revoked.None? && id in s.requests && s.requests[id].Accepted?
    ensures !Expired(Run(s, [Next(id)]))
  {
    assert Run(s, [Next(id)]) == Run(Step(s, Next(id)), []);
  }

  /** The proviso is exact. From an idle session with a Touch to come, some continuation is accepted again; without
      one, none is. */
  lemma IdleStaysRejectedIff(s: State)
    requires Judge(s.row, s.now) == SessionIdle
    ensures (forall acts :: Expired(Run(s, acts))) <==> NoTouchPending(s)
  {
    if NoTouchPending(s) {
      forall acts
        ensures Expired(Run(s, acts))
      {
        IdleForever(s, acts);
      }
    } else {
      var id :| id in s.requests && s.requests[id].Accepted?;
      TouchRevives(s, id);
      assert !Expired(Run(s, [Next(id)]));
    }
  }

  // ----- The activity clock -----

  lemma {:induction false} RunOneMore(s: State, acts: seq<Action>, a: Action)
    ensures Run(s, acts + [a]) == Step(Run(s, acts), a)
    decreases |acts|
  {
    if acts == [] {
      assert [a][1..] == [];
      assert acts + [a] == [a];
      assert Run(Step(s, a), []) == Step(s, a);
    } else {
      assert (acts + [a])[0] == acts[0] && (acts + [a])[1..] == acts[1..] + [a];
      RunOneMore(Step(s, acts[0]), acts[1..], a);
    }
  }

  lemma RunTo(s: State, acts: seq<Action>, k: nat)
    requires k < |acts|
    ensures Run(s, acts[..k + 1]) == Step(Run(s, acts[..k]), acts[k])
  {
    assert acts[..k + 1] == acts[..k] + [acts[k]];
    RunOneMore(s, acts[..k], acts[k]);
  }

  // The i-th action is the arrival of request id.
  predicate ArrivesAt(s: State, acts: seq<Action>, i: nat, id: Id, mutating: bool) {
    i < |acts| && acts[i] == Arrive(id, mutating) && id !in Run(s, acts[..i]).requests
  }

  // The j-th action is the judgement of request id, and it is accepted.
  predicate AcceptedAt(s: State, acts: seq<Action>, j: nat, id: Id) {
    j < |acts| && acts[j] == Next(id) && Judge(Run(s, acts[..j]).row, Run(s, acts[..j]).now) == Accept
  }

  ghost predicate Traced(s: State, acts: seq<Action>, n: nat, id: Id, r: Request) {
    match r
    case Arrived(mutating) => exists i: nat :: i < n && ArrivesAt(s, acts, i, id, mutating)
    case Accepted => exists i: nat, j: nat :: i < j < n && ArrivesAt(s, acts, i, id, true) && AcceptedAt(s, acts, j, id)
    case _ => true
  }

  lemma TracedLater(s: State, acts: seq<Action>, n: nat, id: Id, r: Request)
    requires Traced(s, acts, n, id, r)
    ensures Traced(s, acts, n + 1, id, r)
  {}

  lemma TracedStep(s: State, acts: seq<Action>, n: nat, id: Id)
    requires n < |acts| && id in Step(Run(s, acts[..n]), acts[n]).requests
    requires id in Run(s, acts[..n]).requests ==> Traced(s, acts, n, id, Run(s, acts[..n]).requests[id])
    ensures Traced(s, acts, n + 1, id, Step(Run(s, acts[..n]), acts[n]).requests[id])
  {
    var before, r := Run(s, acts[..n]), Step(Run(s, acts[..n]), acts[n]).requests[id];
    if id in before.requests && r == before.requests[id] {
      TracedLater(s, acts, n, id, r);
    } else if r.Arrived? {
      assert ArrivesAt(s, acts, n, id, r.mutating);
    } else if r.Accepted? {
      var i: nat :| i < n && ArrivesAt(s, acts, i, id, true);
      assert AcceptedAt(s, acts, n, id);
    }
  }

  lemma {:induction false} AllTraced(s: State, acts: seq<Action>, n: nat, id: Id)
    requires s.requests == map[] && n <= |acts| && id in Run(s, acts[..n]).requests
    ensures Traced(s, acts, n, id, Run(s, acts[..n]).requests[id])
    decreases n
  {
    assert acts[..0] == [];
    if n > 0 {
      var m := n - 1;
      RunTo(s, acts, m);
      if id in Run(s, acts[..m]).requests {
        AllTraced(s, acts, m, id);
      }
      TracedStep(s, acts, m, id);
    }
  }

  /** A GET or HEAD never touches the session, and neither does a request that was not accepted: whoever is about to move
      the clock arrived as a mutating request and was accepted after that. */
  lemma OnlyAcceptedWritesTouch(s: State, acts: seq<Action>, id: Id) returns (i: nat, j: nat)
    requires s.requests == map[] && id in Run(s, acts).requests && Run(s, acts).requests[id].Accepted?
    ensures i < j && ArrivesAt(s, acts, i, id, true) && AcceptedAt(s, acts, j, id)
  {
    assert acts[..|acts|] == acts;
    AllTraced(s, acts, |acts|, id);
    i, j :| i < j < |acts| && ArrivesAt(s, acts, i, id, true) && AcceptedAt(s, acts, j, id);
  }

  /** So a request that arrived as GET or HEAD, or is done, never gets to update the session, whatever else goes on. */
  lemma {:induction false} ReadNeverTouches(s: State, acts: seq<Action>, id: Id)
    requires id in s.requests && s.requests[id] != Arrived(true) && !s.requests[id].Accepted?
    ensures id in Run(s, acts).requests && !Run(s, acts).requests[id].Accepted?
    decreases |acts|
  {
    if acts != [] {
      ReadNeverTouches(Step(s, acts[0]), acts[1..], id);
    }
  }

  // What the row says the last activity was, if there is a row.
  function Clock(s: State): Option<int> {
    if s.row.Some? then Some(s.row.value.lastActivity) else None
  }

  lemma ClockStep(s: State, a: Action)
    ensures Clock(Step(s, a)) != Clock(s) && Step(s, a).row.Some? ==>
      a.Next? && a.id in s.requests && s.requests[a.id].Accepted? && Clock(Step(s, a)) == Some(s.now)
    ensures Step(s, a).row.Some? ==> s.row.Some?
  {}

  lemma {:induction false} LastMove(s: State, acts: seq<Action>, n: nat) returns (k: nat, id: Id)
    requires n <= |acts| && Run(s, acts[..n]).row.Some? && Clock(Run(s, acts[..n])) != Clock(s)
    ensures k < n && acts[k] == Next(id) && id in Run(s, acts[..k]).requests && Run(s, acts[..k]).requests[id].Accepted?
    ensures Clock(Run(s, acts[..n])) == Some(Run(s, acts[..k]).now)
    decreases n
  {
    assert acts[..0] == [];
    var m := n - 1;
    RunTo(s, acts, m);
    ClockStep(Run(s, acts[..m]), acts[m]);
    if Clock(Run(s, acts[..n])) == Clock(Run(s, acts[..m])) {
      k, id := LastMove(s, acts, m);
    } else {
      k, id := m, acts[m].id;
    }
  }

  /** Over every run the clock moves only by requests that arrived as mutating, were accepted later, and then stamped the
      time of their update. */
  lemma ClockHasACause(s: State, acts: seq<Action>) returns (i: nat, j: nat, k: nat, id: Id)
    requires s.requests == map[] && Run(s, acts).row.Some? && Clock(Run(s, acts)) != Clock(s)
    ensures i < j < k < |acts| && ArrivesAt(s, acts, i, id, true) && AcceptedAt(s, acts, j, id) && acts[k] == Next(id)
    ensures Clock(Run(s, acts)) == Some(Run(s, acts[..k]).now)
  {
    assert acts[..|acts|] == acts;
    k, id := LastMove(s, acts, |acts|);
    AllTraced(s, acts, k, id);
    i, j :| i < j < k && ArrivesAt(s, acts, i, id, true) && AcceptedAt(s, acts, j, id);
  }

  // Nothing that could move the clock is on its way.
  ghost predicate OnlyReaders(s: State) {
    forall id :: id in s.requests ==> !s.requests[id].Accepted? && s.requests[id] != Arrived(true)
  }

  predicate NoWriteArrives(acts: seq<Action>) {
    forall i :: 0 <= i < |acts| ==> !(acts[i].Arrive? && acts[i].mutating)
  }

  lemma ReaderStep(s: State, a: Action)
    requires OnlyReaders(s) && !(a.Arrive? && a.mutating)
    ensures OnlyReaders(Step(s, a)) && (Step(s, a).row.Some? ==> Clock(Step(s, a)) == Clock(s))
  {}

  lemma {:induction false} ReadersLeaveTheClock(s: State, acts: seq<Action>)
    requires OnlyReaders(s) && NoWriteArrives(acts)
    ensures Run(s, acts).row.Some? ==> Clock(Run(s, acts)) == Clock(s)
    decreases |acts|
  {
    if acts != [] {
      ReaderStep(s, acts[0]);
      assert forall i :: 0 <= i < |acts[1..]| ==> acts[1..][i] == acts[i + 1];
      ReadersLeaveTheClock(Step(s, acts[0]), acts[1..]);
    }
  }

  /** Polling does not keep a session alive: with nothing but GET and HEAD requests from here on, and no update pending, a
      request is accepted exactly while the row stands unrevoked and the last activity known now is at most the idle
      timeout ago. */
  lemma ReadersGoIdle(s: State, acts: seq<Action>)
    requires s.row.Some? && OnlyReaders(s) && NoWriteArrives(acts)
    ensures var s' := Run(s, acts);
      Judge(s'.row, s'.now) == Accept <==> !Dead(s') && s'.now - s.row.value.lastActivity <= IDLE_TIMEOUT
  {
    ReadersLeaveTheClock(s, acts);
  }

  lemma {:induction false} ClockOnlyMovesOn(s: State, acts: seq<Action>)
    requires s.row.Some? ==> s.row.value.lastActivity <= s.now
    ensures var s' := Run(s, acts);
      s'.row.Some? ==> s.row.Some? && s.row.value.lastActivity <= s'.row.value.lastActivity <= s'.now
    decreases |acts|
  {
    if acts != [] {
      ClockOnlyMovesOn(Step(s, acts[0]), acts[1..]);
    }
  }

  lemma TwoSteps(s: State, a: Action, b: Action)
    ensures Run(s, [a, b]) == Step(Step(s, a), b)
  {
    RunOneMore(s, [a], b);
    RunOneMore(s, [], a);
    assert [] + [a] == [a] && [a] + [b] == [a, b];
  }

  /** An accepted write does keep it alive: whatever happens afterwards, the session is not idle for a full timeout from
      its update on. */
  lemma WriteKeepsAlive(s: State, id: Id, acts: seq<Action>)
    requires id in s.requests && s.requests[id] == Arrived(true) && Judge(s.row, s.now) == Accept
    ensures var s' := Run(Run(s, [Next(id), Next(id)]), acts);
      !Dead(s') && s'.now - s.now <= IDLE_TIMEOUT ==> Judge(s'.row, s'.now) == Accept
  {
    TwoSteps(s, Next(id), Next(id));
    var touched := Run(s, [Next(id), Next(id)]);
    assert touched.row.Some? && touched.row.value.lastActivity == s.now == touched.now;
    ClockOnlyMovesOn(touched, acts);
  }

  /** A request that finds the session idle is turned away, and its update ends the session for good. */
  lemma IdleIsFinal(s: State, id: Id, mutating: bool, acts: seq<Action>)
    requires id in s.requests && s.requests[id] == Arrived(mutating) && Judge(s.row, s.now) == SessionIdle
    ensures var s' := Run(s, [Next(id), Next(id)]);
      && id in s'.requests && s'.requests[id] == Finished(SessionIdle)
      && s'.row == Some(s.row.value.(revoked := Some(IdleTimedOut))) && Dead(Run(s', acts))
  {
    TwoSteps(s, Next(id), Next(id));
    RevokedForever(Run(s, [Next(id), Next(id)]), acts);
  }

  /** The daily sweep never takes a session that would still be accepted, and what it takes was untouched for a week. */
  lemma SweepSparesTheLive(s: State)
    ensures Judge(s.row, s.now) == Accept ==> Step(s, Cleanup) == s
    ensures s.row.Some? && Step(s, Cleanup).row.None? ==>
      s.now - s.row.value.lastActivity > KEPT_FOR && (s.row.value.revoked.Some? || s.row.value.expiresAt < s.now)
  {}

  // ----- The forced flows -----

  // strings.LastIndex(s, "/")
  function LastSlash(s: string): (i: int)
    ensures -1 <= i < |s| && (i >= 0 ==> s[i] == '/') && forall k :: i < k < |s| ==> s[k] != '/'
  {
    if s == "" then -1 else if s[|s| - 1] == '/' then |s| - 1 else LastSlash(s[..|s| - 1])
  }

  const API := "/api/v1"
  const DEMO_API := "/api/demo/w"

  predicate IsOwnAccountPath(p: string, tail: string) {
    HasSuffix(p, tail) &&
    var base := p[..|p| - |tail|];
    HasSuffix(base, API) || (LastSlash(base) >= 0 && HasSuffix(base[..LastSlash(base)], DEMO_API))
  }

  // `p` is `tail` right under the API root, or right under one workspace of the sandbox.
  ghost predicate IsRouteUnderRoot(p: string, tail: string) {
    || (exists x: string :: p == x + API + tail)
    || (exists x: string, w: string :: '/' !in w && p == x + DEMO_API + "/" + w + tail)
  }

  lemma SlashBefore(front: string, w: string)
    requires '/' !in w
    ensures var base := front + "/" + w; LastSlash(base) == |front| && base[..|front|] == front
  {
    var base := front + "/" + w;
    assert base[|front|] == '/';
    assert forall k :: |front| < k < |base| ==> base[k] == w[k - |front| - 1] && w[k - |front| - 1] in w;
  }

  lemma WithoutTail(base: string, tail: string)
    ensures HasSuffix(base + tail, tail) && (base + tail)[..|base|] == base
  {
    assert (base + tail)[|base|..] == tail;
  }

  lemma EndsWith(front: string, suffix: string)
    ensures HasSuffix(front + suffix, suffix)
  {
    assert (front + suffix)[|front|..] == suffix;
  }

  lemma EndsWithSuffix(s: string, suffix: string) returns (front: string)
    requires HasSuffix(s, suffix)
    ensures s == front + suffix
  {
    front := s[..|s| - |suffix|];
  }

  lemma SplitAtLastSlash(base: string) returns (w: string)
    requires LastSlash(base) >= 0
    ensures '/' !in w && base == base[..LastSlash(base)] + "/" + w
  {
    w := base[LastSlash(base) + 1..];
    assert base == base[..LastSlash(base)] + [base[LastSlash(base)]] + w;
  }

  lemma AcceptedIsRoute(p: string, tail: string)
    requires IsOwnAccountPath(p, tail)
    ensures IsRouteUnderRoot(p, tail)
  {
    var base := p[..|p| - |tail|];
    assert p == base + tail;
    if HasSuffix(base, API) {
      var x := EndsWithSuffix(base, API);
      assert p == x + API + tail;
    } else {
      var w := SplitAtLastSlash(base);
      var x := EndsWithSuffix(base[..LastSlash(base)], DEMO_API);
      assert p == x + DEMO_API + "/" + w + tail;
    }
  }

  lemma RootRouteIsAccepted(x: string, tail: string)
    ensures IsOwnAccountPath(x + API + tail, tail)
  {
    WithoutTail(x + API, tail);
    EndsWith(x, API);
  }

  lemma WorkspaceRouteIsAccepted(x: string, w: string, tail: string)
    requires '/' !in w
    ensures IsOwnAccountPath(x + DEMO_API + "/" + w + tail, tail)
  {
    WithoutTail(x + DEMO_API + "/" + w, tail);
    SlashBefore(x + DEMO_API, w);
    EndsWith(x, DEMO_API);
  }

  /** The allowlist test accepts exactly the paths that are `tail` under an API root. */
  lemma OwnAccountPathIff(p: string, tail: string)
    ensures IsOwnAccountPath(p, tail) <==> IsRouteUnderRoot(p, tail)
  {
    if IsOwnAccountPath(p, tail) {
      AcceptedIsRoute(p, tail);
    }
    if x: string :| p == x + API + tail {
      RootRouteIsAccepted(x, tail);
    } else if x: string, w: string :| '/' !in w && p == x + DEMO_API + "/" + w + tail {
      WorkspaceRouteIsAccepted(x, w, tail);
    }
  }

  datatype Answer = Through | PasswordChangeRequired | MfaSetupRequired

  datatype Account = Account(mustChange: bool, enrolled: bool, isAdmin: bool, isStaff: bool, isExecutive: bool)

  predicate MfaMandatoryFor(a: Account) {
    a.isAdmin || a.isStaff || a.isExecutive
  }

  /** What AccountGuard answers once the session is accepted. */
  function Forced(p: string, a: Account, enforced: bool, demoSlot: bool): Answer {
    if a.mustChange && !IsOwnAccountPath(p, "/me") && !IsOwnAccountPath(p, "/me/password") &&
       !IsOwnAccountPath(p, "/me/preferences") && !HasSuffix(p, "/auth/heartbeat") then PasswordChangeRequired
    else
      var mustEnroll := enforced && !demoSlot && !a.mustChange && !a.enrolled && MfaMandatoryFor(a);
      if mustEnroll && !IsOwnAccountPath(p, "/me") && !IsOwnAccountPath(p, "/me/preferences") &&
         !Occurs(p, "/me/2fa/") && !HasSuffix(p, "/auth/heartbeat") then MfaSetupRequired
      else Through
  }

  // The request that ends whatever forced flow is next: change the password first, then enrol.
  function WayOut(root: string, a: Account, step: string): string {
    if a.mustChange then root + "/me/password" else root + "/me/2fa/" + step
  }

  lemma EnrolmentOccurs(root: string, step: string)
    ensures Occurs(root + "/me/2fa/" + step, "/me/2fa/")
  {
    var p := root + "/me/2fa/" + step;
    assert p[|root|..|root| + 8] == "/me/2fa/";
    OccursSomewhere(p, "/me/2fa/", |root|);
  }

  /** Under either API root, no combination of a pending password change and a pending 2FA enrolment blocks the
      request that leads out of it. */
  lemma NoDeadEnd(x: string, w: string, demo: bool, step: string, a: Account, enforced: bool, demoSlot: bool)
    requires '/' !in w
    ensures var root := if demo then x + DEMO_API + "/" + w else x + API;
      Forced(WayOut(root, a, step), a, enforced, demoSlot) == Through
  {
    EnrolmentOccurs(if demo then x + DEMO_API + "/" + w else x + API, step);
    if a.mustChange {
      if demo {
        WorkspaceRouteIsAccepted(x, w, "/me/password");
      } else {
        RootRouteIsAccepted(x, "/me/password");
      }
    }
  }

  /** The gates stop exactly what they should: with a password change pending, every request but the four allowed
      ones; with only an enrolment pending, every request but its own. */
  lemma StoppedIff(p: string, a: Account, enforced: bool, demoSlot: bool)
    ensures Forced(p, a, enforced, demoSlot) == PasswordChangeRequired <==>
      a.mustChange && !IsRouteUnderRoot(p, "/me") && !IsRouteUnderRoot(p, "/me/password")
      && !IsRouteUnderRoot(p, "/me/preferences") && !HasSuffix(p, "/auth/heartbeat")
    ensures Forced(p, a, enforced, demoSlot) == MfaSetupRequired <==>
      !a.mustChange && enforced && !demoSlot && !a.enrolled && MfaMandatoryFor(a)
      && !IsRouteUnderRoot(p, "/me") && !IsRouteUnderRoot(p, "/me/preferences")
      && !Occurs(p, "/me/2fa/") && !HasSuffix(p, "/auth/heartbeat")
  {
    OwnAccountPathIff(p, "/me");
    OwnAccountPathIff(p, "/me/password");
    OwnAccountPathIff(p, "/me/preferences");
  }
}
