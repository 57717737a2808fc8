/** The sandbox registry shared by many callers: Claim, Release, adding and removing testers, and the
    login check, interleaved statement by statement.

    Each step is one SQL statement (or one COMMIT) under READ COMMITTED: a scan FOR UPDATE SKIP LOCKED
    sees committed rows and skips locked ones, an UPDATE waits for a row lock, and the unique index on
    owner_email waits for an uncommitted writer of the same key before it decides. */
module SlotProtocol {
  import opened Options

  datatype Email = Email(text: string)
  datatype Tier = StaffTier | LecturerTier | TaTier
  type Pid = nat

  datatype Row = Row(owner: Option<Email>, claimedAt: Option<int>, lastActive: Option<int>) {
    // COALESCE(last_active_at, claimed_at)
    function Activity(): Option<int> {
      if lastActive.Some? then lastActive else claimedAt
    }

    // The WHERE clause of the reclaim query, at transaction time `began`.
    predicate Idle(began: int, limit: nat) {
      owner.Some? && Activity().Some? && Activity().value < began - limit
    }
  }

  // A signed slot claim: only SignSlotClaim can make one.
  datatype Credential = Credential(slot: nat, email: Email, expires: int)

  // What a scan for a free slot saw.
  datatype View = View(rows: seq<Row>, locked: set<nat>) {
    ghost predicate NothingFree() {
      forall i :: 0 <= i < |rows| ==> rows[i].owner.Some? || i in locked
    }
  }

  datatype Pick = Free | Reclaim(seen: View)

  /** One call, at the statement it will execute next, or with its result. */
  datatype Proc =
    // Claim
    | Lookup(email: Email)
    | Resume(email: Email, tier: Tier, retry: bool)
    | Touch(email: Email, tier: Tier, slot: nat)
    | Begin(email: Email, tier: Tier)
    | ScanFree(email: Email, tier: Tier, began: int)
    | ScanIdle(email: Email, tier: Tier, began: int, seen: View)
    | Picked(email: Email, tier: Tier, began: int, slot: nat, pick: Pick)
    | Written(email: Email, tier: Tier, began: int, slot: nat, pick: Pick)
    | Entered(email: Email, tier: Tier, slot: nat)
    | Signed(email: Email, slot: nat)
    | NotAuthorized(email: Email)
    | Full(email: Email)
    | LostRace(email: Email)
    | Failed
    // Release
    | ReleaseStart(email: Email)
    | ReleaseUpdate(email: Email, target: Option<nat>)
    | Released(email: Email, changed: bool)
    // TierForClaim
    | LoginStart(slot: nat, cred: Credential)
    | LoginOwner(cred: Credential)
    | LoginTier(cred: Credential)
    | Granted(cred: Credential, grant: Tier)
    | Denied

  predicate HoldsLock(pr: Proc, i: nat) {
    (pr.Picked? || pr.Written?) && pr.slot == i
  }

  datatype State = State(
    rows: seq<Row>,
    locks: map<nat, Pid>,
    procs: map<Pid, Proc>,
    testers: map<Email, Tier>,
    creds: set<Credential>,
    now: int,
    limit: nat)
  {
    predicate Owns(email: Email, i: nat) {
      i < |rows| && rows[i].owner == Some(email)
    }

    predicate FreeNow(i: nat) {
      i < |rows| && rows[i].owner.None? && i !in locks
    }

    predicate IdleNow(i: nat, began: int) {
      i < |rows| && rows[i].Idle(began, limit) && i !in locks
    }

    // Owned, or locked by a transaction in flight.
    predicate Taken(i: nat) {
      i < |rows| && (rows[i].owner.Some? || i in locks)
    }

    // Row i is being rewritten by an uncommitted UPDATE.
    predicate Uncommitted(i: nat) {
      i in locks && locks[i] in procs && procs[locks[i]].Written?
    }

    function Goto(p: Pid, pr: Proc): State {
      this.(procs := procs[p := pr])
    }

    function Unlock(i: nat): State {
      this.(locks := locks - {i})
    }

    function SetRow(i: nat, row: Row): State {
      if i < |rows| then this.(rows := rows[i := row]) else this
    }
  }

  const CLAIM_TTL: int := 12 * 3600

  datatype Action =
    | Tick(seconds: nat)
    | AddTester(email: Email, tier: Tier)
    | RemoveTester(email: Email)
    // a login that went through, or a reset of the slot's data, marks slot i as active
    | MarkActive(i: nat)
    | Start(p: Pid, call: Proc)
    | Advance(p: Pid)
    // the idle scan settles on slot i (ties in activity are broken arbitrarily)
    | TakeIdle(p: Pid, i: nat)
    // the best-effort activity update fails
    | SkipTouch(p: Pid)
    // any database error, lost connection or deadlock abort
    | Abort(p: Pid)

  // ORDER BY slot_index LIMIT 1 over the rows a SKIP LOCKED scan may take.
  function FirstFree(s: State, from: nat): (r: Option<nat>)
    ensures r.Some? ==> from <= r.value && s.FreeNow(r.value) && forall j :: from <= j < r.value ==> !s.FreeNow(j)
    ensures r.None? ==> forall j :: from <= j ==> !s.FreeNow(j)
    decreases |s.rows| - from
  {
    if from >= |s.rows| then None
    else if s.FreeNow(from) then Some(from)
    else FirstFree(s, from + 1)
  }

  // SELECT slot_index ... WHERE owner_email = $1 (an unlocked read of committed rows).
  function OwnedSlot(s: State, email: Email, from: nat): (r: Option<nat>)
    ensures r.Some? ==> s.Owns(email, r.value)
    ensures r.None? ==> forall j :: from <= j ==> !s.Owns(email, j)
    decreases |s.rows| - from
  {
    if from >= |s.rows| then None
    else if s.Owns(email, from) then Some(from)
    else OwnedSlot(s, email, from + 1)
  }

  // An uncommitted UPDATE of another row either writes `email` or takes it away.
  predicate IndexWaits(s: State, email: Email, i: nat) {
    exists j: nat :: j < |s.rows| && j != i && s.Uncommitted(j) &&
      (s.rows[j].owner == Some(email) || s.procs[s.locks[j]].email == email)
  }

  predicate UniqueViolation(s: State, email: Email, i: nat) {
    exists j: nat :: j < |s.rows| && j != i && s.rows[j].owner == Some(email)
  }

  function ClaimStep(s: State, p: Pid): Option<State>
    requires p in s.procs
  {
    match s.procs[p]
    case Lookup(email) =>
      Some(s.Goto(p, if email in s.testers then Resume(email, s.testers[email], false) else NotAuthorized(email)))
    case Resume(email, tier, retry) =>
      var mine := OwnedSlot(s, email, 0);
      Some(s.Goto(p, if mine.Some? then Touch(email, tier, mine.value)
                     else if retry then LostRace(email) else Begin(email, tier)))
    case Touch(email, tier, i) =>
      if i in s.locks || i >= |s.rows| then None
      else Some(s.SetRow(i, s.rows[i].(lastActive := Some(s.now))).Goto(p, Entered(email, tier, i)))
    case Begin(email, tier) =>
      Some(s.Goto(p, ScanFree(email, tier, s.now)))
    case ScanFree(email, tier, began) =>
      var free := FirstFree(s, 0);
      if free.Some? then
        Some(s.(locks := s.locks[free.value := p]).Goto(p, Picked(email, tier, began, free.value, Free)))
      else
        Some(s.Goto(p, ScanIdle(email, tier, began, View(s.rows, s.locks.Keys))))
    case ScanIdle(email, tier, began, seen) =>
      if exists i: nat :: i < |s.rows| && s.IdleNow(i, began) then None
      else Some(s.Goto(p, Full(email)))
    case Picked(email, tier, began, i, pick) =>
      if IndexWaits(s, email, i) then None
      else if UniqueViolation(s, email, i) then Some(s.Unlock(i).Goto(p, Resume(email, tier, true)))
      else Some(s.Goto(p, Written(email, tier, began, i, pick)))
    case Written(email, tier, began, i, pick) =>
      Some(s.SetRow(i, Row(Some(email), Some(began), Some(began))).Unlock(i).Goto(p, Entered(email, tier, i)))
    case Entered(email, tier, i) =>
      Some(s.(creds := s.creds + {Credential(i, email, s.now + CLAIM_TTL)}).Goto(p, Signed(email, i)))
    case _ => None
  }

  function ReleaseStep(s: State, p: Pid): Option<State>
    requires p in s.procs
  {
    match s.procs[p]
    case ReleaseStart(email) =>
      Some(s.Goto(p, ReleaseUpdate(email, OwnedSlot(s, email, 0))))
    case ReleaseUpdate(email, target) =>
      // The WHERE clause is evaluated again once the row lock is free.
      if target.None? then Some(s.Goto(p, Released(email, false)))
      else if target.value in s.locks then None
      else if !s.Owns(email, target.value) then Some(s.Goto(p, Released(email, false)))
      else Some(s.SetRow(target.value, s.rows[target.value].(owner := None)).Goto(p, Released(email, true)))
    case _ => None
  }

  function LoginStep(s: State, p: Pid): Option<State>
    requires p in s.procs
  {
    match s.procs[p]
    case LoginStart(i, cred) =>
      Some(s.Goto(p, if cred in s.creds && s.now <= cred.expires && cred.slot == i then LoginOwner(cred) else Denied))
    case LoginOwner(cred) =>
      Some(s.Goto(p, if s.Owns(cred.email, cred.slot) then LoginTier(cred) else Denied))
    case LoginTier(cred) =>
      Some(s.Goto(p, if cred.email in s.testers then Granted(cred, s.testers[cred.email]) else Denied))
    case _ => None
  }

  function AdvanceProc(s: State, p: Pid): Option<State>
    requires p in s.procs
  {
    var pr := s.procs[p];
    if pr.ReleaseStart? || pr.ReleaseUpdate? then ReleaseStep(s, p)
    else if pr.LoginStart? || pr.LoginOwner? || pr.LoginTier? then LoginStep(s, p)
    else ClaimStep(s, p)
  }

  predicate Running(pr: Proc) {
    !(pr.Signed? || pr.NotAuthorized? || pr.Full? || pr.LostRace? || pr.Failed? || pr.Released? || pr.Granted? || pr.Denied?)
  }

  function Step(s: State, a: Action): Option<State> {
    match a
    case Tick(seconds) => Some(s.(now := s.now + seconds))
    case AddTester(email, tier) => Some(s.(testers := s.testers[email := tier]))
    case RemoveTester(email) => Some(s.(testers := s.testers - {email}))
    case MarkActive(i) =>
      if i in s.locks || i >= |s.rows| then None else Some(s.SetRow(i, s.rows[i].(lastActive := Some(s.now))))
    case Start(p, call) =>
      if p !in s.procs && (call.Lookup? || call.ReleaseStart? || call.LoginStart?) then Some(s.Goto(p, call)) else None
    case Advance(p) =>
      if p in s.procs then AdvanceProc(s, p) else None
    case TakeIdle(p, i) =>
      if p in s.procs && s.procs[p].ScanIdle? && s.IdleNow(i, s.procs[p].began) &&
         forall j: nat :: j < |s.rows| && s.IdleNow(j, s.procs[p].began) ==> s.rows[i].Activity().value <= s.rows[j].Activity().value
      then
        var pr := s.procs[p];
        Some(s.(locks := s.locks[i := p]).Goto(p, Picked(pr.email, pr.tier, pr.began, i, Reclaim(pr.seen))))
      else None
    case SkipTouch(p) =>
      if p in s.procs && s.procs[p].Touch? then
        Some(s.Goto(p, Entered(s.procs[p].email, s.procs[p].tier, s.procs[p].slot)))
      else None
    case Abort(p) =>
      if p in s.procs && Running(s.procs[p]) then
        var pr := s.procs[p];
        Some((if pr.Picked? || pr.Written? then s.Unlock(pr.slot) else s).Goto(p, Failed))
      else None
  }

  // ----- What every step keeps -----

  ghost predicate LocksMatch(s: State) {
    && (forall i :: i in s.locks ==> i < |s.rows| && s.locks[i] in s.procs && HoldsLock(s.procs[s.locks[i]], i))
    && (forall p :: p in s.procs && (s.procs[p].Picked? || s.procs[p].Written?) ==>
          s.procs[p].slot in s.locks && s.locks[s.procs[p].slot] == p)
  }

  // No email owns two slots.
  ghost predicate OneSlotEach(s: State) {
    forall i, j :: 0 <= i < j < |s.rows| && s.rows[i].owner.Some? ==> s.rows[i].owner != s.rows[j].owner
  }

  // An uncommitted owner conflicts with no committed and no other uncommitted one.
  ghost predicate WritersApart(s: State) {
    && (forall p, j: nat :: p in s.procs && s.procs[p].Written? && j < |s.rows| && j != s.procs[p].slot ==>
          s.rows[j].owner != Some(s.procs[p].email))
    && (forall p, q :: p in s.procs && q in s.procs && p != q && s.procs[p].Written? && s.procs[q].Written? ==>
          s.procs[p].email != s.procs[q].email)
  }

  // A locked slot is still what its holder picked: free, or idle when nothing free had been seen.
  ghost predicate PickStands(s: State, pr: Proc)
    requires pr.Picked? || pr.Written?
  {
    pr.slot < |s.rows| && pr.began <= s.now &&
    match pr.pick
    case Free => s.rows[pr.slot].owner.None?
    case Reclaim(seen) => s.rows[pr.slot].Idle(pr.began, s.limit) && seen.NothingFree()
  }

  ghost predicate PicksStand(s: State) {
    forall p :: p in s.procs ==>
      && (s.procs[p].Picked? || s.procs[p].Written? ==> PickStands(s, s.procs[p]))
      && (s.procs[p].ScanFree? ==> s.procs[p].began <= s.now)
      && (s.procs[p].ScanIdle? ==> s.procs[p].began <= s.now && s.procs[p].seen.NothingFree())
  }

  ghost predicate Inv(s: State) {
    LocksMatch(s) && OneSlotEach(s) && WritersApart(s) && PicksStand(s)
  }

  // ----- The five kinds of step -----

  // The step changes no lock and no call that holds one; rows change only where nobody holds a lock.
  ghost predicate Plain(s: State, s': State, p: Pid) {
    && s'.locks == s.locks && |s'.rows| == |s.rows| && s'.limit == s.limit && s.now <= s'.now
    && (forall q :: q in s.procs && q != p ==> q in s'.procs && s'.procs[q] == s.procs[q])
    && (forall q :: q in s'.procs && q != p ==> q in s.procs)
    && (p in s.procs ==> !s.procs[p].Picked? && !s.procs[p].Written?)
    && (p in s'.procs ==> !s'.procs[p].Picked? && !s'.procs[p].Written?)
    && (p in s'.procs && s'.procs[p].ScanFree? ==> s'.procs[p].began <= s'.now)
    && (p in s'.procs && s'.procs[p].ScanIdle? ==> s'.procs[p].began <= s'.now && s'.procs[p].seen.NothingFree())
    && (forall j :: 0 <= j < |s.rows| && j in s.locks ==> s'.rows[j] == s.rows[j])
    && (forall j :: 0 <= j < |s.rows| ==> s'.rows[j].owner == s.rows[j].owner || s'.rows[j].owner.None?)
  }

  // The step takes the lock of a row that stands as picked.
  ghost predicate Takes(s: State, s': State, p: Pid, pr: Proc) {
    && pr.Picked? && p in s.procs && !s.procs[p].Picked? && !s.procs[p].Written?
    && pr.slot !in s.locks && PickStands(s, pr)
    && s' == s.(locks := s.locks[pr.slot := p]).Goto(p, pr)
  }

  // The uncommitted UPDATE, after the unique index let it pass.
  ghost predicate Writes(s: State, s': State, p: Pid) {
    && p in s.procs && s.procs[p].Picked?
    && var pr := s.procs[p];
    && !IndexWaits(s, pr.email, pr.slot) && !UniqueViolation(s, pr.email, pr.slot)
    && s' == s.Goto(p, Written(pr.email, pr.tier, pr.began, pr.slot, pr.pick))
  }

  ghost predicate Commits(s: State, s': State, p: Pid) {
    && p in s.procs && s.procs[p].Written?
    && var pr := s.procs[p];
       s' == s.SetRow(pr.slot, Row(Some(pr.email), Some(pr.began), Some(pr.began))).Unlock(pr.slot)
             .Goto(p, Entered(pr.email, pr.tier, pr.slot))
  }

  ghost predicate RollsBack(s: State, s': State, p: Pid) {
    && p in s.procs && (s.procs[p].Picked? || s.procs[p].Written?)
    && exists pr: Proc :: !pr.Picked? && !pr.Written? && !pr.ScanFree? && !pr.ScanIdle? &&
         s' == s.Unlock(s.procs[p].slot).Goto(p, pr)
  }

  ghost predicate OfSomeKind(s: State, s': State, p: Pid) {
    Plain(s, s', p) || (p in s'.procs && Takes(s, s', p, s'.procs[p])) || Writes(s, s', p) || Commits(s, s', p) || RollsBack(s, s', p)
  }

  function Caller(a: Action): Pid {
    match a
    case Start(p, _) => p
    case Advance(p) => p
    case TakeIdle(p, _) => p
    case SkipTouch(p) => p
    case Abort(p) => p
    case _ => 0
  }

  lemma TouchIsPlain(s: State, p: Pid)
    requires p in s.procs && s.procs[p].Touch? && ClaimStep(s, p).Some?
    ensures Plain(s, ClaimStep(s, p).value, p)
  {}

  lemma ReleaseIsPlain(s: State, p: Pid)
    requires p in s.procs && ReleaseStep(s, p).Some?
    ensures Plain(s, ReleaseStep(s, p).value, p)
  {}

  lemma GotoIsPlain(s: State, s': State, p: Pid, pr: Proc)
    requires s'.rows == s.rows && s'.locks == s.locks && s'.limit == s.limit && s'.now == s.now
    requires s'.procs == s.procs[p := pr] && p in s.procs && !s.procs[p].Picked? && !s.procs[p].Written?
    requires !pr.Picked? && !pr.Written? && !pr.ScanIdle? && (pr.ScanFree? ==> pr.began == s.now)
    ensures Plain(s, s', p)
  {}

  lemma ClaimRead(s: State, p: Pid)
    requires p in s.procs && ClaimStep(s, p).Some?
    requires !s.procs[p].Touch? && !s.procs[p].ScanFree? && !s.procs[p].Picked? && !s.procs[p].Written?
    ensures Plain(s, ClaimStep(s, p).value, p)
  {
    var s' := ClaimStep(s, p).value;
    GotoIsPlain(s, s', p, s'.procs[p]);
  }

  lemma LoginRead(s: State, p: Pid)
    requires p in s.procs && LoginStep(s, p).Some?
    ensures Plain(s, LoginStep(s, p).value, p)
  {
    var s' := LoginStep(s, p).value;
    GotoIsPlain(s, s', p, s'.procs[p]);
  }

  lemma AdvanceScanFree(s: State, p: Pid)
    requires Inv(s) && p in s.procs && s.procs[p].ScanFree?
    ensures var s' := AdvanceProc(s, p).value; Plain(s, s', p) || Takes(s, s', p, s'.procs[p])
  {
    var s' := AdvanceProc(s, p).value;
    if FirstFree(s, 0).None? {
      forall i | 0 <= i < |s.rows|
        ensures s.rows[i].owner.Some? || i in s.locks.Keys
      {
        assert !s.FreeNow(i);
      }
      assert Plain(s, s', p);
    } else {
      assert Takes(s, s', p, s'.procs[p]);
    }
  }

  lemma AdvancePicked(s: State, p: Pid)
    requires Inv(s) && p in s.procs && s.procs[p].Picked? && AdvanceProc(s, p).Some?
    ensures var s' := AdvanceProc(s, p).value; Writes(s, s', p) || RollsBack(s, s', p)
  {
    var s', pr := AdvanceProc(s, p).value, s.procs[p];
    if UniqueViolation(s, pr.email, pr.slot) {
      assert s' == s.Unlock(pr.slot).Goto(p, Resume(pr.email, pr.tier, true));
    }
  }

  lemma AdvanceKinds(s: State, p: Pid)
    requires Inv(s) && p in s.procs && AdvanceProc(s, p).Some?
    ensures OfSomeKind(s, AdvanceProc(s, p).value, p)
  {
    if s.procs[p].ScanFree? {
      AdvanceScanFree(s, p);
    } else if s.procs[p].Picked? {
      AdvancePicked(s, p);
    } else if s.procs[p].Written? {
      assert Commits(s, AdvanceProc(s, p).value, p);
    } else if s.procs[p].Touch? {
      TouchIsPlain(s, p);
    } else if s.procs[p].ReleaseStart? || s.procs[p].ReleaseUpdate? {
      ReleaseIsPlain(s, p);
    } else if s.procs[p].LoginStart? || s.procs[p].LoginOwner? || s.procs[p].LoginTier? {
      LoginRead(s, p);
    } else {
      ClaimRead(s, p);
    }
  }

  lemma StepKinds(s: State, a: Action)
    requires Inv(s) && Step(s, a).Some?
    ensures OfSomeKind(s, Step(s, a).value, Caller(a)) || (exists q :: Plain(s, Step(s, a).value, q))
  {
    var s' := Step(s, a).value;
    match a
    case Advance(p) =>
      AdvanceKinds(s, p);
    case Abort(p) =>
      if s.procs[p].Picked? || s.procs[p].Written? {
        assert s' == s.Unlock(s.procs[p].slot).Goto(p, Failed);
        assert RollsBack(s, s', p);
      } else {
        assert Plain(s, s', p);
      }
    case TakeIdle(p, i) =>
      assert Takes(s, s', p, s'.procs[p]);
    case Start(p, call) =>
      assert Plain(s, s', p);
    case SkipTouch(p) =>
      assert Plain(s, s', p);
    case _ =>
      var q := FreshPid(s);
      assert Plain(s, s', q);
  }

  lemma FreshPid(s: State) returns (q: Pid)
    ensures q !in s.procs
  {
    q := Above(s.procs.Keys);
    assert q !in s.procs.Keys;
  }

  lemma {:induction false} Above(ps: set<Pid>) returns (q: Pid)
    ensures forall p :: p in ps ==> p < q
    decreases |ps|
  {
    if ps == {} {
      q := 0;
    } else {
      var p :| p in ps;
      var r := Above(ps - {p});
      q := if r > p then r else p + 1;
      assert forall x :: x in ps ==> x == p || x in ps - {p};
    }
  }

  lemma PlainKeepsLocks(s: State, s': State, p: Pid)
    requires Inv(s) && Plain(s, s', p)
    ensures LocksMatch(s')
  {}

  lemma PlainKeepsPicks(s: State, s': State, p: Pid)
    requires Inv(s) && Plain(s, s', p)
    ensures PicksStand(s')
  {}

  lemma PlainKeepsOwners(s: State, s': State, p: Pid)
    requires Inv(s) && Plain(s, s', p)
    ensures OneSlotEach(s') && WritersApart(s')
  {}

  lemma PlainKeepsInv(s: State, s': State, p: Pid)
    requires Inv(s) && Plain(s, s', p)
    ensures Inv(s')
  {
    PlainKeepsLocks(s, s', p);
    PlainKeepsPicks(s, s', p);
    PlainKeepsOwners(s, s', p);
  }

  lemma TakesKeepsLocks(s: State, s': State, p: Pid, pr: Proc)
    requires Inv(s) && Takes(s, s', p, pr)
    ensures LocksMatch(s') && OneSlotEach(s')
  {}

  lemma TakesKeepsPicks(s: State, s': State, p: Pid, pr: Proc)
    requires Inv(s) && Takes(s, s', p, pr)
    ensures PicksStand(s') && WritersApart(s')
  {}

  lemma TakesKeepsInv(s: State, s': State, p: Pid, pr: Proc)
    requires Inv(s) && Takes(s, s', p, pr)
    ensures Inv(s')
  {
    TakesKeepsLocks(s, s', p, pr);
    TakesKeepsPicks(s, s', p, pr);
  }

  lemma WritesKeepsLocks(s: State, s': State, p: Pid)
    requires Inv(s) && Writes(s, s', p)
    ensures LocksMatch(s')
  {}

  lemma WritesKeepsPicks(s: State, s': State, p: Pid)
    requires Inv(s) && Writes(s, s', p)
    ensures PicksStand(s')
  {}

  lemma WritesKeepsOwners(s: State, s': State, p: Pid)
    requires Inv(s) && Writes(s, s', p)
    ensures OneSlotEach(s') && WritersApart(s')
  {}

  lemma WritesKeepsInv(s: State, s': State, p: Pid)
    requires Inv(s) && Writes(s, s', p)
    ensures Inv(s')
  {
    WritesKeepsLocks(s, s', p);
    WritesKeepsPicks(s, s', p);
    WritesKeepsOwners(s, s', p);
  }

  lemma CommitsKeepsLocks(s: State, s': State, p: Pid)
    requires Inv(s) && Commits(s, s', p)
    ensures LocksMatch(s')
  {}

  lemma CommitsKeepsPicks(s: State, s': State, p: Pid)
    requires Inv(s) && Commits(s, s', p)
    ensures PicksStand(s')
  {}

  lemma CommitsKeepsOwners(s: State, s': State, p: Pid)
    requires Inv(s) && Commits(s, s', p)
    ensures OneSlotEach(s') && WritersApart(s')
  {}

  lemma CommitsKeepsInv(s: State, s': State, p: Pid)
    requires Inv(s) && Commits(s, s', p)
    ensures Inv(s')
  {
    CommitsKeepsLocks(s, s', p);
    CommitsKeepsPicks(s, s', p);
    CommitsKeepsOwners(s, s', p);
  }

  lemma RollsBackKeepsLocks(s: State, s': State, p: Pid)
    requires Inv(s) && RollsBack(s, s', p)
    ensures LocksMatch(s')
  {}

  lemma RollsBackKeepsPicks(s: State, s': State, p: Pid)
    requires Inv(s) && RollsBack(s, s', p)
    ensures PicksStand(s')
  {}

  lemma RollsBackKeepsOwners(s: State, s': State, p: Pid)
    requires Inv(s) && RollsBack(s, s', p)
    ensures OneSlotEach(s') && WritersApart(s')
  {}

  lemma RollsBackKeepsInv(s: State, s': State, p: Pid)
    requires Inv(s) && RollsBack(s, s', p)
    ensures Inv(s')
  {
    RollsBackKeepsLocks(s, s', p);
    RollsBackKeepsPicks(s, s', p);
    RollsBackKeepsOwners(s, s', p);
  }

  lemma StepKeepsInv(s: State, a: Action)
    requires Inv(s) && Step(s, a).Some?
    ensures Inv(Step(s, a).value)
  {
    var s', p := Step(s, a).value, Caller(a);
    StepKinds(s, a);
    if q :| Plain(s, s', q) {
      PlainKeepsInv(s, s', q);
    } else if Writes(s, s', p) {
      WritesKeepsInv(s, s', p);
    } else if Commits(s, s', p) {
      CommitsKeepsInv(s, s', p);
    } else if RollsBack(s, s', p) {
      RollsBackKeepsInv(s, s', p);
    } else {
      TakesKeepsInv(s, s', p, s'.procs[p]);
    }
  }
}
