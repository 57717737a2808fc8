/** The read-audit throttle (and its twin for refusals): at most one row per key and hour, remembered in
    memory, swept now and then. */
module Throttle {

  // time.Hour, in nanoseconds
  const WINDOW: int := 3600 * 1_000_000_000

  type Seen<K> = map<K, int>

  predicate IsDue<K>(seen: Seen<K>, k: K, now: int) {
    !(k in seen && now - seen[k] < WINDOW)
  }

  function Swept<K>(seen: Seen<K>, now: int): Seen<K> {
    map k | k in seen && now - seen[k] < WINDOW :: seen[k]
  }

  // ----- The code -----

  class AuditThrottle<K(==)> {
    var seen: Seen<K>
    // the rows of audit_logs written through this throttle
    var rows: seq<(K, int)>

    constructor ()
      ensures seen == map[] && rows == []
    {
      seen, rows := map[], [];
    }

    /** readAuditDue: whether this look is to be recorded; marks it if so. */
    method Due(k: K, now: int) returns (due: bool)
      modifies this`seen
      ensures due == IsDue(old(seen), k, now)
      ensures seen == if due then old(seen)[k := now] else old(seen)
    {
      if k in seen && now - seen[k] < WINDOW {
        return false;
      }
      seen := seen[k := now];
      due := true;
    }

    /** The part of AuditRead after a disclosure. `written` is the fate of the audit row's INSERT. */
    method Record(k: K, now: int, written: bool)
      modifies this
      ensures (seen, rows) == After((old(seen), old(rows)), Look(k, now, written))
    {
      ghost var seen0: Seen<K> := seen;
      var due := Due(k, now);
      if !due {
        return;
      }
      if !written {
        assert seen0[k := now] - {k} == seen0 - {k};
        seen := seen - {k};
      } else {
        rows := rows + [(k, now)];
      }
    }

    /** SweepReadAudit, over the keys in the order the map hands them out. */
    method Sweep(now: int, keys: seq<K>)
      requires forall k :: k in seen <==> k in keys
      modifies this`seen
      ensures seen == Swept(old(seen), now)
    {
      for i := 0 to |keys|
        invariant forall k :: k in seen ==> k in old(seen) && seen[k] == old(seen)[k]
        invariant forall k :: k in old(seen) ==>
          (k in seen <==> !(k in keys[..i] && now - old(seen)[k] >= WINDOW))
      {
        if keys[i] in seen && now - seen[keys[i]] >= WINDOW {
          seen := seen - {keys[i]};
        }
      }
      assert keys[..|keys|] == keys;
      assert seen == Swept(old(seen), now);
    }
  }

  // ----- Sequential runs -----

  datatype Event<K> = Look(key: K, at: int, written: bool) | SweepAt(at: int)

  type State<K> = (Seen<K>, seq<(K, int)>)

  function After<K>(s: State<K>, e: Event<K>): State<K> {
    match e
    case Look(k, now, written) =>
      if !IsDue(s.0, k, now) then s
      else if written then (s.0[k := now], s.1 + [(k, now)])
      else (s.0 - {k}, s.1)
    case SweepAt(now) => (Swept(s.0, now), s.1)
  }

  function Run<K>(s: State<K>, events: seq<Event<K>>): State<K>
    decreases |events|
  {
    if events == [] then s else Run(After(s, events[0]), events[1..])
  }

  ghost predicate InOrder<K>(events: seq<Event<K>>, from: int) {
    (forall i :: 0 <= i < |events| ==> from <= events[i].at) &&
    forall i, j :: 0 <= i < j < |events| ==> events[i].at <= events[j].at
  }

  // The newest row of k: what the throttle has to remember while it matters.
  ghost predicate RemembersLast<K(!new)>(s: State<K>, now: int) {
    && (forall k :: k in s.0 ==> (k, s.0[k]) in s.1 && s.0[k] <= now)
    && (forall i :: 0 <= i < |s.1| ==> s.1[i].1 <= now)
    && (forall i :: 0 <= i < |s.1| && now - s.1[i].1 < WINDOW ==> s.1[i].0 in s.0)
    && (forall i :: 0 <= i < |s.1| && s.1[i].0 in s.0 ==> s.1[i].1 <= s.0[s.1[i].0])
  }

  // Rows of one key are at least an hour apart.
  ghost predicate Spaced<K>(rows: seq<(K, int)>) {
    forall i, j :: 0 <= i < j < |rows| && rows[i].0 == rows[j].0 ==> rows[j].1 - rows[i].1 >= WINDOW
  }

  ghost predicate Good<K(!new)>(s: State<K>, now: int) {
    RemembersLast(s, now) && Spaced(s.1)
  }

  lemma StepIsGood<K(!new)>(s: State<K>, now: int, e: Event<K>)
    requires Good(s, now) && now <= e.at
    ensures Good(After(s, e), e.at)
  {
    var s' := After(s, e);
    if e.Look? && IsDue(s.0, e.key, e.at) && e.written {
      assert s'.1[|s.1|] == (e.key, e.at);
      assert forall k :: k in s.0 && k != e.key ==> s'.0[k] == s.0[k] && (k, s.0[k]) in s.1 && (k, s.0[k]) in s'.1;
      forall i | 0 <= i < |s.1| && s.1[i].0 == e.key
        ensures e.at - s.1[i].1 >= WINDOW
      {
        assert e.key in s.0 ==> s.1[i].1 <= s.0[e.key];
      }
    }
  }

  /** In any sequential run, rows of one key are at least an hour apart, and the map still remembers every
      row that can matter. */
  lemma {:induction false} RunIsGood<K(!new)>(s: State<K>, now: int, events: seq<Event<K>>)
    requires Good(s, now) && InOrder(events, now)
    ensures Good(Run(s, events), if events == [] then now else events[|events| - 1].at)
    decreases |events|
  {
    if events != [] {
      StepIsGood(s, now, events[0]);
      RunIsGood(After(s, events[0]), events[0].at, events[1..]);
    }
  }

  lemma {:induction false} SpacedSpan(ts: seq<int>)
    requires ts != [] && forall i :: 0 <= i < |ts| - 1 ==> ts[i + 1] - ts[i] >= WINDOW
    ensures ts[|ts| - 1] - ts[0] >= (|ts| - 1) * WINDOW
    decreases |ts|
  {
    if |ts| > 1 {
      SpacedSpan(ts[1..]);
      assert ts[1..][|ts| - 2] == ts[|ts| - 1];
    }
  }

  /** A span of length L starting anywhere holds at most floor(L / 1h) + 1 rows of one key. */
  lemma RowsPerSpan(ts: seq<int>, from: int, span: nat)
    requires forall i :: 0 <= i < |ts| - 1 ==> ts[i + 1] - ts[i] >= WINDOW
    requires forall t :: t in ts ==> from <= t <= from + span
    ensures |ts| <= span / WINDOW + 1
  {
    if ts != [] {
      SpacedSpan(ts);
      assert ts[0] in ts && ts[|ts| - 1] in ts;
    }
  }

  // The rows of k from an instant on for as long as `span`.
  function RowsWithin<K(==)>(rows: seq<(K, int)>, k: K, from: int, span: nat): seq<(K, int)> {
    if rows == [] then []
    else
      (if rows[0].0 == k && from <= rows[0].1 <= from + span then [rows[0]] else []) + RowsWithin(rows[1..], k, from, span)
  }

  lemma {:induction false} WithinAreRows<K>(rows: seq<(K, int)>, k: K, from: int, span: nat, r: (K, int))
    requires r in RowsWithin(rows, k, from, span)
    ensures r in rows && r.0 == k && from <= r.1 <= from + span
    decreases |rows|
  {
    if r in RowsWithin(rows[1..], k, from, span) {
      WithinAreRows(rows[1..], k, from, span, r);
      assert r in rows[1..] && rows == [rows[0]] + rows[1..];
    } else {
      assert rows[0] == r;
    }
  }

  lemma {:induction false} WithinSpaced<K>(rows: seq<(K, int)>, k: K, from: int, span: nat)
    requires Spaced(rows)
    ensures Spaced(RowsWithin(rows, k, from, span))
    decreases |rows|
  {
    if rows != [] {
      var rest := RowsWithin(rows[1..], k, from, span);
      assert forall i :: 0 <= i < |rows[1..]| ==> rows[1..][i] == rows[i + 1];
      WithinSpaced(rows[1..], k, from, span);
      forall j | 0 <= j < |rest|
        ensures rest[j].0 == rows[0].0 ==> rest[j].1 - rows[0].1 >= WINDOW
      {
        WithinAreRows(rows[1..], k, from, span, rest[j]);
      }
    }
  }

  /** Whatever a sequential run is given, from no instant on does any key get more than one row an hour and one. */
  lemma RunsRowsPerSpan<K(!new)>(s: State<K>, now: int, events: seq<Event<K>>, k: K, from: int, span: nat)
    requires Good(s, now) && InOrder(events, now)
    ensures |RowsWithin(Run(s, events).1, k, from, span)| <= span / WINDOW + 1
  {
    RunIsGood(s, now, events);
    var rows := RowsWithin(Run(s, events).1, k, from, span);
    WithinSpaced(Run(s, events).1, k, from, span);
    var ts := seq(|rows|, i requires 0 <= i < |rows| => rows[i].1);
    forall i | 0 <= i < |rows|
      ensures rows[i].0 == k && from <= rows[i].1 <= from + span
    {
      WithinAreRows(Run(s, events).1, k, from, span, rows[i]);
    }
    RowsPerSpan(ts, from, span);
  }

  /** In a sequential run, once a look has been dealt with and its own write did not fail, its key has a row
      within the hour up to it. */
  lemma EveryLookHasARow<K(!new)>(s: State<K>, now: int, look: Event<K>)
    requires Good(s, now) && look.Look? && now <= look.at && look.written
    ensures exists t :: look.at - WINDOW < t <= look.at && (look.key, t) in After(s, look).1
  {
    var s' := After(s, look);
    if IsDue(s.0, look.key, look.at) {
      assert s'.1[|s.1|] == (look.key, look.at);
    } else {
      assert (look.key, s.0[look.key]) in s.1;
    }
  }

  // ----- Sweeping changes nothing anyone can see -----

  function Looks<K>(events: seq<Event<K>>): seq<Event<K>> {
    if events == [] then []
    else (if events[0].Look? then [events[0]] else []) + Looks(events[1..])
  }

  // Two maps that decide alike from `now` on.
  ghost predicate Alike<K(!new)>(a: Seen<K>, b: Seen<K>, now: int) {
    forall k :: (k in a && now - a[k] < WINDOW) || (k in b && now - b[k] < WINDOW) ==> k in a && k in b && a[k] == b[k]
  }

  /** A sweep forgets exactly the keys whose next look would be recorded anyway, and nothing about the others. */
  lemma SweepForgetsTheDue<K>(s: State<K>, now: int, k: K)
    ensures var s' := After(s, SweepAt(now));
      && (k in s'.0 <==> !IsDue(s.0, k, now)) && (k in s'.0 ==> s'.0[k] == s.0[k]) && s'.1 == s.1
      && (IsDue(s'.0, k, now) <==> IsDue(s.0, k, now))
  {}

  /** A run files the same rows with all its sweeps as with none of them. */
  lemma {:induction false} SweepsAreInvisible<K(!new)>(s: State<K>, t: State<K>, now: int, events: seq<Event<K>>)
    requires InOrder(events, now) && Alike(s.0, t.0, now) && s.1 == t.1
    ensures Run(s, events).1 == Run(t, Looks(events)).1
    decreases |events|
  {
    if events != [] {
      var e, rest := events[0], events[1..];
      var s' := After(s, e);
      if e.Look? {
        var t' := After(t, e);
        assert Looks(events)[0] == e && Looks(events)[1..] == Looks(rest);
        SweepsAreInvisible(s', t', e.at, rest);
      } else {
        assert Looks(events) == Looks(rest);
        SweepsAreInvisible(s', t, e.at, rest);
      }
    }
  }
}
