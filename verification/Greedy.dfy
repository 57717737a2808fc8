/** Retrying whatever fails, pass after pass, until a pass makes no progress: what that computes for
    any items whose chance to go in depends only on which items are already in. */
module Greedy {
  import opened Sets

  ghost function Elems<T>(s: seq<T>): set<T> {
    set t | t in s
  }

  ghost predicate Distinct<T>(s: seq<T>) {
    forall i, j :: 0 <= i < j < |s| ==> s[i] != s[j]
  }

  // `listing` names every item of `all` once, in any order.
  ghost predicate Lists<T>(listing: seq<T>, all: set<T>) {
    Distinct(listing) && Elems(listing) == all
  }

  /** `met(done, t)`: what `t` needs is in `done`. `refused(done, t)`: something in `done` keeps `t` out. */
  datatype Rules<!T(!new)> = Rules(all: set<T>, met: (set<T>, T) -> bool, refused: (set<T>, T) -> bool) {

    // Needs met stay met, and refusals stay, when `small` grows to `big`.
    ghost predicate Kept(small: set<T>, big: set<T>, t: T) {
      (met(small, t) ==> met(big, t)) && (refused(small, t) ==> refused(big, t))
    }

    ghost predicate Valid() {
      forall small, big, t | small <= big <= all && t in all && t !in big :: Kept(small, big, t)
    }

    ghost predicate Ready(done: set<T>, t: T) {
      met(done, t) && !refused(done, t)
    }

    // Every item of `order` is ready when its turn comes.
    ghost predicate Legal(done: set<T>, order: seq<T>)
      decreases |order|
    {
      order == [] ||
      (order[0] in all && order[0] !in done && Ready(done, order[0]) && Legal(done + {order[0]}, order[1..]))
    }

    ghost predicate SomeOrderWorks() {
      exists o: seq<T> :: Legal({}, o) && Elems(o) == all
    }

    // No item is refused even when all the others are in.
    ghost predicate Unarmed() {
      forall t :: t in all ==> !refused(all - {t}, t)
    }

    // Some legal run of items leads to the refusal of one that is still waiting.
    ghost predicate CanBeOvertaken() {
      exists o: seq<T>, t :: Legal({}, o) && t in all && t !in o && refused(Elems(o), t)
    }

    ghost function WithoutRefusals(): Rules<T> {
      Rules(all, met, (done, t) => false)
    }

    // The items other than `skip` whose needs `done` meets.
    ghost function Next(skip: T, done: set<T>): set<T> {
      set u | u in all && u != skip && u !in done && met(done, u)
    }

    ghost function GrowFrom(skip: T, done: set<T>): set<T>
      decreases |all - done|
    {
      var more := Next(skip, done);
      if more == {} then
        done
      else
        assert all - (done + more) < all - done by {
          var u :| u in more;
          assert u in all - done && u !in all - (done + more);
        }
        SmallerSet(all - (done + more), all - done);
        GrowFrom(skip, done + more)
    }

    // Everything that can go in, by needs alone, without `t`.
    ghost function Without(t: T): set<T> {
      GrowFrom(t, {})
    }

    // One pass: the items in after it, and the ones that failed, in order.
    ghost function Sweep(done: set<T>, pending: seq<T>): (set<T>, seq<T>)
      decreases |pending|
    {
      if pending == [] then
        (done, [])
      else if Ready(done, pending[0]) then
        Sweep(done + {pending[0]}, pending[1..])
      else
        var (after, failed) := Sweep(done, pending[1..]);
        (after, [pending[0]] + failed)
    }

    // The items that go in during one pass, in order.
    ghost function SweepOrder(done: set<T>, pending: seq<T>): seq<T>
      decreases |pending|
    {
      if pending == [] then []
      else if Ready(done, pending[0]) then [pending[0]] + SweepOrder(done + {pending[0]}, pending[1..])
      else SweepOrder(done, pending[1..])
    }

    // Passes until one makes no progress.
    ghost function Settle(done: set<T>, pending: seq<T>): (set<T>, seq<T>)
      decreases |pending|
    {
      var (after, failed) := Sweep(done, pending);
      if pending == [] || |failed| >= |pending| then
        (after, failed)
      else
        Settle(after, failed)
    }

    // The order in which all passes together put items in.
    ghost function SettleOrder(done: set<T>, pending: seq<T>): seq<T>
      decreases |pending|
    {
      var (after, failed) := Sweep(done, pending);
      if pending == [] || |failed| >= |pending| then
        SweepOrder(done, pending)
      else
        SweepOrder(done, pending) + SettleOrder(after, failed)
    }

    ghost function Order(listing: seq<T>): seq<T> {
      SettleOrder({}, listing)
    }

    ghost predicate Succeeds(listing: seq<T>) {
      Settle({}, listing).1 == []
    }
  }

  lemma {:induction false} LegalAppend<T(!new)>(r: Rules<T>, done: set<T>, o: seq<T>, p: seq<T>)
    requires r.Legal(done, o)
    ensures r.Legal(done, o + p) <==> r.Legal(done + Elems(o), p)
    decreases |o|
  {
    if o == [] {
      assert o + p == p && done + Elems(o) == done;
    } else {
      LegalAppend(r, done + {o[0]}, o[1..], p);
      assert (o + p)[0] == o[0] && (o + p)[1..] == o[1..] + p;
      assert done + {o[0]} + Elems(o[1..]) == done + Elems(o);
    }
  }

  lemma {:induction false} LegalIsFresh<T(!new)>(r: Rules<T>, done: set<T>, o: seq<T>)
    requires r.Legal(done, o)
    ensures Distinct(o) && Elems(o) !! done && Elems(o) <= r.all
    decreases |o|
  {
    if o != [] {
      LegalIsFresh(r, done + {o[0]}, o[1..]);
      assert forall j :: 0 < j < |o| ==> o[j] == o[1..][j - 1] && o[j] in Elems(o[1..]);
    }
  }

  lemma {:induction false} LegalPrefix<T(!new)>(r: Rules<T>, done: set<T>, o: seq<T>, k: nat)
    requires r.Legal(done, o) && k <= |o|
    ensures r.Legal(done, o[..k])
    decreases k
  {
    if k != 0 {
      LegalPrefix(r, done + {o[0]}, o[1..], k - 1);
      assert o[..k][1..] == o[1..][..k - 1];
    }
  }

  // In a legal run an item is never refused, not even by an earlier part of the run.
  lemma LegalItemNotRefused<T(!new)>(r: Rules<T>, done: set<T>, o: seq<T>, t: T)
    requires r.Valid() && r.Legal(done, o) && t in o && done <= r.all
    ensures !r.refused(done, t)
  {
    var k :| 0 <= k < |o| && o[k] == t;
    assert o == o[..k] + o[k..];
    LegalPrefix(r, done, o, k);
    LegalAppend(r, done, o[..k], o[k..]);
    LegalIsFresh(r, done, o[..k]);
    assert o[k..][0] == t;
    assert r.Ready(done + Elems(o[..k]), t);
    assert r.Kept(done, done + Elems(o[..k]), t);
  }

  // One pass performs a legal run; if the run is empty nothing pending was ready.
  lemma {:induction false} SweepTrace<T(!new)>(r: Rules<T>, done: set<T>, pending: seq<T>) returns (o: seq<T>)
    requires Distinct(pending) && Elems(pending) <= r.all && Elems(pending) !! done
    ensures o == r.SweepOrder(done, pending) && r.Legal(done, o)
    ensures var s := r.Sweep(done, pending);
      && s.0 == done + Elems(o)
      && Distinct(s.1) && Elems(s.1) !! Elems(o) && Elems(s.1) + Elems(o) == Elems(pending)
      && |s.1| + |o| == |pending|
      && (o == [] ==> s.1 == pending && forall t :: t in pending ==> !r.Ready(done, t))
    decreases |pending|
  {
    if pending == [] {
      o := [];
      assert done + Elems(o) == done;
    } else {
      var t, rest := pending[0], pending[1..];
      assert Elems(pending) == {t} + Elems(rest);
      assert t !in rest;
      if r.Ready(done, t) {
        var o' := SweepTrace(r, done + {t}, rest);
        o := [t] + o';
        assert o[1..] == o';
        assert Elems(o) == {t} + Elems(o');
        assert done + {t} + Elems(o') == done + Elems(o);
      } else {
        o := SweepTrace(r, done, rest);
        var failed := r.Sweep(done, rest).1;
        assert Elems([t] + failed) == {t} + Elems(failed);
        assert forall j :: 0 <= j < |failed| ==> failed[j] in Elems(failed);
      }
    }
  }

  // All passes together: a legal run, after which nothing that is left is ready.
  lemma {:induction false} SettleTrace<T(!new)>(r: Rules<T>, done: set<T>, pending: seq<T>) returns (o: seq<T>)
    requires Distinct(pending) && Elems(pending) <= r.all && Elems(pending) !! done
    ensures o == r.SettleOrder(done, pending) && r.Legal(done, o)
    ensures var s := r.Settle(done, pending);
      && s.0 == done + Elems(o)
      && Elems(s.1) !! Elems(o) && Elems(s.1) + Elems(o) == Elems(pending)
      && forall t :: t in s.1 ==> !r.Ready(s.0, t)
    decreases |pending|
  {
    o := SweepTrace(r, done, pending);
    var (after, failed) := r.Sweep(done, pending);
    if o == [] {
      assert after == done;
    } else {
      var o' := SettleTrace(r, after, failed);
      LegalAppend(r, done, o, o');
      assert Elems(o + o') == Elems(o) + Elems(o');
      o := o + o';
    }
  }

  lemma ListingTrace<T(!new)>(r: Rules<T>, listing: seq<T>) returns (o: seq<T>)
    requires Lists(listing, r.all)
    ensures o == r.Order(listing) && r.Legal({}, o)
    ensures r.Settle({}, listing).0 == Elems(o)
    ensures Elems(r.Settle({}, listing).1) == r.all - Elems(o)
    ensures forall t :: t in r.all && t !in Elems(o) ==> !r.Ready(Elems(o), t)
    ensures r.Succeeds(listing) <==> Elems(o) == r.all
  {
    o := SettleTrace(r, {}, listing);
    var left := r.Settle({}, listing).1;
    assert {} + Elems(o) == Elems(o);
    assert forall t :: t in Elems(left) <==> t in left;
    if left != [] {
      assert left[0] in Elems(left);
    }
  }

  // A legal run never leaves a set at which every item outside has an unmet need.
  lemma {:induction false} LegalStaysInside<T(!new)>(r: Rules<T>, done: set<T>, o: seq<T>, stuck: set<T>)
    requires r.Valid() && r.Legal(done, o) && done <= stuck <= r.all
    requires forall t :: t in r.all && t !in stuck ==> !r.met(stuck, t)
    ensures Elems(o) <= stuck
    decreases |o|
  {
    if o != [] {
      var t := o[0];
      assert t in stuck || r.Kept(done, stuck, t);
      LegalStaysInside(r, done + {t}, o[1..], stuck);
      assert Elems(o) == {t} + Elems(o[1..]);
    }
  }

  lemma UnarmedStuckIsUnmet<T(!new)>(r: Rules<T>, stuck: set<T>)
    requires r.Valid() && r.Unarmed() && stuck <= r.all
    requires forall t :: t in r.all && t !in stuck ==> !r.Ready(stuck, t)
    ensures forall t :: t in r.all && t !in stuck ==> !r.met(stuck, t)
  {
    forall t | t in r.all && t !in stuck
      ensures !r.met(stuck, t)
    {
      assert r.Kept(stuck, r.all - {t}, t);
    }
  }

  lemma SucceedsIffSomeOrderWorks<T(!new)>(r: Rules<T>, listing: seq<T>)
    requires r.Valid() && r.Unarmed() && Lists(listing, r.all)
    ensures r.Succeeds(listing) <==> r.SomeOrderWorks()
  {
    var o := ListingTrace(r, listing);
    LegalIsFresh(r, {}, o);
    UnarmedStuckIsUnmet(r, Elems(o));
    if r.SomeOrderWorks() {
      var w :| r.Legal({}, w) && Elems(w) == r.all;
      LegalStaysInside(r, {}, w, Elems(o));
    }
  }

  lemma ListingOrderIsIrrelevant<T(!new)>(r: Rules<T>, listing: seq<T>, other: seq<T>)
    requires r.Valid() && r.Unarmed() && Lists(listing, r.all) && Lists(other, r.all)
    ensures r.Settle({}, listing).0 == r.Settle({}, other).0
    ensures Elems(r.Settle({}, listing).1) == Elems(r.Settle({}, other).1)
  {
    var o := ListingTrace(r, listing);
    var p := ListingTrace(r, other);
    LegalIsFresh(r, {}, o);
    LegalIsFresh(r, {}, p);
    UnarmedStuckIsUnmet(r, Elems(o));
    UnarmedStuckIsUnmet(r, Elems(p));
    LegalStaysInside(r, {}, o, Elems(p));
    LegalStaysInside(r, {}, p, Elems(o));
  }

  // ----- When refusals can bite -----

  lemma {:induction false} SweepPerformsLegalPrefix<T(!new)>(r: Rules<T>, done: set<T>, o: seq<T>, rest: seq<T>)
    requires r.Legal(done, o)
    ensures r.Sweep(done, o + rest) == r.Sweep(done + Elems(o), rest)
    decreases |o|
  {
    if o == [] {
      assert o + rest == rest && done + Elems(o) == done;
    } else {
      SweepPerformsLegalPrefix(r, done + {o[0]}, o[1..], rest);
      assert (o + rest)[0] == o[0] && (o + rest)[1..] == o[1..] + rest;
      assert done + {o[0]} + Elems(o[1..]) == done + Elems(o);
    }
  }

  lemma RefusedStaysOut<T(!new)>(r: Rules<T>, done: set<T>, pending: seq<T>, t: T)
    requires r.Valid() && Distinct(pending) && Elems(pending) <= r.all && Elems(pending) !! done && done <= r.all
    requires t in pending && r.refused(done, t)
    ensures t in r.Sweep(done, pending).1 && t in r.Settle(done, pending).1
  {
    var o := SettleTrace(r, done, pending);
    var p := SweepTrace(r, done, pending);
    if t in o {
      LegalItemNotRefused(r, done, o, t);
    }
    if t in p {
      LegalItemNotRefused(r, done, p, t);
    }
    assert t in Elems(pending);
    assert t in Elems(r.Settle(done, pending).1) && t in Elems(r.Sweep(done, pending).1);
  }

  lemma OvertakenListingFails<T(!new)>(r: Rules<T>, o: seq<T>, rest: seq<T>, t: T)
    requires r.Valid() && r.Legal({}, o) && t in rest && r.refused(Elems(o), t)
    requires Lists(o + rest, r.all)
    ensures !r.Succeeds(o + rest)
  {
    var listing := o + rest;
    assert {} + Elems(o) == Elems(o);
    SweepPerformsLegalPrefix(r, {}, o, rest);
    assert Elems(listing) == Elems(o) + Elems(rest);
    assert forall i :: 0 <= i < |rest| ==> rest[i] == listing[|o| + i];
    assert forall i :: 0 <= i < |o| ==> o[i] == listing[i];
    RefusedStaysOut(r, Elems(o), rest, t);
    var p := SweepTrace(r, Elems(o), rest);
    var (after, failed) := r.Sweep({}, listing);
    assert after == Elems(o) + Elems(p);
    LegalIsFresh(r, Elems(o), p);
    assert after <= r.all;
    assert t in rest && t in r.all;
    if |failed| < |listing| {
      assert t in Elems(failed);
      assert r.Kept(Elems(o), after, t);
      RefusedStaysOut(r, after, failed, t);
    }
  }

  lemma {:induction false} ListRemaining<T(!new)>(todo: set<T>) returns (s: seq<T>)
    ensures Lists(s, todo)
    decreases |todo|
  {
    if todo == {} {
      s := [];
    } else {
      var t :| t in todo;
      var s' := ListRemaining(todo - {t});
      s := [t] + s';
      assert Elems(s) == {t} + Elems(s');
      assert forall j :: 0 <= j < |s'| ==> s'[j] in Elems(s');
    }
  }

  lemma JoinListings<T(!new)>(o: seq<T>, rest: seq<T>, all: set<T>)
    requires Distinct(o) && Elems(o) <= all && Lists(rest, all - Elems(o))
    ensures Lists(o + rest, all)
  {
    assert Elems(o + rest) == Elems(o) + Elems(rest);
    forall i, j | 0 <= i < j < |o + rest|
      ensures (o + rest)[i] != (o + rest)[j]
    {
      if i < |o| <= j {
        assert o[i] in Elems(o) && rest[j - |o|] in Elems(rest);
      }
    }
  }

  lemma {:induction false} LegalWithoutRefusals<T(!new)>(r: Rules<T>, done: set<T>, o: seq<T>)
    requires r.Legal(done, o)
    ensures r.WithoutRefusals().Legal(done, o)
    decreases |o|
  {
    if o != [] {
      LegalWithoutRefusals(r, done + {o[0]}, o[1..]);
    }
  }

  lemma NotOvertakenSucceeds<T(!new)>(r: Rules<T>, listing: seq<T>)
    requires r.Valid() && Lists(listing, r.all)
    requires r.WithoutRefusals().SomeOrderWorks() && !r.CanBeOvertaken()
    ensures r.Succeeds(listing)
  {
    var plain := r.WithoutRefusals();
    var w: seq<T> :| plain.Legal({}, w) && Elems(w) == plain.all;
    var o := ListingTrace(r, listing);
    LegalIsFresh(r, {}, o);
    forall t | t in plain.all && t !in Elems(o)
      ensures !plain.met(Elems(o), t)
    {
      assert !r.refused(Elems(o), t);
    }
    LegalStaysInside(plain, {}, w, Elems(o));
  }

  // Without `t`, needs alone let in a set that is closed: nothing else has its needs met.
  lemma {:induction false} GrowsToClosed<T(!new)>(r: Rules<T>, t: T, done: set<T>)
    requires done <= r.all && t !in done
    ensures done <= r.GrowFrom(t, done) <= r.all && t !in r.GrowFrom(t, done)
    ensures forall u :: u in r.all && u != t && u !in r.GrowFrom(t, done) ==> !r.met(r.GrowFrom(t, done), u)
    decreases |r.all - done|
  {
    var more := r.Next(t, done);
    if more == {} {
      forall u | u in r.all && u != t && u !in done
        ensures !r.met(done, u)
      {
        assert u !in r.Next(t, done);
      }
    } else {
      assert r.all - (done + more) < r.all - done by {
        var u :| u in more;
        assert u in r.all - done && u !in r.all - (done + more);
      }
      SmallerSet(r.all - (done + more), r.all - done);
      GrowsToClosed(r, t, done + more);
    }
  }

  // Items whose needs are met all go in, one after the other.
  lemma {:induction false} BatchIsLegal<T(!new)>(r: Rules<T>, done: set<T>, batch: seq<T>)
    requires r.Valid() && done <= r.all && Distinct(batch) && Elems(batch) <= r.all && Elems(batch) !! done
    requires forall u :: u in batch ==> r.met(done, u)
    ensures r.WithoutRefusals().Legal(done, batch)
    decreases |batch|
  {
    if batch != [] {
      var u, rest := batch[0], batch[1..];
      assert u in Elems(batch);
      forall v | v in rest
        ensures v in Elems(batch) && v != u && r.met(done + {u}, v)
      {
        assert v in batch && v in Elems(batch);
        assert r.Kept(done, done + {u}, v);
      }
      BatchIsLegal(r, done + {u}, rest);
    }
  }

  lemma JoinRuns<T(!new)>(r: Rules<T>, done: set<T>, o: seq<T>, p: seq<T>)
    requires r.Legal(done, o) && r.Legal(done + Elems(o), p)
    ensures r.Legal(done, o + p) && done + Elems(o + p) == done + Elems(o) + Elems(p)
  {
    LegalAppend(r, done, o, p);
    assert Elems(o + p) == Elems(o) + Elems(p);
  }

  lemma {:induction false} GrowTrace<T(!new)>(r: Rules<T>, t: T, done: set<T>) returns (o: seq<T>)
    requires r.Valid() && done <= r.all && t !in done
    ensures r.WithoutRefusals().Legal(done, o) && done + Elems(o) == r.GrowFrom(t, done) && t !in o
    decreases |r.all - done|
  {
    var more := r.Next(t, done);
    if more == {} {
      o := [];
      assert done + Elems(o) == done;
    } else {
      assert r.all - (done + more) < r.all - done by {
        var u :| u in more;
        assert u in r.all - done && u !in r.all - (done + more);
      }
      SmallerSet(r.all - (done + more), r.all - done);
      var batch := ListRemaining(more);
      assert forall u :: u in batch ==> u in Elems(batch);
      BatchIsLegal(r, done, batch);
      var p := GrowTrace(r, t, done + more);
      assert t !in batch;
      JoinRuns(r.WithoutRefusals(), done, batch, p);
      o := batch + p;
    }
  }

  // A run that has not reached `t` stays inside what can go in without it.
  lemma {:induction false} RunStaysWithout<T(!new)>(r: Rules<T>, done: set<T>, o: seq<T>, t: T)
    requires r.Valid() && r.Legal(done, o) && t !in o && done <= r.Without(t)
    ensures Elems(o) <= r.Without(t)
    decreases |o|
  {
    GrowsToClosed(r, t, {});
    if o != [] {
      var u := o[0];
      assert u in r.Without(t) || r.Kept(done, r.Without(t), u);
      RunStaysWithout(r, done + {u}, o[1..], t);
      assert Elems(o) == {u} + Elems(o[1..]);
    }
  }

  // The first item a run by needs alone may not take under the refusals.
  lemma {:induction false} FirstRefused<T(!new)>(r: Rules<T>, done: set<T>, o: seq<T>) returns (k: nat)
    requires r.WithoutRefusals().Legal(done, o)
    ensures k <= |o| && r.Legal(done, o[..k]) && (k < |o| ==> r.refused(done + Elems(o[..k]), o[k]))
    decreases |o|
  {
    if o == [] || r.refused(done, o[0]) {
      k := 0;
      assert done + Elems(o[..0]) == done;
    } else {
      var j := FirstRefused(r, done + {o[0]}, o[1..]);
      k := j + 1;
      assert o[..k] == [o[0]] + o[1..][..j] && o[..k][1..] == o[1..][..j];
      assert Elems(o[..k]) == {o[0]} + Elems(o[1..][..j]);
      assert done + Elems(o[..k]) == done + {o[0]} + Elems(o[1..][..j]);
    }
  }

  /** Whether an item can be overtaken need not be searched for among all runs: it is enough to ask, item by item,
      whether everything that can go in without it refuses it. */
  lemma CanBeOvertakenIff<T(!new)>(r: Rules<T>)
    requires r.Valid()
    ensures r.CanBeOvertaken() <==> exists t :: t in r.all && r.refused(r.Without(t), t)
  {
    if r.CanBeOvertaken() {
      var o: seq<T>, t :| r.Legal({}, o) && t in r.all && t !in o && r.refused(Elems(o), t);
      RunStaysWithout(r, {}, o, t);
      GrowsToClosed(r, t, {});
      assert r.Kept(Elems(o), r.Without(t), t);
    }
    if exists t :: t in r.all && r.refused(r.Without(t), t) {
      var t :| t in r.all && r.refused(r.Without(t), t);
      RefusedWithoutOvertakes(r, t);
    }
  }

  lemma FirstRefusedIsOvertaken<T(!new)>(r: Rules<T>, o: seq<T>, k: nat)
    requires r.WithoutRefusals().Legal({}, o) && k <= |o| && r.Legal({}, o[..k])
    requires k < |o| ==> r.refused(Elems(o[..k]), o[k])
    ensures k < |o| ==> r.CanBeOvertaken()
  {
    LegalIsFresh(r.WithoutRefusals(), {}, o);
    if k < |o| {
      var p := o[..k];
      assert forall i :: 0 <= i < k ==> p[i] == o[i] && o[i] != o[k];
      assert o[k] in Elems(o);
      assert r.Legal({}, p) && o[k] in r.all && o[k] !in p && r.refused(Elems(p), o[k]);
    }
  }

  lemma RefusedWithoutOvertakes<T(!new)>(r: Rules<T>, t: T)
    requires r.Valid() && t in r.all && r.refused(r.Without(t), t)
    ensures r.CanBeOvertaken()
  {
    var o := GrowTrace(r, t, {});
    assert {} + Elems(o) == Elems(o);
    var k := FirstRefused(r, {}, o);
    assert {} + Elems(o[..k]) == Elems(o[..k]);
    FirstRefusedIsOvertaken(r, o, k);
    if k == |o| {
      assert o[..k] == o;
      assert r.Legal({}, o) && t !in o && r.refused(Elems(o), t);
    }
  }

  /** Nothing can be overtaken: no item is refused by all that can go in without it. */
  ghost predicate NothingOvertaken<T(!new)>(r: Rules<T>) {
    forall t :: t in r.all ==> !r.refused(r.Without(t), t)
  }

  lemma EveryListingSucceedsIff<T(!new)>(r: Rules<T>)
    requires r.Valid()
    ensures (forall listing :: Lists(listing, r.all) ==> r.Succeeds(listing))
       <==> r.WithoutRefusals().SomeOrderWorks() && NothingOvertaken(r)
  {
    CanBeOvertakenIff(r);
    if r.WithoutRefusals().SomeOrderWorks() && NothingOvertaken(r) {
      forall listing | Lists(listing, r.all)
        ensures r.Succeeds(listing)
      {
        NotOvertakenSucceeds(r, listing);
      }
    }
    if forall listing :: Lists(listing, r.all) ==> r.Succeeds(listing) {
      var any := ListRemaining(r.all);
      var w := ListingTrace(r, any);
      LegalWithoutRefusals(r, {}, w);
      assert r.WithoutRefusals().all == r.all;
      if r.CanBeOvertaken() {
        var o: seq<T>, t :| r.Legal({}, o) && t in r.all && t !in o && r.refused(Elems(o), t);
        OvertakenListing(r, o, t);
        assert false;
      }
    }
  }

  lemma OvertakenListing<T(!new)>(r: Rules<T>, o: seq<T>, t: T)
    requires r.Valid() && r.Legal({}, o) && t in r.all && t !in o && r.refused(Elems(o), t)
    ensures exists listing :: Lists(listing, r.all) && !r.Succeeds(listing)
  {
    LegalIsFresh(r, {}, o);
    var rest := ListRemaining(r.all - Elems(o));
    assert t in Elems(rest);
    JoinListings(o, rest, r.all);
    OvertakenListingFails(r, o, rest, t);
  }

  // ----- Which item comes after which -----

  // `w` goes in when all of `needs` are already there.
  ghost predicate ComesAfter<T>(o: seq<T>, w: T, needs: set<T>) {
    exists k :: 0 <= k < |o| && o[k] == w && needs <= Elems(o[..k])
  }

  // `event` happens at no item of the run.
  ghost predicate Nowhere<T(!new)>(o: seq<T>, event: (set<T>, T) -> bool) {
    forall k :: 0 <= k < |o| ==> !event(Elems(o[..k]), o[k])
  }

  lemma NowhereStep<T(!new)>(o: seq<T>, n: nat, event: (set<T>, T) -> bool)
    requires n < |o|
    ensures Nowhere(o[..n + 1], event) <==> Nowhere(o[..n], event) && !event(Elems(o[..n]), o[n])
  {
    var p := o[..n + 1];
    assert forall k :: 0 <= k <= n ==> p[..k] == o[..k] && p[k] == o[k];
    assert forall k :: 0 <= k < n ==> o[..n][..k] == o[..k];
    assert p[..n] == o[..n];
    assert forall k :: 0 <= k < n ==> p[k] == o[..n][k] && p[..k] == o[..n][..k];
  }

  lemma {:induction false} SweepOrderOfPrefix<T(!new)>(r: Rules<T>, done: set<T>, o: seq<T>, rest: seq<T>)
    requires r.Legal(done, o)
    ensures r.SweepOrder(done, o + rest) == o + r.SweepOrder(done + Elems(o), rest)
    decreases |o|
  {
    if o == [] {
      assert o + rest == rest && done + Elems(o) == done;
    } else {
      SweepOrderOfPrefix(r, done + {o[0]}, o[1..], rest);
      assert (o + rest)[0] == o[0] && (o + rest)[1..] == o[1..] + rest;
      assert done + {o[0]} + Elems(o[1..]) == done + Elems(o);
      assert o == [o[0]] + o[1..];
    }
  }

  lemma PlainIsValid<T(!new)>(r: Rules<T>)
    requires r.Valid()
    ensures r.WithoutRefusals().Valid()
  {
    var plain := r.WithoutRefusals();
    forall small: set<T>, big: set<T>, t | small <= big <= plain.all && t in plain.all && t !in big
      ensures plain.Kept(small, big, t)
    {
      assert r.Kept(small, big, t);
    }
  }

  // If, short of everything, some item's needs are always met, needs alone admit an order.
  lemma NeverStuckAdmitsOrder<T(!new)>(r: Rules<T>)
    requires r.Valid() && forall done: set<T> :: done < r.all ==> exists t :: t in r.all && t !in done && r.met(done, t)
    ensures r.WithoutRefusals().SomeOrderWorks()
  {
    var plain := r.WithoutRefusals();
    var any := ListRemaining(r.all);
    var o := ListingTrace(plain, any);
    LegalIsFresh(plain, {}, o);
    assert forall t :: t in r.all && t !in Elems(o) ==> !plain.Ready(Elems(o), t);
    assert Elems(o) == r.all;
  }

  // An item of a legal run, and the run before it.
  lemma InLegalRun<T(!new)>(r: Rules<T>, o: seq<T>, k: nat)
    requires r.Legal({}, o) && k < |o|
    ensures r.Legal({}, o[..k]) && o[k] in r.all && o[k] !in o[..k] && r.Ready(Elems(o[..k]), o[k])
    ensures Elems(o[..k]) <= r.all
  {
    LegalIsFresh(r, {}, o);
    LegalPrefix(r, {}, o, k);
    LegalIsFresh(r, {}, o[..k]);
    LegalAppend(r, {}, o[..k], o[k..]);
    assert o[..k] + o[k..] == o && o[k..][0] == o[k];
    assert {} + Elems(o[..k]) == Elems(o[..k]);
  }

  // When needs alone admit an order, what can go in without `w` meets the needs of `w`.
  lemma NeedsMetWithout<T(!new)>(r: Rules<T>, w: T)
    requires r.Valid() && w in r.all && r.WithoutRefusals().SomeOrderWorks()
    ensures r.met(r.Without(w), w)
  {
    var plain := r.WithoutRefusals();
    var o: seq<T> :| plain.Legal({}, o) && Elems(o) == plain.all;
    assert w in Elems(o);
    var k :| 0 <= k < |o| && o[k] == w;
    InLegalRun(plain, o, k);
    PlainIsValid(r);
    WithoutOfPlain(r, w, {});
    RunStaysWithout(plain, {}, o[..k], w);
    GrowsToClosed(r, w, {});
    assert r.Kept(Elems(o[..k]), r.Without(w), w);
  }

  lemma {:induction false} WithoutOfPlain<T(!new)>(r: Rules<T>, t: T, done: set<T>)
    ensures r.WithoutRefusals().GrowFrom(t, done) == r.GrowFrom(t, done)
    decreases |r.all - done|
  {
    var more := r.Next(t, done);
    assert r.WithoutRefusals().Next(t, done) == more;
    if more != {} {
      assert r.all - (done + more) < r.all - done by {
        var u :| u in more;
        assert u in r.all - done && u !in r.all - (done + more);
      }
      SmallerSet(r.all - (done + more), r.all - done);
      WithoutOfPlain(r, t, done + more);
    }
  }

  /** When every listing succeeds, some listing puts `w` in after all of `needs` exactly when all of `needs` can go in
      without `w`. */
  lemma SomeListingPutsAfterIff<T(!new)>(r: Rules<T>, w: T, needs: set<T>)
    requires r.Valid() && w in r.all && r.WithoutRefusals().SomeOrderWorks() && NothingOvertaken(r)
    ensures (exists listing :: Lists(listing, r.all) && ComesAfter(r.Order(listing), w, needs)) <==> needs <= r.Without(w)
  {
    if listing :| Lists(listing, r.all) && ComesAfter(r.Order(listing), w, needs) {
      AfterMeansWithout(r, listing, w, needs);
    }
    if needs <= r.Without(w) {
      WithoutMeansAfter(r, w, needs);
    }
  }

  lemma AfterMeansWithout<T(!new)>(r: Rules<T>, listing: seq<T>, w: T, needs: set<T>)
    requires r.Valid() && Lists(listing, r.all) && ComesAfter(r.Order(listing), w, needs)
    ensures needs <= r.Without(w)
  {
    var o := ListingTrace(r, listing);
    var k :| 0 <= k < |o| && o[k] == w && needs <= Elems(o[..k]);
    InLegalRun(r, o, k);
    RunStaysWithout(r, {}, o[..k], w);
  }

  lemma WithoutMeansAfter<T(!new)>(r: Rules<T>, w: T, needs: set<T>)
    requires r.Valid() && w in r.all && r.WithoutRefusals().SomeOrderWorks() && NothingOvertaken(r)
    requires needs <= r.Without(w)
    ensures exists listing :: Lists(listing, r.all) && ComesAfter(r.Order(listing), w, needs)
  {
    var p := GrowTrace(r, w, {});
    assert {} + Elems(p) == Elems(p);
    LegalUnlessOvertaken(r, p);
    NeedsMetWithout(r, w);
    assert r.Ready(Elems(p), w);
    assert r.Legal(Elems(p) + {w}, []) && [w][1..] == [];
    assert r.Legal(Elems(p), [w]);
    LegalAppend(r, {}, p, [w]);
    var o := p + [w];
    LegalIsFresh(r, {}, o);
    var rest := ListRemaining(r.all - Elems(o));
    JoinListings(o, rest, r.all);
    OrderStartsWith(r, o, rest);
    var order := r.Order(o + rest);
    assert order[..|p|] == p && order[|p|] == w;
    assert ComesAfter(order, w, needs);
  }

  lemma OrderStartsWith<T(!new)>(r: Rules<T>, o: seq<T>, rest: seq<T>)
    requires r.Legal({}, o)
    ensures o <= r.Order(o + rest)
  {
    SweepOrderOfPrefix(r, {}, o, rest);
  }

  lemma LegalUnlessOvertaken<T(!new)>(r: Rules<T>, o: seq<T>)
    requires r.Valid() && r.WithoutRefusals().Legal({}, o) && NothingOvertaken(r)
    ensures r.Legal({}, o)
  {
    CanBeOvertakenIff(r);
    var k := FirstRefused(r, {}, o);
    assert {} + Elems(o[..k]) == Elems(o[..k]);
    FirstRefusedIsOvertaken(r, o, k);
    assert o[..|o|] == o;
  }

  lemma NotRefusedIsLegal<T(!new)>(r: Rules<T>, o: seq<T>, n: nat)
    requires r.WithoutRefusals().Legal({}, o) && n <= |o| && forall k :: 0 <= k < n ==> !r.refused(Elems(o[..k]), o[k])
    ensures r.Legal({}, o[..n])
  {
    LegalPrefix(r.WithoutRefusals(), {}, o, n);
    var k := FirstRefused(r, {}, o[..n]);
    assert o[..n][..k] == o[..k] && {} + Elems(o[..k]) == Elems(o[..k]);
    assert o[..n][..n] == o[..n];
  }

  // A listing of which some item is refused by all that come before it fails.
  lemma RefusedInListingFails<T(!new)>(r: Rules<T>, listing: seq<T>, n: nat)
    requires r.Valid() && Lists(listing, r.all) && n < |listing|
    requires r.Legal({}, listing[..n]) && r.refused(Elems(listing[..n]), listing[n])
    ensures !r.Succeeds(listing)
  {
    var o, rest := listing[..n], listing[n..];
    assert o + rest == listing && rest[0] == listing[n];
    OvertakenListingFails(r, o, rest, listing[n]);
  }

  lemma TailIsNew<T(!new)>(o: seq<T>, p: seq<T>)
    requires o <= p && Distinct(p)
    ensures forall i :: |o| <= i < |p| ==> p[i] !in o
  {
    assert forall j :: 0 <= j < |o| ==> p[j] == o[j];
  }

  // A listing that is itself a legal run is put in as it stands.
  lemma LegalListingIsItsOrder<T(!new)>(r: Rules<T>, o: seq<T>)
    requires r.Legal({}, o) && Lists(o, r.all)
    ensures r.Succeeds(o) && r.Order(o) == o
  {
    var p := ListingTrace(r, o);
    assert o + [] == o;
    OrderStartsWith(r, o, []);
    assert forall i :: 0 <= i < |o| ==> p[i] == o[i] && o[i] in Elems(o);
    assert Elems(o) <= Elems(p);
    assert |p| <= |o| || p[|o|] in Elems(p);
    LegalIsFresh(r, {}, p);
    TailIsNew(o, p);
  }
}
