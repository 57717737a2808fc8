/** maskDigits: long digit runs in error text are hidden before the text leaves the system. */
module DigitMask {
  import opened Options
  import opened Text

  // The characters a run is made of.
  predicate InRun(c: char) {
    IsDigit(c) || c == ' ' || c == '-'
  }

  predicate IsWord(c: char) {
    c == '-' || c == '_' || IsDigit(c) || 'a' <= c <= 'z' || 'A' <= c <= 'Z'
  }

  // ----- The regular expression \d[\d -]{8,}\d -----

  predicate Matches(s: string, i: nat, e: nat) {
    i + 10 <= e <= |s| && IsDigit(s[i]) && IsDigit(s[e - 1]) && forall k :: i <= k < e ==> InRun(s[k])
  }

  // The longest match that starts at i.
  function LongestFrom(s: string, i: nat, at: nat): (e: Option<nat>)
    requires i <= at <= |s| && forall k :: i <= k < at ==> InRun(s[k])
    ensures e.Some? ==> at < e.value && Matches(s, i, e.value) && forall f :: e.value < f ==> !Matches(s, i, f)
    ensures e.None? ==> forall f :: at < f ==> !Matches(s, i, f)
    decreases |s| - at
  {
    if at == |s| || !InRun(s[at]) then None
    else
      var further := LongestFrom(s, i, at + 1);
      if further.Some? then further
      else if Matches(s, i, at + 1) then Some(at + 1) else None
  }

  // The leftmost match at or after `from`, as long as it can be.
  function FindFrom(s: string, from: nat): (m: Option<(nat, nat)>)
    requires from <= |s|
    ensures m.Some? ==> var (i, e) := m.value;
      && from <= i && Matches(s, i, e)
      && (forall j, f :: from <= j < i ==> !Matches(s, j, f))
      && (forall f :: e < f ==> !Matches(s, i, f))
    ensures m.None? ==> forall j, f :: from <= j ==> !Matches(s, j, f)
    decreases |s| - from
  {
    if from == |s| then None
    else
      var e := LongestFrom(s, from, from);
      if e.Some? then Some((from, e.value)) else FindFrom(s, from + 1)
  }

  // FindAllStringIndex
  function FindAll(s: string, from: nat): seq<(nat, nat)>
    requires from <= |s|
    decreases |s| - from
  {
    var m := FindFrom(s, from);
    if m.None? then [] else [m.value] + FindAll(s, m.value.1)
  }

  // ----- The code -----

  const MASK := "[digits hidden]"

  function DigitCount(s: string, i: nat, e: nat): nat
    requires i <= e <= |s|
  {
    if i == e then 0 else DigitCount(s, i, e - 1) + (if IsDigit(s[e - 1]) then 1 else 0)
  }

  predicate Hides(s: string, m: (nat, nat)) {
    && m.0 <= m.1 <= |s|
    && !(m.0 > 0 && IsWord(s[m.0 - 1])) && !(m.1 < |s| && IsWord(s[m.1]))
    && DigitCount(s, m.0, m.1) >= 10
  }

  function Hidden(s: string, ms: seq<(nat, nat)>): seq<(nat, nat)> {
    if ms == [] then [] else if Hides(s, ms[0]) then [ms[0]] + Hidden(s, ms[1..]) else Hidden(s, ms[1..])
  }

  // Spans in order, none overlapping the one before.
  ghost predicate Ordered(s: string, spans: seq<(nat, nat)>, from: nat) {
    if spans == [] then from <= |s|
    else from <= spans[0].0 < spans[0].1 && Ordered(s, spans[1..], spans[0].1)
  }

  // The text from `last` on with each span replaced and everything else kept.
  ghost function Splice(s: string, last: nat, spans: seq<(nat, nat)>): string
    requires Ordered(s, spans, last)
    decreases |spans|
  {
    if spans == [] then s[last..]
    else
      OrderedInside(s, spans, last);
      s[last..spans[0].0] + MASK + Splice(s, spans[0].1, spans[1..])
  }

  lemma {:induction false} OrderedInside(s: string, spans: seq<(nat, nat)>, from: nat)
    requires Ordered(s, spans, from)
    ensures from <= |s| && (spans != [] ==> spans[0].1 <= |s|)
    decreases |spans|
  {
    if spans != [] {
      OrderedInside(s, spans[1..], spans[0].1);
    }
  }

  lemma {:induction false} FindAllOrdered(s: string, from: nat)
    requires from <= |s|
    ensures Ordered(s, FindAll(s, from), from)
    decreases |s| - from
  {
    var m := FindFrom(s, from);
    if m.Some? {
      FindAllOrdered(s, m.value.1);
    }
  }

  lemma {:induction false} HiddenOrdered(s: string, ms: seq<(nat, nat)>, from: nat, last: nat)
    requires Ordered(s, ms, from) && last <= from
    ensures Ordered(s, Hidden(s, ms), last)
    decreases |ms|
  {
    if ms == [] {
    } else if Hides(s, ms[0]) {
      HiddenOrdered(s, ms[1..], ms[0].1, ms[0].1);
    } else {
      HiddenOrdered(s, ms[1..], ms[0].1, last);
    }
  }

  ghost function Masked(s: string): string {
    FindAllOrdered(s, 0);
    HiddenOrdered(s, FindAll(s, 0), 0, 0);
    Splice(s, 0, Hidden(s, FindAll(s, 0)))
  }

  /** maskDigits. */
  method MaskDigits(s: string) returns (r: string)
    ensures r == Masked(s)
  {
    var locs := FindAll(s, 0);
    FindAllOrdered(s, 0);
    HiddenOrdered(s, locs, 0, 0);
    var out, any := "", false;
    var last: nat := 0;
    ghost var from: nat := 0;
    for x := 0 to |locs|
      invariant last <= from <= |s| && Ordered(s, locs[x..], from) && Ordered(s, Hidden(s, locs[x..]), last)
      invariant out + Splice(s, last, Hidden(s, locs[x..])) == Masked(s)
      invariant !any ==> out == "" && last == 0
    {
      var (start, end) := locs[x];
      assert locs[x..][0] == locs[x] && locs[x..][1..] == locs[x + 1..];
      OrderedInside(s, locs[x..], from);
      HiddenOrdered(s, locs[x + 1..], end, end);
      HiddenOrdered(s, locs[x + 1..], end, last);
      from := end;
      if (start > 0 && IsWord(s[start - 1])) || (end < |s| && IsWord(s[end])) {
        continue;
      }
      var n := CountDigits(s, start, end);
      if n < 10 {
        continue;
      }
      SpliceStep(s, last, locs[x], Hidden(s, locs[x + 1..]), out);
      out := out + s[last..start] + MASK;
      last := end;
      any := true;
    }
    assert locs[|locs|..] == [];
    r := if any then out + s[last..] else s;
  }

  lemma SpliceStep(s: string, last: nat, span: (nat, nat), rest: seq<(nat, nat)>, out: string)
    requires Ordered(s, [span] + rest, last) && Ordered(s, rest, span.1)
    ensures last <= span.0 <= |s|
    ensures out + Splice(s, last, [span] + rest) == out + s[last..span.0] + MASK + Splice(s, span.1, rest)
  {
    var spans := [span] + rest;
    assert spans[0] == span && spans[1..] == rest;
    OrderedInside(s, spans, last);
    OrderedInside(s, rest, span.1);
  }

  method CountDigits(s: string, start: nat, end: nat) returns (n: nat)
    requires start <= end <= |s|
    ensures n == DigitCount(s, start, end)
  {
    n := 0;
    for i := start to end
      invariant n == DigitCount(s, start, i)
    {
      if IsDigit(s[i]) {
        n := n + 1;
      }
    }
  }

  // ----- What is hidden, without the regular expression -----

  // Nothing but run characters lies between j and k.
  ghost predicate Joined(s: string, j: nat, k: nat) {
    j <= k <= |s| && forall x :: j <= x < k ==> InRun(s[x])
  }

  // From the first to the last digit of a maximal run.
  ghost predicate IsDigitSpan(s: string, i: nat, e: nat) {
    && i < e <= |s| && IsDigit(s[i]) && IsDigit(s[e - 1]) && Joined(s, i, e)
    && (forall j :: 0 <= j < i && IsDigit(s[j]) ==> !Joined(s, j, i))
    && (forall k :: e <= k < |s| && IsDigit(s[k]) ==> !Joined(s, e, k))
  }

  // A span that must not leave the system: long, with ten digits, and not part of a longer token.
  ghost predicate IsLeak(s: string, i: nat, e: nat) {
    IsDigitSpan(s, i, e) && e - i >= 10 && Hides(s, (i, e))
  }

  // No digit before `from` runs on to a digit at or after it.
  ghost predicate Boundary(s: string, from: nat) {
    forall j, k :: 0 <= j < from <= k < |s| && IsDigit(s[j]) && IsDigit(s[k]) ==> !Joined(s, j, k)
  }

  lemma FoundIsSpan(s: string, from: nat)
    requires from <= |s| && Boundary(s, from) && FindFrom(s, from).Some?
    ensures var (i, e) := FindFrom(s, from).value; IsDigitSpan(s, i, e) && Boundary(s, e)
  {
    var (i, e) := FindFrom(s, from).value;
    forall j | 0 <= j < i && IsDigit(s[j])
      ensures !Joined(s, j, i)
    {
      assert j < from || !Matches(s, j, e);
      assert j >= from || !Joined(s, j, i);
    }
    forall k | e <= k < |s| && IsDigit(s[k])
      ensures !Joined(s, e, k)
    {
      assert !Matches(s, i, k + 1);
    }
    forall j, k | 0 <= j < e <= k < |s| && IsDigit(s[j]) && IsDigit(s[k])
      ensures !Joined(s, j, k)
    {
      assert !Joined(s, e, k);
    }
  }

  lemma SpansDoNotOverlap(s: string, i: nat, e: nat, i': nat, e': nat)
    requires IsDigitSpan(s, i, e) && IsDigitSpan(s, i', e') && i <= i' < e
    ensures i' == i && e' == e
  {
    assert Joined(s, i, i');
    assert e >= e' || Joined(s, e, e' - 1);
    assert e' >= e || Joined(s, e', e - 1);
  }

  lemma {:induction false} FindAllFindsSpans(s: string, from: nat, i: nat, e: nat)
    requires from <= |s| && Boundary(s, from)
    ensures (i, e) in FindAll(s, from) <==> from <= i && IsDigitSpan(s, i, e) && e - i >= 10
    decreases |s| - from
  {
    var m := FindFrom(s, from);
    if m.None? {
      assert !(from <= i && Matches(s, i, e));
    } else {
      var (i0, e0) := m.value;
      FoundIsSpan(s, from);
      FindAllFindsSpans(s, e0, i, e);
      if from <= i && IsDigitSpan(s, i, e) && e - i >= 10 && i < e0 {
        assert Matches(s, i, e);
        SpansDoNotOverlap(s, i0, e0, i, e);
      }
    }
  }

  lemma {:induction false} HiddenAre(s: string, ms: seq<(nat, nat)>, m: (nat, nat))
    ensures m in Hidden(s, ms) <==> m in ms && Hides(s, m)
    decreases |ms|
  {
    if ms != [] {
      HiddenAre(s, ms[1..], m);
      assert ms == [ms[0]] + ms[1..];
    }
  }

  /** Exactly the leaks are replaced: the spans from first to last digit of a maximal run of digits, spaces and
      dashes that are at least 10 long, hold at least 10 digits and do not touch a word character. Everything
      else is kept, in order, by Splice. */
  lemma ExactlyLeaksAreMasked(s: string, i: nat, e: nat)
    ensures (i, e) in Hidden(s, FindAll(s, 0)) <==> IsLeak(s, i, e)
  {
    FindAllFindsSpans(s, 0, i, e);
    HiddenAre(s, FindAll(s, 0), (i, e));
  }
}
