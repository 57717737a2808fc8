/** Catalog keys as formats: finding the verbs, matching a message against a key, and filling the English. */
module Formats {
  import opened Options
  import opened Text

  predicate IsFlag(c: char) {
    c in "-+# 0"
  }

  predicate IsVerbLetter(c: char) {
    c in "vsdqfgxXtwT"
  }

  function RunEnd(s: string, i: nat, p: char -> bool): (e: nat)
    requires i <= |s|
    ensures i <= e <= |s| && (e < |s| ==> !p(s[e])) && forall k :: i <= k < e ==> p(s[k])
    decreases |s| - i
  {
    if i < |s| && p(s[i]) then RunEnd(s, i + 1, p) else i
  }

  // The optional [n] after the percent sign.
  function IndexEnd(s: string, i: nat): (e: Option<nat>)
    requires i <= |s|
    ensures e.Some? ==> i <= e.value <= |s|
  {
    if i == |s| || s[i] != '[' then Some(i)
    else
      var d := RunEnd(s, i + 1, IsDigit);
      if d > i + 1 && d < |s| && s[d] == ']' then Some(d + 1) else None
  }

  // The optional .precision.
  function PrecisionEnd(s: string, i: nat): (e: Option<nat>)
    requires i <= |s|
    ensures e.Some? ==> i <= e.value <= |s|
  {
    if i == |s| || s[i] != '.' then Some(i)
    else
      var d := RunEnd(s, i + 1, IsDigit);
      if d > i + 1 then Some(d) else None
  }

  // The verb that starts at i: %(\[\d+\])?[-+# 0]*\d*(?:\.\d+)?[vsdqfgxXtwT]
  function VerbEnd(s: string, i: nat): (e: Option<nat>)
    requires i < |s|
    ensures e.Some? ==> i + 2 <= e.value <= |s|
  {
    if s[i] != '%' then None
    else
      var a := IndexEnd(s, i + 1);
      if a.None? then None
      else
        var p := PrecisionEnd(s, RunEnd(s, RunEnd(s, a.value, IsFlag), IsDigit));
        if p.Some? && p.value < |s| && IsVerbLetter(s[p.value]) then Some(p.value + 1) else None
  }

  function FindVerb(s: string, i: nat): (m: Option<(nat, nat)>)
    requires i <= |s|
    ensures m.Some? ==> i <= m.value.0 && m.value.0 + 2 <= m.value.1 <= |s|
    decreases |s| - i
  {
    if i == |s| then None
    else if VerbEnd(s, i).Some? then Some((i, VerbEnd(s, i).value))
    else FindVerb(s, i + 1)
  }

  /** A text cut at its verbs: the chunk before the first verb, then each verb with the chunk after it. */
  datatype Hole = Hole(verb: string, after: string)
  datatype Format = Format(first: string, holes: seq<Hole>)

  function Scan(s: string): Format
    decreases |s|
  {
    var m := FindVerb(s, 0);
    if m.None? then Format(s, [])
    else
      var rest := Scan(s[m.value.1..]);
      Format(s[..m.value.0], [Hole(s[m.value.0..m.value.1], rest.first)] + rest.holes)
  }

  // strings.ReplaceAll(s, "%%", "%")
  function Unescape(s: string): string {
    if s == "" then ""
    else if s[0] == '%' && |s| > 1 && s[1] == '%' then "%" + Unescape(s[2..])
    else [s[0]] + Unescape(s[1..])
  }

  /** The pattern addPattern builds: the key's literal chunks with %% undone. */
  function Compile(th: string): Format {
    var f := Scan(th);
    Format(Unescape(f.first), seq(|f.holes|, i requires 0 <= i < |f.holes| => Hole(f.holes[i].verb, Unescape(f.holes[i].after))))
  }

  // ----- What a verb captures -----

  datatype Kind = Integer | Decimal | Anything

  function KindOf(verb: string): Kind {
    if verb == "" then Anything
    else
      match verb[|verb| - 1]
      case 'd' => Integer
      case 'f' => Decimal
      case 'g' => Decimal
      case _ => Anything
  }

  predicate AllOf(s: string, p: char -> bool) {
    forall i :: 0 <= i < |s| ==> p(s[i])
  }

  // -?\d+   -?[\d.,]+   .+?
  predicate Fits(k: Kind, v: string) {
    var body := if v != "" && v[0] == '-' then v[1..] else v;
    match k
    case Integer => body != "" && AllOf(body, IsDigit)
    case Decimal => body != "" && AllOf(body, c => IsDigit(c) || c == '.' || c == ',')
    case Anything => v != ""
  }

  // Values put in for the verbs.
  function Weave(first: string, holes: seq<Hole>, args: seq<string>): string
    requires |args| == |holes|
    decreases |holes|
  {
    if holes == [] then first else first + args[0] + Weave(holes[0].after, holes[1..], args[1..])
  }

  ghost predicate AllFit(holes: seq<Hole>, args: seq<string>) {
    |args| == |holes| && forall i :: 0 <= i < |args| ==> Fits(KindOf(holes[i].verb), args[i])
  }

  // The message spelled by the key's chunks with these values between them.
  ghost predicate Spells(first: string, holes: seq<Hole>, args: seq<string>, s: string) {
    AllFit(holes, args) && s == Weave(first, holes, args)
  }

  // ----- The anchored regular expression: numbers take as much as they can, text as little -----

  function Match(first: string, holes: seq<Hole>, s: string): Option<seq<string>>
    decreases |holes|, 0
  {
    if !HasPrefix(s, first) then None
    else if holes == [] then (if s == first then Some([]) else None)
    else Try(KindOf(holes[0].verb), holes[0].after, holes[1..], s[|first|..], 0)
  }

  // The length tried after k others have failed.
  function Length(kind: Kind, n: nat, k: nat): nat
    requires k < n
  {
    if kind == Anything then k + 1 else n - k
  }

  function Try(kind: Kind, after: string, holes: seq<Hole>, s: string, k: nat): Option<seq<string>>
    requires k <= |s|
    decreases |holes|, 1 + |s| - k
  {
    if k == |s| then None
    else
      var n := Length(kind, |s|, k);
      var m := if Fits(kind, s[..n]) then Match(after, holes, s[n..]) else None;
      if m.Some? then Some([s[..n]] + m.value) else Try(kind, after, holes, s, k + 1)
  }

  // a's first capture that differs from b's is the one preferred: shorter for text, longer for a number.
  ghost predicate Preferred(holes: seq<Hole>, a: seq<string>, b: seq<string>)
    requires |a| == |b| == |holes|
    decreases |holes|
  {
    || holes == []
    || (if a[0] == b[0] then Preferred(holes[1..], a[1..], b[1..])
        else if KindOf(holes[0].verb) == Anything then |a[0]| < |b[0]|
        else |a[0]| > |b[0]|)
  }

  lemma WeaveStep(first: string, holes: seq<Hole>, args: seq<string>, s: string)
    requires holes != [] && |args| == |holes| && HasPrefix(s, first)
    ensures var rest := s[|first|..];
      s == Weave(first, holes, args) <==>
      HasPrefix(rest, args[0]) && rest[|args[0]|..] == Weave(holes[0].after, holes[1..], args[1..])
  {
    CutAfter(s, first, args[0], Weave(holes[0].after, holes[1..], args[1..]));
  }

  lemma CutAfter(s: string, first: string, x: string, tail: string)
    requires HasPrefix(s, first)
    ensures var rest := s[|first|..]; s == first + x + tail <==> HasPrefix(rest, x) && rest[|x|..] == tail
  {
    var rest := s[|first|..];
    assert s == first + rest;
    assert s == first + x + tail ==> rest == x + tail;
    assert HasPrefix(rest, x) ==> rest == x + rest[|x|..];
    assert first + (x + tail) == first + x + tail;
  }

  /** A match spells the message back: the captured values between the key's chunks are the message. */
  lemma {:induction false} MatchSpells(first: string, holes: seq<Hole>, s: string)
    requires Match(first, holes, s).Some?
    ensures Spells(first, holes, Match(first, holes, s).value, s)
    decreases |holes|, 0
  {
    if holes != [] {
      var args := Match(first, holes, s).value;
      TrySpells(KindOf(holes[0].verb), holes[0].after, holes[1..], s[|first|..], 0);
      WeaveStep(first, holes, args, s);
    }
  }

  lemma {:induction false} TrySpells(kind: Kind, after: string, holes: seq<Hole>, s: string, k: nat)
    requires k <= |s| && Try(kind, after, holes, s, k).Some?
    ensures var args := Try(kind, after, holes, s, k).value;
      && args != [] && Fits(kind, args[0]) && HasPrefix(s, args[0])
      && Spells(after, holes, args[1..], s[|args[0]|..])
    decreases |holes|, 1 + |s| - k
  {
    var n := Length(kind, |s|, k);
    if Fits(kind, s[..n]) && Match(after, holes, s[n..]).Some? {
      MatchSpells(after, holes, s[n..]);
    } else {
      TrySpells(kind, after, holes, s, k + 1);
    }
  }

  /** Every way of spelling the message is found or beaten by a preferred one; so a key matches exactly the messages
      it can spell. */
  lemma {:induction false} MatchFinds(first: string, holes: seq<Hole>, args: seq<string>, s: string)
    requires Spells(first, holes, args, s)
    ensures var m := Match(first, holes, s); m.Some? && |m.value| == |holes| && Preferred(holes, m.value, args)
    decreases |holes|, 0
  {
    WeaveStarts(first, holes, args);
    if holes != [] {
      WeaveStep(first, holes, args, s);
      TryFinds(KindOf(holes[0].verb), holes[0], holes, args, s[|first|..], 0);
    }
  }

  lemma WeaveStarts(first: string, holes: seq<Hole>, args: seq<string>)
    requires |args| == |holes|
    ensures HasPrefix(Weave(first, holes, args), first)
  {}

  // The position of a length in the order of trying.
  function Turn(kind: Kind, n: nat, length: nat): nat
    requires 0 < length <= n
    ensures var k := Turn(kind, n, length); k < n && Length(kind, n, k) == length
  {
    if kind == Anything then length - 1 else n - length
  }

  lemma {:induction false} TryFinds(kind: Kind, hole: Hole, holes: seq<Hole>, args: seq<string>, s: string, k: nat)
    requires |args| == |holes| > 0 && holes[0] == hole && kind == KindOf(hole.verb)
    requires Fits(kind, args[0]) && 0 < |args[0]| && HasPrefix(s, args[0])
    requires Spells(hole.after, holes[1..], args[1..], s[|args[0]|..])
    requires k <= Turn(kind, |s|, |args[0]|)
    ensures var m := Try(kind, hole.after, holes[1..], s, k);
      m.Some? && |m.value| == |holes| && Preferred(holes, m.value, args)
    decreases |holes| - 1, 1 + |s| - k
  {
    var length := |args[0]|;
    if k == Turn(kind, |s|, length) {
      assert s[..length] == args[0];
      MatchFinds(hole.after, holes[1..], args[1..], s[length..]);
      var found := Try(kind, hole.after, holes[1..], s, k).value;
      assert found[0] == args[0] && found[1..] == Match(hole.after, holes[1..], s[length..]).value;
    } else {
      var n := Length(kind, |s|, k);
      if Fits(kind, s[..n]) && Match(hole.after, holes[1..], s[n..]).Some? {
        MatchSpells(hole.after, holes[1..], s[n..]);
        assert Try(kind, hole.after, holes[1..], s, k).value[0] == s[..n];
      } else {
        TryFinds(kind, hole, holes, args, s, k + 1);
      }
    }
  }

  /** A key matches a message exactly when some values of the right kinds spell it. */
  lemma MatchesIff(first: string, holes: seq<Hole>, s: string)
    ensures Match(first, holes, s).Some? <==> exists args :: Spells(first, holes, args, s)
  {
    if Match(first, holes, s).Some? {
      MatchSpells(first, holes, s);
    }
    if args :| Spells(first, holes, args, s) {
      MatchFinds(first, holes, args, s);
    }
  }

  // ----- The key itself -----

  function Verbs(holes: seq<Hole>): seq<string> {
    seq(|holes|, i requires 0 <= i < |holes| => holes[i].verb)
  }

  /** Cutting at the verbs loses nothing. */
  lemma {:induction false} ScanKeepsText(s: string)
    ensures var f := Scan(s); Weave(f.first, f.holes, Verbs(f.holes)) == s
    decreases |s|
  {
    var m := FindVerb(s, 0);
    if m.Some? {
      var rest := Scan(s[m.value.1..]);
      ScanKeepsText(s[m.value.1..]);
      var f := Scan(s);
      assert f.holes[1..] == rest.holes && Verbs(f.holes)[1..] == Verbs(rest.holes);
      InThree(s, m.value.0, m.value.1);
    }
  }

  lemma InThree(s: string, i: nat, j: nat)
    requires i <= j <= |s|
    ensures s[..i] + s[i..j] + s[j..] == s
  {}

  ghost predicate NoDoubled(s: string) {
    forall i :: 0 <= i < |s| - 1 ==> !(s[i] == '%' && s[i + 1] == '%')
  }

  lemma {:induction false} UnescapePlain(s: string)
    requires NoDoubled(s)
    ensures Unescape(s) == s
    decreases |s|
  {
    if s != "" {
      assert NoDoubled(s[1..]) by {
        forall i | 0 <= i < |s[1..]| - 1
          ensures !(s[1..][i] == '%' && s[1..][i + 1] == '%')
        {
          assert !(s[i + 1] == '%' && s[i + 2] == '%');
        }
      }
      assert |s| > 1 ==> !(s[0] == '%' && s[0 + 1] == '%');
      UnescapePlain(s[1..]);
    }
  }

  lemma {:induction false} ChunksPlain(s: string)
    requires NoDoubled(s)
    ensures var f := Scan(s); NoDoubled(f.first) && forall i :: 0 <= i < |f.holes| ==> NoDoubled(f.holes[i].after)
    decreases |s|
  {
    var m := FindVerb(s, 0);
    if m.Some? {
      var rest := s[m.value.1..];
      assert NoDoubled(rest) by {
        forall i | 0 <= i < |rest| - 1
          ensures !(rest[i] == '%' && rest[i + 1] == '%')
        {
          var j := m.value.1 + i;
          assert !(s[j] == '%' && s[j + 1] == '%');
        }
      }
      ChunksPlain(rest);
    }
  }

  /** A key without %% compiles to its own chunks. */
  lemma CompilePlain(th: string)
    requires NoDoubled(th)
    ensures Compile(th) == Scan(th)
  {
    ChunksPlain(th);
    var f := Scan(th);
    UnescapePlain(f.first);
    forall i | 0 <= i < |f.holes|
      ensures Compile(th).holes[i] == f.holes[i]
    {
      UnescapePlain(f.holes[i].after);
    }
    assert Compile(th).holes == f.holes;
  }

  // ----- fill -----

  const MAX_INT := 0x7FFF_FFFF_FFFF_FFFF

  predicate IsIndexed(verb: string) {
    HasPrefix(verb, "%[")
  }

  function Value(digits: string): nat {
    if digits == "" then 0
    else
      var c := digits[|digits| - 1];
      10 * Value(digits[..|digits| - 1]) + (if IsDigit(c) then (c - '0') as nat else 0)
  }

  // The n of %[n]s, unless strconv.Atoi refuses it for its size.
  function IndexOf(verb: string): Option<nat>
    requires IsIndexed(verb)
  {
    var n := Value(verb[2..RunEnd(verb, 2, IsDigit)]);
    if n <= MAX_INT then Some(n) else None
  }

  function Put(verb: string, i: int, args: seq<string>): string {
    if 0 <= i < |args| then args[i] else verb
  }

  // Which value goes in for a verb, with `next` unindexed verbs before it.
  function Slot(verb: string, next: nat): int {
    if IsIndexed(verb) && IndexOf(verb).Some? then IndexOf(verb).value - 1 else next
  }

  function PlainBefore(holes: seq<Hole>, i: nat): nat
    requires i <= |holes|
  {
    if i == 0 then 0 else PlainBefore(holes, i - 1) + (if IsIndexed(holes[i - 1].verb) then 0 else 1)
  }

  // What stands in the place of each verb: %[n] by position, the others in their order.
  function Picks(holes: seq<Hole>, args: seq<string>): seq<string> {
    seq(|holes|, i requires 0 <= i < |holes| => Put(holes[i].verb, Slot(holes[i].verb, PlainBefore(holes, i)), args))
  }

  function Filled(en: string, args: seq<string>): string {
    var f := Scan(en);
    Weave(f.first, f.holes, Picks(f.holes, args))
  }

  lemma FillStep(first: string, holes: seq<Hole>, args: seq<string>, i: nat)
    requires i < |holes|
    ensures var picks := Picks(holes, args);
      && Weave(first, holes[..i + 1], picks[..i + 1])
         == Weave(first, holes[..i], picks[..i]) + Put(holes[i].verb, Slot(holes[i].verb, PlainBefore(holes, i)), args)
            + holes[i].after
  {
    var picks := Picks(holes, args);
    TakeOneMore(holes, i);
    TakeOneMore(picks, i);
    WeaveSnoc(first, holes[..i], picks[..i], holes[i], picks[i]);
  }

  lemma TakeOneMore<T>(xs: seq<T>, i: nat)
    requires i < |xs|
    ensures xs[..i + 1] == xs[..i] + [xs[i]]
  {}

  /** fill: one pass over the English with a running counter. */
  method Fill(en: string, args: seq<string>) returns (r: string)
    ensures r == Filled(en, args)
  {
    var f := Scan(en);
    var picks := Picks(f.holes, args);
    var next: nat := 0;
    r := f.first;
    for i := 0 to |f.holes|
      invariant next == PlainBefore(f.holes, i)
      invariant r == Weave(f.first, f.holes[..i], picks[..i])
    {
      var hole := f.holes[i];
      var at: int := next as int;
      if IsIndexed(hole.verb) {
        var n := IndexOf(hole.verb);
        if n.Some? {
          at := n.value as int - 1;
        }
      } else {
        next := next + 1;
      }
      assert at == Slot(hole.verb, PlainBefore(f.holes, i));
      FillStep(f.first, f.holes, args, i);
      r := r + Put(hole.verb, at, args) + hole.after;
    }
    assert f.holes[..|f.holes|] == f.holes && picks[..|f.holes|] == picks;
  }

  lemma {:induction false} WeaveSnoc(first: string, holes: seq<Hole>, args: seq<string>, hole: Hole, value: string)
    requires |args| == |holes|
    ensures Weave(first, holes + [hole], args + [value]) == Weave(first, holes, args) + value + hole.after
    decreases |holes|
  {
    if holes == [] {
      assert (holes + [hole])[1..] == [] && (args + [value])[1..] == [];
    } else {
      WeaveSnoc(holes[0].after, holes[1..], args[1..], hole, value);
      assert (holes + [hole])[1..] == holes[1..] + [hole] && (args + [value])[1..] == args[1..] + [value];
      assert (holes + [hole])[0] == holes[0] && (args + [value])[0] == args[0];
      var w := Weave(holes[0].after, holes[1..], args[1..]);
      assert first + args[0] + (w + value + hole.after) == first + args[0] + w + value + hole.after;
    }
  }

  lemma {:induction false} AllPlainBefore(holes: seq<Hole>, i: nat)
    requires i <= |holes| && forall j :: 0 <= j < |holes| ==> !IsIndexed(holes[j].verb)
    ensures PlainBefore(holes, i) == i
  {
    if i > 0 {
      AllPlainBefore(holes, i - 1);
    }
  }

  /** Matching and filling undo each other: for a key without %% and without %[n], putting the captured values into
      the key itself gives the message back. */
  lemma FillUndoesMatch(th: string, s: string)
    requires NoDoubled(th) && forall h :: h in Scan(th).holes ==> !IsIndexed(h.verb)
    requires Match(Compile(th).first, Compile(th).holes, s).Some?
    ensures Filled(th, Match(Compile(th).first, Compile(th).holes, s).value) == s
  {
    CompilePlain(th);
    var f := Scan(th);
    MatchSpells(f.first, f.holes, s);
    var args := Match(f.first, f.holes, s).value;
    forall i | 0 <= i < |args|
      ensures Picks(f.holes, args)[i] == args[i]
    {
      AllPlainBefore(f.holes, i);
    }
    assert Picks(f.holes, args) == args;
  }
}
