/** translate: Thai messages into English by a catalog of sentences and formats, over lines, words and separators. */
module Messages {
  import opened Options
  import opened Text
  import F = Formats
  import D = Dates

  datatype Pattern = Pattern(key: F.Format, en: string, lines: bool)
  datatype Catalog = Catalog(exact: map<string, string>, patterns: seq<Pattern>)

  const EMPTY := Catalog(map[], [])
  const SEPARATORS := ["\n", ": ", " \U{00B7} ", " \U{2014} "]

  /** addPattern: a key that is all verbs is dropped. */
  function AddPattern(th: string, en: string): Option<Pattern> {
    var key := F.Compile(th);
    if key.first == "" && forall i :: 0 <= i < |key.holes| ==> key.holes[i].after == "" then None
    else Some(Pattern(key, en, '\n' in th))
  }

  // Thai letters, the baht sign apart.
  function ThaiCount(s: string): nat {
    if s == "" then 0
    else ThaiCount(s[..|s| - 1]) + (if IsThai(s[|s| - 1]) && s[|s| - 1] != '\U{0E3F}' then 1 else 0)
  }

  predicate IsSwallowed(args: seq<string>) {
    exists i :: 0 <= i < |args| && ThaiCount(args[i]) > 30
  }

  /** swallowed */
  method Swallowed(args: seq<string>) returns (r: bool)
    ensures r == IsSwallowed(args)
  {
    for x := 0 to |args|
      invariant forall y :: 0 <= y < x ==> ThaiCount(args[y]) <= 30
    {
      var a := args[x];
      var n := 0;
      for i := 0 to |a|
        invariant n == ThaiCount(a[..i])
      {
        assert a[..i + 1][..i] == a[..i];
        if IsThai(a[i]) && a[i] != '\U{0E3F}' {
          n := n + 1;
        }
      }
      assert a[..|a|] == a;
      if n > 30 {
        return true;
      }
    }
    return false;
  }

  // ----- What translate computes -----

  function Rounds(depth: nat): nat {
    if depth < 2 then 2 - depth else 0
  }

  // Some part differs from its trimmed self once translated.
  predicate Changed(parts: seq<string>, translated: seq<string>)
    requires |parts| == |translated|
  {
    exists i :: 0 <= i < |parts| && translated[i] != Trim(parts[i])
  }

  function Replaced(lines: seq<string>, translated: seq<string>): seq<string>
    requires |lines| == |translated|
  {
    seq(|lines|, i requires 0 <= i < |lines| => if translated[i] != Trim(lines[i]) then translated[i] else lines[i])
  }

  ghost predicate AnyNewline(parts: seq<string>) {
    exists p :: p in parts && '\n' in p
  }

  function Translate(cat: Catalog, msg: string, depth: nat): string
    decreases Rounds(depth), if '\n' in msg then 2 else 0, 1, 0
  {
    var s := Trim(msg);
    if s in cat.exact then cat.exact[s]
    else
      var lines := ByLine(cat, msg, depth);
      if lines.Some? then lines.value
      else
        var key := ByKey(cat, s, depth, 0);
        if key.Some? then key.value
        else if depth >= 2 then msg
        else
          var glued := if '\n' in s then None else Glued(cat, Split(s, " "), depth, |Split(s, " ")| - 1);
          if glued.Some? then glued.value
          else
            var parts := BySeparator(cat, s, depth, 0);
            if parts.Some? then parts.value else msg
  }

  // Every part at this depth.
  function Each(cat: Catalog, parts: seq<string>, depth: nat): (r: seq<string>)
    ensures |r| == |parts|
    decreases Rounds(depth), if AnyNewline(parts) then 3 else 1, 0, |parts|
  {
    if parts == [] then []
    else
      assert forall p :: p in parts[1..] ==> p in parts;
      Each(cat, parts[..|parts| - 1], depth) + [Translate(cat, parts[|parts| - 1], depth)]
  }

  // A message of several lines, line by line at the same depth, if that changes any.
  function ByLine(cat: Catalog, msg: string, depth: nat): Option<string>
    decreases Rounds(depth), if '\n' in msg then 2 else 0, 0, 0
  {
    var s := Trim(msg);
    if '\n' !in s then None
    else
      var lines := Split(s, "\n");
      LinesHaveNoNewline(s);
      TrimKeeps(msg, '\n');
      var t := Each(cat, lines, depth);
      if Changed(lines, t) then Some(Join(Replaced(lines, t), "\n")) else None
  }

  // The first key from the k-th on that matches and swallows nothing.
  function ByKey(cat: Catalog, s: string, depth: nat, k: nat): Option<string>
    requires k <= |cat.patterns|
    decreases Rounds(depth), 0, 0, |cat.patterns| - k
  {
    if k == |cat.patterns| then None
    else
      var p := cat.patterns[k];
      var m := if '\n' in s && !p.lines then None else F.Match(p.key.first, p.key.holes, s);
      if m.None? then ByKey(cat, s, depth, k + 1)
      else
        var args := if depth < 2 then Each(cat, m.value, depth + 1) else m.value;
        if IsSwallowed(args) then ByKey(cat, s, depth, k + 1) else Some(F.Filled(p.en, args))
  }

  // A known head with a code or a name glued on: at most four words are cut off.
  function Glued(cat: Catalog, words: seq<string>, depth: nat, cut: int): Option<string>
    requires depth < 2 && cut < |words|
    decreases Rounds(depth), 0, 0, if cut < 0 then 0 else cut
  {
    if cut < 1 || cut < |words| - 4 then None
    else
      var head := Join(words[..cut], " ");
      var t := Translate(cat, head, depth + 1);
      if t != head && !HasThai(t) then
        var tail := Translate(cat, Join(words[cut..], " "), depth + 1);
        if IsSwallowed([tail]) then None else Some(t + " " + tail)
      else Glued(cat, words, depth, cut - 1)
  }

  // Parts between the first separator, from the k-th on, that changes any.
  function BySeparator(cat: Catalog, s: string, depth: nat, k: nat): Option<string>
    requires depth < 2 && k <= |SEPARATORS|
    decreases Rounds(depth), 0, 0, |SEPARATORS| - k
  {
    if k == |SEPARATORS| then None
    else if !Occurs(s, SEPARATORS[k]) then BySeparator(cat, s, depth, k + 1)
    else
      var parts := Split(s, SEPARATORS[k]);
      var t := Each(cat, parts, depth + 1);
      if Changed(parts, t) then Some(Join(t, SEPARATORS[k])) else BySeparator(cat, s, depth, k + 1)
  }

  lemma LinesHaveNoNewline(s: string)
    ensures !AnyNewline(Split(s, "\n"))
  {
    forall p | p in Split(s, "\n")
      ensures '\n' !in p
    {
      SplitWithin(s, "\n", p);
      NewlineOccurs(p);
    }
  }

  lemma TrimKeeps(msg: string, c: char)
    ensures c in Trim(msg) ==> c in msg
  {
    if c in Trim(msg) {
      TrimWithin(msg);
      WithinKeeps(Trim(msg), msg, c);
    }
  }

  lemma {:induction false} EachAt(cat: Catalog, parts: seq<string>, depth: nat, i: nat)
    requires i < |parts|
    ensures Each(cat, parts, depth)[i] == Translate(cat, parts[i], depth)
    decreases |parts|
  {
    if i < |parts| - 1 {
      EachAt(cat, parts[..|parts| - 1], depth, i);
    }
  }

  // ----- The code, with its loops -----

  // Overwrites every part with its translation.
  method TranslateEach(cat: Catalog, parts: seq<string>, depth: nat) returns (out: seq<string>, changed: bool)
    ensures out == Each(cat, parts, depth) && changed == Changed(parts, out)
    decreases Rounds(depth), if AnyNewline(parts) then 3 else 1, 0, |parts|
  {
    out, changed := parts, false;
    for i := 0 to |parts|
      invariant |out| == |parts|
      invariant forall j :: 0 <= j < i ==> out[j] == Translate(cat, parts[j], depth)
      invariant forall j :: i <= j < |parts| ==> out[j] == parts[j]
      invariant changed <==> exists j :: 0 <= j < i && out[j] != Trim(parts[j])
    {
      assert parts[i] in parts;
      var t := TranslateMessage(cat, out[i], depth);
      if t != Trim(parts[i]) {
        changed := true;
      }
      out := out[i := t];
    }
    forall i | 0 <= i < |parts|
      ensures out[i] == Each(cat, parts, depth)[i]
    {
      EachAt(cat, parts, depth, i);
    }
  }

  // Overwrites the lines the catalog changes.
  method TranslateLines(cat: Catalog, msg: string, depth: nat) returns (r: Option<string>)
    ensures r == ByLine(cat, msg, depth)
    decreases Rounds(depth), if '\n' in msg then 2 else 0, 0, 0
  {
    var s := Trim(msg);
    if '\n' !in s {
      return None;
    }
    LinesHaveNoNewline(s);
    TrimKeeps(msg, '\n');
    var lines := Split(s, "\n");
    var t, changed := TranslateEach(cat, lines, depth);
    if !changed {
      return None;
    }
    var out := lines;
    for i := 0 to |lines|
      invariant |out| == |lines|
      invariant forall j :: 0 <= j < i ==> out[j] == Replaced(lines, t)[j]
      invariant forall j :: i <= j < |lines| ==> out[j] == lines[j]
    {
      if t[i] != Trim(lines[i]) {
        out := out[i := t[i]];
      }
    }
    assert out == Replaced(lines, t);
    r := Some(Join(out, "\n"));
  }

  method TranslateByKey(cat: Catalog, s: string, depth: nat) returns (r: Option<string>)
    ensures r == ByKey(cat, s, depth, 0)
    decreases Rounds(depth), 0, 0, 0
  {
    for k := 0 to |cat.patterns|
      invariant ByKey(cat, s, depth, 0) == ByKey(cat, s, depth, k)
    {
      var p := cat.patterns[k];
      if '\n' in s && !p.lines {
        continue;
      }
      var m := F.Match(p.key.first, p.key.holes, s);
      if m.None? {
        continue;
      }
      var args := m.value;
      if depth < 2 {
        var translated, _ := TranslateEach(cat, args, depth + 1);
        args := translated;
      }
      var skip := Swallowed(args);
      if !skip {
        var filled := F.Fill(p.en, args);
        return Some(filled);
      }
    }
    return None;
  }

  // One cut between two words; `done` when the loop over the cuts ends here.
  method TranslateCut(cat: Catalog, words: seq<string>, depth: nat, cut: nat) returns (done: bool, r: Option<string>)
    requires depth < 2 && 1 <= cut < |words| && cut >= |words| - 4
    ensures Glued(cat, words, depth, cut) == if done then r else Glued(cat, words, depth, cut - 1)
    decreases Rounds(depth), 0, 0, 0
  {
    var head := Join(words[..cut], " ");
    var t := TranslateMessage(cat, head, depth + 1);
    if t == head || HasThai(t) {
      return false, None;
    }
    var tail := TranslateMessage(cat, Join(words[cut..], " "), depth + 1);
    var sentence := Swallowed([tail]);
    return true, if sentence then None else Some(t + " " + tail);
  }

  method TranslateGlued(cat: Catalog, s: string, depth: nat) returns (r: Option<string>)
    requires depth < 2
    ensures r == Glued(cat, Split(s, " "), depth, |Split(s, " ")| - 1)
    decreases Rounds(depth), 0, 0, 1
  {
    var words := Split(s, " ");
    var cut := |words| - 1;
    while cut >= 1 && cut >= |words| - 4
      invariant cut < |words|
      invariant Glued(cat, words, depth, |words| - 1) == Glued(cat, words, depth, cut)
    {
      var done, found := TranslateCut(cat, words, depth, cut);
      if done {
        return found;
      }
      cut := cut - 1;
    }
    return None;
  }

  method TranslateParts(cat: Catalog, s: string, depth: nat) returns (r: Option<string>)
    requires depth < 2
    ensures r == BySeparator(cat, s, depth, 0)
    decreases Rounds(depth), 0, 0, 0
  {
    for k := 0 to |SEPARATORS|
      invariant BySeparator(cat, s, depth, 0) == BySeparator(cat, s, depth, k)
    {
      if Occurs(s, SEPARATORS[k]) {
        var parts, changed := TranslateEach(cat, Split(s, SEPARATORS[k]), depth + 1);
        if changed {
          return Some(Join(parts, SEPARATORS[k]));
        }
      }
    }
    return None;
  }

  /** translate */
  method TranslateMessage(cat: Catalog, msg: string, depth: nat) returns (r: string)
    ensures r == Translate(cat, msg, depth)
    decreases Rounds(depth), if '\n' in msg then 2 else 0, 1, 0
  {
    var s := Trim(msg);
    if s in cat.exact {
      return cat.exact[s];
    }
    var found := TranslateLines(cat, msg, depth);
    if found.Some? {
      return found.value;
    }
    found := TranslateByKey(cat, s, depth);
    if found.Some? {
      return found.value;
    }
    if depth < 2 && '\n' !in s {
      found := TranslateGlued(cat, s, depth);
      if found.Some? {
        return found.value;
      }
    }
    if depth < 2 {
      found := TranslateParts(cat, s, depth);
      if found.Some? {
        return found.value;
      }
    }
    return msg;
  }

  // ----- A message the catalog does not know -----

  ghost predicate Unknown(cat: Catalog, s: string) {
    && s !in cat.exact
    && forall p :: p in cat.patterns ==> F.Match(p.key.first, p.key.holes, s).None?
  }

  // No fragment of the message is known to the catalog.
  ghost predicate Foreign(cat: Catalog, msg: string) {
    forall f :: Within(f, msg) ==> Unknown(cat, Trim(f))
  }

  lemma ForeignWithin(cat: Catalog, f: string, msg: string)
    requires Foreign(cat, msg) && Within(f, msg)
    ensures Foreign(cat, f)
  {
    forall g | Within(g, f)
      ensures Unknown(cat, Trim(g))
    {
      WithinTrans(g, f, msg);
    }
  }

  /** Such a message is treated as the empty catalog would treat it. */
  lemma {:induction false} ForeignAsEmpty(cat: Catalog, msg: string, depth: nat)
    requires Foreign(cat, msg)
    ensures Translate(cat, msg, depth) == Translate(EMPTY, msg, depth)
    decreases Rounds(depth), if '\n' in msg then 2 else 0, 1, 0
  {
    var s := Trim(msg);
    WithinItself(msg);
    TrimWithin(msg);
    ForeignWithin(cat, s, msg);
    ForeignByLine(cat, msg, depth);
    NoKey(cat, s, depth, 0);
    NoKey(EMPTY, s, depth, 0);
    if depth < 2 {
      ForeignGlued(cat, s, depth, |Split(s, " ")| - 1);
      ForeignBySeparator(cat, s, depth, 0);
    }
  }

  lemma {:induction false} ForeignByLine(cat: Catalog, msg: string, depth: nat)
    requires Foreign(cat, msg)
    ensures ByLine(cat, msg, depth) == ByLine(EMPTY, msg, depth)
    decreases Rounds(depth), if '\n' in msg then 2 else 0, 0, 0
  {
    var s := Trim(msg);
    if '\n' in s {
      TrimWithin(msg);
      ForeignWithin(cat, s, msg);
      LinesHaveNoNewline(s);
      TrimKeeps(msg, '\n');
      ForeignEach(cat, s, "\n", depth);
    }
  }

  lemma {:induction false} ForeignEach(cat: Catalog, s: string, sep: string, depth: nat)
    requires sep != "" && Foreign(cat, s)
    ensures Each(cat, Split(s, sep), depth) == Each(EMPTY, Split(s, sep), depth)
    decreases Rounds(depth), if AnyNewline(Split(s, sep)) then 3 else 1, 0, 0
  {
    var parts := Split(s, sep);
    forall i | 0 <= i < |parts|
      ensures Each(cat, parts, depth)[i] == Each(EMPTY, parts, depth)[i]
    {
      assert parts[i] in parts;
      SplitWithin(s, sep, parts[i]);
      ForeignWithin(cat, parts[i], s);
      ForeignAsEmpty(cat, parts[i], depth);
      EachAt(cat, parts, depth, i);
      EachAt(EMPTY, parts, depth, i);
    }
  }

  lemma {:induction false} NoKey(cat: Catalog, s: string, depth: nat, k: nat)
    requires k <= |cat.patterns| && Unknown(cat, s)
    ensures ByKey(cat, s, depth, k).None?
    decreases |cat.patterns| - k
  {
    if k < |cat.patterns| {
      assert cat.patterns[k] in cat.patterns;
      NoKey(cat, s, depth, k + 1);
    }
  }

  lemma {:induction false} ForeignHalves(cat: Catalog, s: string, depth: nat, cut: nat)
    requires depth < 2 && Foreign(cat, s) && 0 < cut < |Split(s, " ")|
    ensures var head, tail := Join(Split(s, " ")[..cut], " "), Join(Split(s, " ")[cut..], " ");
      && Translate(cat, head, depth + 1) == Translate(EMPTY, head, depth + 1)
      && Translate(cat, tail, depth + 1) == Translate(EMPTY, tail, depth + 1)
    decreases Rounds(depth), 0, 0, 0
  {
    var head, tail := Join(Split(s, " ")[..cut], " "), Join(Split(s, " ")[cut..], " ");
    CutWithin(s, " ", cut);
    ForeignWithin(cat, head, s);
    ForeignWithin(cat, tail, s);
    ForeignAsEmpty(cat, head, depth + 1);
    ForeignAsEmpty(cat, tail, depth + 1);
  }

  lemma {:induction false} ForeignGlued(cat: Catalog, s: string, depth: nat, cut: int)
    requires depth < 2 && Foreign(cat, s) && cut < |Split(s, " ")|
    ensures Glued(cat, Split(s, " "), depth, cut) == Glued(EMPTY, Split(s, " "), depth, cut)
    decreases Rounds(depth), 0, 0, if cut < 0 then 0 else cut
  {
    if cut >= 1 {
      ForeignHalves(cat, s, depth, cut);
      ForeignGlued(cat, s, depth, cut - 1);
    }
  }

  lemma {:induction false} ForeignBySeparator(cat: Catalog, s: string, depth: nat, k: nat)
    requires depth < 2 && Foreign(cat, s) && k <= |SEPARATORS|
    ensures BySeparator(cat, s, depth, k) == BySeparator(EMPTY, s, depth, k)
    decreases Rounds(depth), 0, 0, |SEPARATORS| - k
  {
    if k < |SEPARATORS| {
      ForeignEach(cat, s, SEPARATORS[k], depth + 1);
      ForeignBySeparator(cat, s, depth, k + 1);
    }
  }

  // ----- The empty catalog -----

  /** The empty catalog changes nothing but white space. */
  lemma {:induction false} EmptyKeepsText(msg: string, depth: nat)
    ensures Bare(Translate(EMPTY, msg, depth)) == Bare(msg)
    decreases Rounds(depth), if '\n' in msg then 2 else 0, 1, 0
  {
    var s := Trim(msg);
    BareTrim(msg);
    EmptyByLine(msg, depth);
    if depth < 2 {
      EmptyGlued(s, depth, |Split(s, " ")| - 1);
      EmptyBySeparator(s, depth, 0);
    }
  }

  lemma {:induction false} EmptyByLine(msg: string, depth: nat)
    ensures var r := ByLine(EMPTY, msg, depth); r.Some? ==> Bare(r.value) == Bare(msg)
    decreases Rounds(depth), if '\n' in msg then 2 else 0, 0, 0
  {
    var s := Trim(msg);
    if '\n' in s {
      LinesHaveNoNewline(s);
      TrimKeeps(msg, '\n');
      var lines := Split(s, "\n");
      EmptyEach(lines, depth);
      BareJoin(Replaced(lines, Each(EMPTY, lines, depth)), lines, "\n");
      JoinOfSplit(s, "\n");
      BareTrim(msg);
    }
  }

  lemma {:induction false} EmptyEach(parts: seq<string>, depth: nat)
    ensures forall i :: 0 <= i < |parts| ==> Bare(Each(EMPTY, parts, depth)[i]) == Bare(parts[i])
    decreases Rounds(depth), if AnyNewline(parts) then 3 else 1, 0, 0
  {
    forall i | 0 <= i < |parts|
      ensures Bare(Each(EMPTY, parts, depth)[i]) == Bare(parts[i])
    {
      assert parts[i] in parts;
      EmptyKeepsText(parts[i], depth);
      EachAt(EMPTY, parts, depth, i);
    }
  }

  lemma {:induction false} EmptyHalves(s: string, depth: nat, cut: nat)
    requires depth < 2 && 0 < cut < |Split(s, " ")|
    ensures var head, tail := Join(Split(s, " ")[..cut], " "), Join(Split(s, " ")[cut..], " ");
      Bare(Translate(EMPTY, head, depth + 1) + " " + Translate(EMPTY, tail, depth + 1)) == Bare(s)
    decreases Rounds(depth), 0, 0, 0
  {
    var head, tail := Join(Split(s, " ")[..cut], " "), Join(Split(s, " ")[cut..], " ");
    CutWithin(s, " ", cut);
    EmptyKeepsText(head, depth + 1);
    EmptyKeepsText(tail, depth + 1);
    BareGlue(head, tail);
    BareGlue(Translate(EMPTY, head, depth + 1), Translate(EMPTY, tail, depth + 1));
  }

  lemma {:induction false} EmptyGlued(s: string, depth: nat, cut: int)
    requires depth < 2 && cut < |Split(s, " ")|
    ensures var r := Glued(EMPTY, Split(s, " "), depth, cut); r.Some? ==> Bare(r.value) == Bare(s)
    decreases Rounds(depth), 0, 0, if cut < 0 then 0 else cut
  {
    if cut >= 1 {
      EmptyHalves(s, depth, cut);
      EmptyGlued(s, depth, cut - 1);
    }
  }

  lemma BareGlue(a: string, b: string)
    ensures Bare(a + " " + b) == Bare(a) + Bare(b)
  {
    BareConcat(a + " ", b);
    BareConcat(a, " ");
    assert Bare(" ") == "";
  }

  lemma {:induction false} EmptyBySeparator(s: string, depth: nat, k: nat)
    requires depth < 2 && k <= |SEPARATORS|
    ensures var r := BySeparator(EMPTY, s, depth, k); r.Some? ==> Bare(r.value) == Bare(s)
    decreases Rounds(depth), 0, 0, |SEPARATORS| - k
  {
    if k < |SEPARATORS| {
      var parts := Split(s, SEPARATORS[k]);
      EmptyEach(parts, depth + 1);
      BareJoin(Each(EMPTY, parts, depth + 1), parts, SEPARATORS[k]);
      JoinOfSplit(s, SEPARATORS[k]);
      EmptyBySeparator(s, depth, k + 1);
    }
  }

  /** A message none of whose fragments the catalog knows comes back with at most its white space changed. */
  lemma ForeignKeepsText(cat: Catalog, msg: string, depth: nat)
    requires Foreign(cat, msg)
    ensures Bare(Translate(cat, msg, depth)) == Bare(msg)
  {
    ForeignAsEmpty(cat, msg, depth);
    EmptyKeepsText(msg, depth);
  }

  // ----- Messages the catalog does know -----

  // What a key has captured, translated unless the message is too deep already.
  function Values(cat: Catalog, captured: seq<string>, depth: nat): seq<string> {
    if depth < 2 then Each(cat, captured, depth + 1) else captured
  }

  // A key gives no answer: it may not span lines, does not match, or swallows a sentence.
  predicate GivesNoAnswer(cat: Catalog, s: string, depth: nat, p: Pattern) {
    || ('\n' in s && !p.lines)
    || F.Match(p.key.first, p.key.holes, s).None?
    || IsSwallowed(Values(cat, F.Match(p.key.first, p.key.holes, s).value, depth))
  }

  lemma {:induction false} EarlierKeysSkipped(cat: Catalog, s: string, depth: nat, j: nat, k: nat)
    requires j <= k <= |cat.patterns|
    requires forall i :: j <= i < k ==> GivesNoAnswer(cat, s, depth, cat.patterns[i])
    ensures ByKey(cat, s, depth, j) == ByKey(cat, s, depth, k)
    decreases k - j
  {
    if j < k {
      EarlierKeysSkipped(cat, s, depth, j + 1, k);
    }
  }

  lemma KeyMatches(th: string, en: string, args: seq<string>, s: string) returns (captured: seq<string>)
    requires F.NoDoubled(th) && AddPattern(th, en).Some?
    requires F.Spells(F.Scan(th).first, F.Scan(th).holes, args, s)
    ensures F.Spells(F.Scan(th).first, F.Scan(th).holes, captured, s)
    ensures var key := AddPattern(th, en).value.key; F.Match(key.first, key.holes, s) == Some(captured)
  {
    F.CompilePlain(th);
    var key := F.Scan(th);
    F.MatchFinds(key.first, key.holes, args, s);
    F.MatchSpells(key.first, key.holes, s);
    captured := F.Match(key.first, key.holes, s).value;
  }

  /** A message a key without %% can produce is recognised by it wherever the key stands in the catalog, if no earlier
      key gives an answer: the captured values spell the message, and their translations are put into the English,
      unless one of them is still a Thai sentence. */
  lemma AddedKeyIsUsed(cat: Catalog, k: nat, th: string, en: string, args: seq<string>, msg: string, depth: nat)
    returns (captured: seq<string>)
    requires F.NoDoubled(th) && k < |cat.patterns| && AddPattern(th, en) == Some(cat.patterns[k])
    requires F.Spells(F.Scan(th).first, F.Scan(th).holes, args, Trim(msg))
    requires Trim(msg) !in cat.exact && ('\n' in Trim(msg) ==> '\n' in th && ByLine(cat, msg, depth).None?)
    requires forall i :: 0 <= i < k ==> GivesNoAnswer(cat, Trim(msg), depth, cat.patterns[i])
    ensures F.Spells(F.Scan(th).first, F.Scan(th).holes, captured, Trim(msg))
    ensures var values := Values(cat, captured, depth);
      !IsSwallowed(values) ==> Translate(cat, msg, depth) == F.Filled(en, values)
  {
    captured := KeyMatches(th, en, args, Trim(msg));
    EarlierKeysSkipped(cat, Trim(msg), depth, 0, k);
  }

  // The English of each line.
  function Known(cat: Catalog, lines: seq<string>): seq<string>
    requires forall l :: l in lines ==> Trim(l) in cat.exact
  {
    seq(|lines|, i requires 0 <= i < |lines| => assert lines[i] in lines; cat.exact[Trim(lines[i])])
  }

  /** A notice whose every line is an entry comes out as the English lines, in order. */
  lemma KnownNotice(cat: Catalog, msg: string, depth: nat)
    requires '\n' in Trim(msg) && Trim(msg) !in cat.exact
    requires forall l :: l in Split(Trim(msg), "\n") ==> Trim(l) in cat.exact && cat.exact[Trim(l)] != Trim(l)
    ensures Translate(cat, msg, depth) == Join(Known(cat, Split(Trim(msg), "\n")), "\n")
  {
    var lines := Split(Trim(msg), "\n");
    var t := Each(cat, lines, depth);
    forall i | 0 <= i < |lines|
      ensures t[i] == Known(cat, lines)[i] && t[i] != Trim(lines[i])
    {
      assert lines[i] in lines;
      EachAt(cat, lines, depth, i);
    }
    assert t[0] != Trim(lines[0]);
    assert Replaced(lines, t) == Known(cat, lines);
  }

  // No longer head of the words than the first n becomes English.
  ghost predicate LongerHeadsFail(cat: Catalog, words: seq<string>, depth: nat, n: nat) {
    forall c {:trigger words[..c]} :: n < c < |words| ==>
      var head := Join(words[..c], " ");
      Translate(cat, head, depth) == head || HasThai(Translate(cat, head, depth))
  }

  lemma {:induction false} CutsDownTo(cat: Catalog, words: seq<string>, depth: nat, n: nat, cut: nat)
    requires depth < 2 && 0 < n <= cut < |words| <= n + 4 && LongerHeadsFail(cat, words, depth + 1, n)
    ensures Glued(cat, words, depth, cut) == Glued(cat, words, depth, n)
    decreases cut
  {
    if n < cut {
      var head := Join(words[..cut], " ");
      assert Translate(cat, head, depth + 1) == head || HasThai(Translate(cat, head, depth + 1));
      CutsDownTo(cat, words, depth, n, cut - 1);
    }
  }

  lemma GluedAt(cat: Catalog, words: seq<string>, depth: nat, n: nat, head: string, tail: string)
    requires depth < 2 && 0 < n < |words| <= n + 4 && Join(words[..n], " ") == head && Join(words[n..], " ") == tail
    requires Translate(cat, head, depth + 1) != head && !HasThai(Translate(cat, head, depth + 1))
    ensures Glued(cat, words, depth, n) ==
      if ThaiCount(Translate(cat, tail, depth + 1)) > 30 then None
      else Some(Translate(cat, head, depth + 1) + " " + Translate(cat, tail, depth + 1))
  {
    var t := Translate(cat, tail, depth + 1);
    assert IsSwallowed([t]) <==> ThaiCount([t][0]) > 30;
  }

  lemma EntryIsUsed(cat: Catalog, msg: string, depth: nat)
    requires Trim(msg) in cat.exact
    ensures Translate(cat, msg, depth) == cat.exact[Trim(msg)]
  {}

  lemma ForeignPlainStays(cat: Catalog, msg: string, depth: nat)
    requires Foreign(cat, msg) && Plain(msg)
    ensures Translate(cat, msg, depth) == msg
  {
    ForeignAsEmpty(cat, msg, depth);
    EmptyLeavesPlain(msg, depth);
  }

  lemma WordsOfGlue(head: string, tail: string, words: seq<string>, n: nat)
    requires words == Split(head + (" " + tail), " ") && n == |Split(head, " ")|
    ensures n < |words| && Join(words[..n], " ") == head && Join(words[n..], " ") == tail
    ensures |words| == n + |Split(tail, " ")|
  {
    var a, b := Split(head, " "), Split(tail, " ");
    SplitGlue(head, tail);
    JoinOfSplit(head, " ");
    JoinOfSplit(tail, " ");
    assert (a + b)[..|a|] == a && (a + b)[|a|..] == b;
  }

  lemma TailGlued(cat: Catalog, head: string, tail: string, words: seq<string>, depth: nat)
    requires depth < 2 && words == Split(head + (" " + tail), " ") && |Split(tail, " ")| <= 4
    requires LongerHeadsFail(cat, words, depth + 1, |Split(head, " ")|)
    requires Translate(cat, head, depth + 1) != head && !HasThai(Translate(cat, head, depth + 1))
    requires ThaiCount(Translate(cat, tail, depth + 1)) <= 30
    ensures Glued(cat, words, depth, |words| - 1)
         == Some(Translate(cat, head, depth + 1) + " " + Translate(cat, tail, depth + 1))
  {
    var n := |Split(head, " ")|;
    WordsOfGlue(head, tail, words, n);
    CutsDownTo(cat, words, depth, n, |words| - 1);
    GluedAt(cat, words, depth, n, head, tail);
  }

  lemma GluedWins(cat: Catalog, msg: string, s: string, depth: nat, r: string)
    requires Trim(msg) == s && '\n' !in s && s !in cat.exact && depth < 2 && ByKey(cat, s, depth, 0).None?
    requires Glued(cat, Split(s, " "), depth, |Split(s, " ")| - 1) == Some(r)
    ensures Translate(cat, msg, depth) == r
  {}

  /** A known message with up to four words glued on comes out as its English with the translated words after it, if no
      longer part of it is known and the words are no Thai sentence. */
  lemma KnownWithTail(cat: Catalog, head: string, tail: string, msg: string, depth: nat)
    requires depth < 2 && Trim(msg) == head + (" " + tail) && '\n' !in Trim(msg) && |Split(tail, " ")| <= 4
    requires Trim(msg) !in cat.exact && ByKey(cat, Trim(msg), depth, 0).None?
    requires LongerHeadsFail(cat, Split(head + (" " + tail), " "), depth + 1, |Split(head, " ")|)
    requires Translate(cat, head, depth + 1) != head && !HasThai(Translate(cat, head, depth + 1))
    requires ThaiCount(Translate(cat, tail, depth + 1)) <= 30
    ensures Translate(cat, msg, depth) == Translate(cat, head, depth + 1) + " " + Translate(cat, tail, depth + 1)
  {
    TailGlued(cat, head, tail, Split(head + (" " + tail), " "), depth);
    GluedWins(cat, msg, head + (" " + tail), depth,
      Translate(cat, head, depth + 1) + " " + Translate(cat, tail, depth + 1));
  }

  /** A known message with a code after it comes out as the English with the code after it. */
  lemma KnownWithCode(cat: Catalog, head: string, code: string, depth: nat)
    requires depth < 2 && '\n' !in head && ' ' !in code && '\n' !in code
    requires Plain(code) && Foreign(cat, code) && ThaiCount(code) <= 30
    requires Trim(head) == head && Trim(head + (" " + code)) == head + (" " + code)
    requires head in cat.exact && cat.exact[head] != head && !HasThai(cat.exact[head])
    requires head + (" " + code) !in cat.exact && ByKey(cat, head + (" " + code), depth, 0).None?
    ensures Translate(cat, head + (" " + code), depth) == cat.exact[head] + " " + code
  {
    NoSpace(code);
    WordsOfGlue(head, code, Split(head + (" " + code), " "), |Split(head, " ")|);
    EntryIsUsed(cat, head, depth + 1);
    ForeignPlainStays(cat, code, depth + 1);
    KnownWithTail(cat, head, code, head + (" " + code), depth);
  }

  // ----- Keys that span lines -----

  // Holds none of the separators.
  ghost predicate Plain(s: string) {
    forall k :: 0 <= k < |SEPARATORS| ==> !Occurs(s, SEPARATORS[k])
  }

  lemma PlainWithin(f: string, s: string)
    requires Plain(s) && Within(f, s)
    ensures Plain(f)
  {
    forall k | 0 <= k < |SEPARATORS|
      ensures !Occurs(f, SEPARATORS[k])
    {
      if Occurs(f, SEPARATORS[k]) {
        OccursWithin(f, s, SEPARATORS[k]);
      }
    }
  }

  /** The empty catalog leaves a text without separators exactly as it is, outer white space included. */
  lemma {:induction false} EmptyLeavesPlain(msg: string, depth: nat)
    requires Plain(msg)
    ensures Translate(EMPTY, msg, depth) == msg
    decreases Rounds(depth), 0
  {
    var s := Trim(msg);
    TrimWithin(msg);
    PlainWithin(s, msg);
    assert SEPARATORS[0] == "\n";
    NewlineOccurs(s);
    if depth < 2 {
      PlainNotGlued(s, depth, |Split(s, " ")| - 1);
      PlainHasNoParts(s, depth, 0);
    }
  }

  lemma {:induction false} PlainNotGlued(s: string, depth: nat, cut: int)
    requires depth < 2 && Plain(s) && cut < |Split(s, " ")|
    ensures Glued(EMPTY, Split(s, " "), depth, cut).None?
    decreases Rounds(depth + 1), if cut < 0 then 1 else cut + 1
  {
    if cut >= 1 {
      CutWithin(s, " ", cut);
      PlainWithin(Join(Split(s, " ")[..cut], " "), s);
      EmptyLeavesPlain(Join(Split(s, " ")[..cut], " "), depth + 1);
      PlainNotGlued(s, depth, cut - 1);
    }
  }

  lemma {:induction false} PlainHasNoParts(s: string, depth: nat, k: nat)
    requires depth < 2 && Plain(s) && k <= |SEPARATORS|
    ensures BySeparator(EMPTY, s, depth, k).None?
    decreases |SEPARATORS| - k
  {
    if k < |SEPARATORS| {
      PlainHasNoParts(s, depth, k + 1);
    }
  }

  ghost predicate EveryLineForeign(cat: Catalog, s: string) {
    forall l :: l in Split(s, "\n") ==> Foreign(cat, l)
  }

  // Foreign, and free of separators.
  ghost predicate LinesAreForeign(cat: Catalog, s: string) {
    forall l :: l in Split(s, "\n") ==> Foreign(cat, l) && Plain(l)
  }

  ghost predicate LinesAreTrimmed(s: string) {
    forall l :: l in Split(s, "\n") ==> Trim(l) == l
  }

  lemma ForeignLines(cat: Catalog, s: string, depth: nat)
    requires LinesAreForeign(cat, s)
    ensures Each(cat, Split(s, "\n"), depth) == Split(s, "\n")
  {
    var lines := Split(s, "\n");
    forall i | 0 <= i < |lines|
      ensures Each(cat, lines, depth)[i] == lines[i]
    {
      assert lines[i] in lines;
      EachAt(cat, lines, depth, i);
      ForeignPlainStays(cat, lines[i], depth);
    }
  }

  // Every line, unknown as it is, comes back as its trimmed self.
  ghost predicate LinesComeBackTrimmed(s: string, depth: nat) {
    forall l :: l in Split(s, "\n") ==> Translate(EMPTY, l, depth) == Trim(l)
  }

  lemma LinesOfForeign(cat: Catalog, msg: string, depth: nat)
    requires EveryLineForeign(cat, Trim(msg))
    ensures ByLine(cat, msg, depth) == ByLine(EMPTY, msg, depth)
  {
    var lines := Split(Trim(msg), "\n");
    forall i | 0 <= i < |lines|
      ensures Each(cat, lines, depth)[i] == Each(EMPTY, lines, depth)[i]
    {
      assert lines[i] in lines;
      EachAt(cat, lines, depth, i);
      EachAt(EMPTY, lines, depth, i);
      ForeignAsEmpty(cat, lines[i], depth);
    }
    assert Each(cat, lines, depth) == Each(EMPTY, lines, depth);
  }

  lemma EmptyByLineIff(msg: string, depth: nat)
    requires '\n' in Trim(msg)
    ensures ByLine(EMPTY, msg, depth).None? <==> LinesComeBackTrimmed(Trim(msg), depth)
  {
    var lines := Split(Trim(msg), "\n");
    var t := Each(EMPTY, lines, depth);
    forall i | 0 <= i < |lines|
      ensures lines[i] in lines && t[i] == Translate(EMPTY, lines[i], depth)
    {
      EachAt(EMPTY, lines, depth, i);
    }
    if Changed(lines, t) {
      var i :| 0 <= i < |lines| && t[i] != Trim(lines[i]);
      assert lines[i] in lines && Translate(EMPTY, lines[i], depth) != Trim(lines[i]);
    } else {
      forall l | l in lines
        ensures Translate(EMPTY, l, depth) == Trim(l)
      {
        var i :| 0 <= i < |lines| && lines[i] == l;
      }
    }
  }

  /** The comment in the code has a key that spans lines tried whenever no line is known. It is tried exactly when, in
      addition, every line comes back trimmed from a catalog that knows nothing: a line that does not counts as changed,
      and then the message comes back with its lines, white space apart. */
  lemma LineKeysAreTriedIff(cat: Catalog, msg: string, depth: nat, r: string)
    requires '\n' in Trim(msg) && Trim(msg) !in cat.exact && EveryLineForeign(cat, Trim(msg))
    requires ByKey(cat, Trim(msg), depth, 0) == Some(r) && Bare(r) != Bare(msg)
    ensures Translate(cat, msg, depth) == r <==> LinesComeBackTrimmed(Trim(msg), depth)
    ensures !LinesComeBackTrimmed(Trim(msg), depth) ==> Bare(Translate(cat, msg, depth)) == Bare(msg)
  {
    LinesOfForeign(cat, msg, depth);
    EmptyByLineIff(msg, depth);
    EmptyByLine(msg, depth);
  }

  lemma PlainLinesComeBackIff(cat: Catalog, s: string, depth: nat)
    requires LinesAreForeign(cat, s)
    ensures LinesComeBackTrimmed(s, depth) <==> LinesAreTrimmed(s)
  {
    var lines := Split(s, "\n");
    forall l | l in lines
      ensures Translate(EMPTY, l, depth) == l
    {
      EmptyLeavesPlain(l, depth);
    }
  }

  lemma TrimmedLinesAreSkipped(cat: Catalog, msg: string, depth: nat)
    requires '\n' in Trim(msg) && LinesAreForeign(cat, Trim(msg)) && LinesAreTrimmed(Trim(msg))
    ensures ByLine(cat, msg, depth).None?
  {
    LinesOfForeign(cat, msg, depth);
    EmptyByLineIff(msg, depth);
    PlainLinesComeBackIff(cat, Trim(msg), depth);
  }

  lemma UntrimmedLineStops(cat: Catalog, msg: string, depth: nat)
    requires '\n' in Trim(msg) && LinesAreForeign(cat, Trim(msg)) && !LinesAreTrimmed(Trim(msg))
    ensures ByLine(cat, msg, depth) == Some(Trim(msg))
  {
    var lines := Split(Trim(msg), "\n");
    ForeignLines(cat, Trim(msg), depth);
    SomeLineChanged(lines);
    JoinOfSplit(Trim(msg), "\n");
  }

  lemma SomeLineChanged(lines: seq<string>)
    requires exists l :: l in lines && Trim(l) != l
    ensures Changed(lines, lines) && Replaced(lines, lines) == lines
  {
    var l :| l in lines && Trim(l) != l;
    var i :| 0 <= i < |lines| && lines[i] == l;
    assert lines[i] != Trim(lines[i]);
  }

  /** The same for lines without separators: the key is tried exactly when no line begins or ends with white space. */
  lemma PlainLineKeysAreTriedIff(cat: Catalog, msg: string, depth: nat, r: string)
    requires '\n' in Trim(msg) && Trim(msg) !in cat.exact && LinesAreForeign(cat, Trim(msg))
    requires ByKey(cat, Trim(msg), depth, 0) == Some(r) && r != Trim(msg)
    ensures Translate(cat, msg, depth) == r <==> LinesAreTrimmed(Trim(msg))
    ensures !LinesAreTrimmed(Trim(msg)) ==> Translate(cat, msg, depth) == Trim(msg)
  {
    if LinesAreTrimmed(Trim(msg)) {
      TrimmedLinesAreSkipped(cat, msg, depth);
    } else {
      UntrimmedLineStops(cat, msg, depth);
    }
  }

  // Nothing as short as this can be known to a catalog of one long format.
  lemma ShortIsForeign(p: Pattern, l: string)
    requires |l| < |p.key.first|
    ensures Foreign(Catalog(map[], [p]), l)
  {
    forall f | Within(f, l)
      ensures Unknown(Catalog(map[], [p]), Trim(f))
    {
      TrimWithin(f);
      WithinTrans(Trim(f), f, l);
    }
  }

  lemma IsPlain(l: string)
    requires '\n' !in l && ':' !in l && '\U{00B7}' !in l && '\U{2014}' !in l
    ensures Plain(l)
  {
    forall k | 0 <= k < |SEPARATORS|
      ensures !Occurs(l, SEPARATORS[k])
    {
      if Occurs(l, SEPARATORS[k]) {
        var c := if k == 0 then '\n' else if k == 1 then ':' else if k == 2 then '\U{00B7}' else '\U{2014}';
        OccursHas(l, SEPARATORS[k], c);
      }
    }
  }

  lemma SplitOfTwo(a: string, b: string)
    requires '\n' !in a && '\n' !in b
    ensures Split(a + "\n" + b, "\n") == [a, b]
  {
    var s := a + "\n" + b;
    assert s[|a|..|a| + 1] == "\n";
    assert OccursAt(s, "\n", |a|);
    forall j: nat | j < |a|
      ensures !OccursAt(s, "\n", j)
    {
      assert s[j..j + 1][0] == a[j];
    }
    assert Index(s, "\n", 0) == Some(|a|);
    assert s[..|a|] == a && s[|a| + 1..] == b;
    NewlineOccurs(b);
  }

  const NOTICE := "\U{0E01}" + "\n" + " \U{0E02}1"
  const NOTICE_KEY := Pattern(F.Format("\U{0E01}\n \U{0E02}", [F.Hole("%d", "")]), "A", true)

  lemma NoticeIsForeign(l: string)
    requires |l| < 4 && '\n' !in l && ':' !in l && '\U{00B7}' !in l && '\U{2014}' !in l
    ensures Foreign(Catalog(map[], [NOTICE_KEY]), l) && Plain(l)
  {
    ShortIsForeign(NOTICE_KEY, l);
    IsPlain(l);
  }

  lemma NoticeIsTrimmed()
    ensures '\n' in NOTICE && Trim(NOTICE) == NOTICE
  {
    assert NOTICE[1] == '\n';
  }

  lemma NoticeLines()
    ensures LinesAreForeign(Catalog(map[], [NOTICE_KEY]), NOTICE) && !LinesAreTrimmed(NOTICE)
  {
    var a, b := "\U{0E01}", " \U{0E02}1";
    SplitOfTwo(a, b);
    NoticeIsForeign(a);
    NoticeIsForeign(b);
    LeadingSpaceIsTrimmed(b);
    assert [a, b][1] == b;
    assert b in Split(NOTICE, "\n");
  }

  /** One indented line is enough: the key matches the whole message, no line is known, and nothing is translated. */
  lemma IndentHidesTheKey()
    ensures var cat := Catalog(map[], [NOTICE_KEY]);
      && LinesAreForeign(cat, NOTICE) && ByKey(cat, Trim(NOTICE), 0, 0) == Some("A")
      && Translate(cat, NOTICE, 0) == NOTICE
  {
    NoticeLines();
    NoticeIsTrimmed();
    assert NOTICE == NOTICE_KEY.key.first + "1";
    OneNumberMatches(NOTICE_KEY, NOTICE);
    PlainLineKeysAreTriedIff(Catalog(map[], [NOTICE_KEY]), NOTICE, 0, "A");
  }

  lemma NumberIsCaptured(p: Pattern, msg: string)
    requires p.key.holes == [F.Hole("%d", "")] && msg == p.key.first + "1"
    ensures F.Match(p.key.first, p.key.holes, msg) == Some(["1"])
  {
    assert F.Weave(p.key.first, p.key.holes, ["1"]) == msg;
    F.MatchFinds(p.key.first, p.key.holes, ["1"], msg);
    F.MatchSpells(p.key.first, p.key.holes, msg);
    var args := F.Match(p.key.first, p.key.holes, msg).value;
    assert args[0] == msg[|p.key.first|..];
    assert args == ["1"];
  }

  lemma OneNumberMatches(p: Pattern, msg: string)
    requires p.key.holes == [F.Hole("%d", "")] && p.en == "A" && p.lines
    requires msg == p.key.first + "1" && |p.key.first| > 1
    ensures ByKey(Catalog(map[], [p]), msg, 0, 0) == Some("A")
  {
    var cat := Catalog(map[], [p]);
    NumberIsCaptured(p, msg);
    ShortIsForeign(p, "1");
    IsPlain("1");
    EachAt(cat, ["1"], 1, 0);
    ForeignPlainStays(cat, "1", 1);
    assert !IsSwallowed(["1"]);
    assert F.Filled("A", ["1"]) == "A";
  }

  // ----- The whole way out -----

  /** T: dates before and after, so that a month and its year are converted together. */
  method T(cat: Catalog, locale: string, msg: string) returns (r: string)
    ensures locale != "en" ==> r == msg
    ensures locale == "en" ==> D.NoMonth(D.Table(), r)
    ensures locale == "en" && HasThai(msg) ==> r == D.Dates(Translate(cat, D.Dates(msg), 0))
    ensures !HasThai(msg) ==> r == msg
  {
    if locale != "en" || msg == "" || !HasThai(msg) {
      D.TableIsGood();
      if !HasThai(msg) {
        D.NoThaiNoMonth(D.Table(), msg);
      }
      return msg;
    }
    var t := TranslateMessage(cat, D.Dates(msg), 0);
    D.DatesLeaveNoMonth(t);
    return D.Dates(t);
  }
}
