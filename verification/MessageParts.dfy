/** What translate does with the pieces of a message: which of its five ways is taken, and that each piece is
    translated with the catalog on its own. Everything here is said of Translate itself, none of it of its helpers. */
module MessageParts {
  import opened Options
  import opened Text
  import opened Messages
  import F = Formats

  // Every piece translated on its own.
  function Translations(cat: Catalog, parts: seq<string>, depth: nat): (t: seq<string>)
    ensures |t| == |parts|
  {
    seq(|parts|, i requires 0 <= i < |parts| => Translate(cat, parts[i], depth))
  }

  // The catalog knows some piece, or changes the white space inside it.
  ghost predicate SomeChanges(cat: Catalog, parts: seq<string>, depth: nat) {
    exists i :: 0 <= i < |parts| && Translate(cat, parts[i], depth) != Trim(parts[i])
  }

  // Each line translated if that changes it, and left with its white space if not.
  function LineByLine(cat: Catalog, lines: seq<string>, depth: nat): (t: seq<string>)
    ensures |t| == |lines|
  {
    seq(|lines|, i requires 0 <= i < |lines| =>
      var t := Translate(cat, lines[i], depth);
      if t != Trim(lines[i]) then t else lines[i])
  }

  lemma EachTranslates(cat: Catalog, parts: seq<string>, depth: nat)
    ensures Each(cat, parts, depth) == Translations(cat, parts, depth)
    ensures Changed(parts, Each(cat, parts, depth)) <==> SomeChanges(cat, parts, depth)
  {
    var t := Each(cat, parts, depth);
    forall i | 0 <= i < |parts|
      ensures t[i] == Translate(cat, parts[i], depth)
    {
      EachAt(cat, parts, depth, i);
    }
  }

  // ----- The ways that give nothing -----

  ghost predicate LinesGiveNothing(cat: Catalog, s: string, depth: nat) {
    '\n' in s ==> !SomeChanges(cat, Split(s, "\n"), depth)
  }

  ghost predicate KeyGivesNothing(cat: Catalog, s: string, depth: nat, p: Pattern) {
    || ('\n' in s && !p.lines)
    || F.Match(p.key.first, p.key.holes, s).None?
    || var captured := F.Match(p.key.first, p.key.holes, s).value;
       exists i :: 0 <= i < |captured| && ThaiCount(if depth < 2 then Translate(cat, captured[i], depth + 1) else captured[i]) > 30
  }

  ghost predicate KeysGiveNothing(cat: Catalog, s: string, depth: nat) {
    forall k :: 0 <= k < |cat.patterns| ==> KeyGivesNothing(cat, s, depth, cat.patterns[k])
  }

  // The first n words become English without any Thai left.
  ghost predicate HeadIsKnown(cat: Catalog, words: seq<string>, depth: nat, n: nat)
    requires 0 < n <= |words|
  {
    var head := Join(words[..n], " ");
    Translate(cat, head, depth) != head && !HasThai(Translate(cat, head, depth))
  }

  // Of the heads that leave one to four words, the longest known one, if there is any, has a Thai sentence after it.
  ghost predicate HeadsGiveNothing(cat: Catalog, words: seq<string>, depth: nat) {
    forall n: nat :: 0 < n < |words| <= n + 4 && HeadIsKnown(cat, words, depth, n) ==>
      || ThaiCount(Translate(cat, Join(words[n..], " "), depth)) > 30
      || exists longer: nat :: n < longer < |words| && HeadIsKnown(cat, words, depth, longer)
  }

  ghost predicate SeparatorGivesNothing(cat: Catalog, s: string, depth: nat, sep: string)
    requires sep != ""
  {
    Occurs(s, sep) ==> !SomeChanges(cat, Split(s, sep), depth)
  }

  // ----- Each of them, from the code -----

  lemma NoLine(cat: Catalog, msg: string, depth: nat)
    requires LinesGiveNothing(cat, Trim(msg), depth)
    ensures ByLine(cat, msg, depth).None?
  {
    EachTranslates(cat, Split(Trim(msg), "\n"), depth);
  }

  lemma NothingFromKey(cat: Catalog, s: string, depth: nat, p: Pattern)
    ensures KeyGivesNothing(cat, s, depth, p) <==> GivesNoAnswer(cat, s, depth, p)
  {
    var m := F.Match(p.key.first, p.key.holes, s);
    if m.Some? {
      EachTranslates(cat, m.value, depth + 1);
      var values := Values(cat, m.value, depth);
      forall i | 0 <= i < |m.value|
        ensures values[i] == if depth < 2 then Translate(cat, m.value[i], depth + 1) else m.value[i]
      {}
    }
  }

  lemma NoKeyAnswers(cat: Catalog, s: string, depth: nat)
    requires KeysGiveNothing(cat, s, depth)
    ensures ByKey(cat, s, depth, 0).None?
  {
    forall k | 0 <= k < |cat.patterns|
      ensures GivesNoAnswer(cat, s, depth, cat.patterns[k])
    {
      NothingFromKey(cat, s, depth, cat.patterns[k]);
    }
    EarlierKeysSkipped(cat, s, depth, 0, |cat.patterns|);
  }

  // No head of more than `cut` words is known.
  ghost predicate NoneLonger(cat: Catalog, words: seq<string>, depth: nat, cut: int) {
    forall n: nat :: 0 < n < |words| && cut < n ==> !HeadIsKnown(cat, words, depth, n)
  }

  lemma {:induction false} NoHead(cat: Catalog, words: seq<string>, depth: nat, cut: int)
    requires depth < 2 && cut < |words| && HeadsGiveNothing(cat, words, depth + 1)
    requires NoneLonger(cat, words, depth + 1, cut)
    ensures Glued(cat, words, depth, cut).None?
    decreases if cut < 0 then 0 else cut
  {
    if cut >= 1 && cut >= |words| - 4 {
      if HeadIsKnown(cat, words, depth + 1, cut) {
        GluedAt(cat, words, depth, cut, Join(words[..cut], " "), Join(words[cut..], " "));
      } else {
        NoHead(cat, words, depth, cut - 1);
      }
    }
  }

  lemma {:induction false} SeparatorsSkipped(cat: Catalog, s: string, depth: nat, j: nat, k: nat)
    requires depth < 2 && j <= k <= |SEPARATORS|
    requires forall i :: j <= i < k ==> SeparatorGivesNothing(cat, s, depth + 1, SEPARATORS[i])
    ensures BySeparator(cat, s, depth, j) == BySeparator(cat, s, depth, k)
    decreases k - j
  {
    if j < k {
      assert SeparatorGivesNothing(cat, s, depth + 1, SEPARATORS[j]);
      EachTranslates(cat, Split(s, SEPARATORS[j]), depth + 1);
      SeparatorsSkipped(cat, s, depth, j + 1, k);
    }
  }

  // ----- The ways that give an answer -----

  /** A message of several lines of which some line is known: each line is translated on its own, a line that is not
      known stays, and the lines are put together again. */
  lemma LinesAreTranslated(cat: Catalog, msg: string, depth: nat)
    requires Trim(msg) !in cat.exact && '\n' in Trim(msg) && SomeChanges(cat, Split(Trim(msg), "\n"), depth)
    ensures Translate(cat, msg, depth) == Join(LineByLine(cat, Split(Trim(msg), "\n"), depth), "\n")
  {
    var lines := Split(Trim(msg), "\n");
    EachTranslates(cat, lines, depth);
    assert Replaced(lines, Each(cat, lines, depth)) == LineByLine(cat, lines, depth);
  }

  /** The first key that gives anything fills its English with what it has captured, each value translated on its own
      unless the message is too deep already. */
  lemma FirstKeyAnswers(cat: Catalog, msg: string, depth: nat, k: nat)
    requires k < |cat.patterns| && Trim(msg) !in cat.exact && LinesGiveNothing(cat, Trim(msg), depth)
    requires forall j :: 0 <= j < k ==> KeyGivesNothing(cat, Trim(msg), depth, cat.patterns[j])
    requires !KeyGivesNothing(cat, Trim(msg), depth, cat.patterns[k])
    ensures var p := cat.patterns[k]; var captured := F.Match(p.key.first, p.key.holes, Trim(msg)).value;
      Translate(cat, msg, depth) == F.Filled(p.en, if depth < 2 then Translations(cat, captured, depth + 1) else captured)
  {
    var s, p := Trim(msg), cat.patterns[k];
    NoLine(cat, msg, depth);
    forall j | 0 <= j < k
      ensures GivesNoAnswer(cat, s, depth, cat.patterns[j])
    {
      NothingFromKey(cat, s, depth, cat.patterns[j]);
    }
    EarlierKeysSkipped(cat, s, depth, 0, k);
    NothingFromKey(cat, s, depth, p);
    EachTranslates(cat, F.Match(p.key.first, p.key.holes, s).value, depth + 1);
  }

  function Blanks(n: nat): (r: seq<string>)
    ensures |r| == n
  {
    seq(n, i => "")
  }

  lemma {:induction false} BlankWeave(first: string, holes: seq<F.Hole>)
    ensures F.Weave(first, holes, Blanks(|holes|)) == ""
       <==> first == "" && forall i :: 0 <= i < |holes| ==> holes[i].after == ""
    decreases |holes|
  {
    if holes != [] {
      assert Blanks(|holes|)[1..] == Blanks(|holes[1..]|);
      BlankWeave(holes[0].after, holes[1..]);
      assert forall i :: 1 <= i < |holes| ==> holes[i] == holes[1..][i - 1];
    }
  }

  /** A key is left out of the catalog exactly when nothing is left of it once its verbs are taken away: it would match
      every message. */
  lemma KeyOfVerbsIsDropped(th: string, en: string)
    ensures var key := F.Compile(th); AddPattern(th, en).None? <==> F.Weave(key.first, key.holes, Blanks(|key.holes|)) == ""
  {
    var key := F.Compile(th);
    BlankWeave(key.first, key.holes);
  }

  // No entry, and neither its lines nor a key translate it.
  ghost predicate NotKnownWhole(cat: Catalog, s: string, depth: nat) {
    s !in cat.exact && LinesGiveNothing(cat, s, depth) && KeysGiveNothing(cat, s, depth)
  }

  // The same, and no known head with words glued on.
  ghost predicate OnlyItsParts(cat: Catalog, s: string, depth: nat) {
    NotKnownWhole(cat, s, depth) && ('\n' in s || HeadsGiveNothing(cat, Split(s, " "), depth + 1))
  }

  lemma FallsToSeparators(cat: Catalog, msg: string, s: string, depth: nat)
    requires s == Trim(msg) && depth < 2 && OnlyItsParts(cat, s, depth)
    ensures Translate(cat, msg, depth) == var r := BySeparator(cat, s, depth, 0); if r.Some? then r.value else msg
  {
    NoLine(cat, msg, depth);
    NoKeyAnswers(cat, s, depth);
    if '\n' !in s {
      NoHead(cat, Split(s, " "), depth, |Split(s, " ")| - 1);
    }
  }

  /** A message that is only known in its parts: the first separator that has a known part divides it, every part is
      translated with the catalog on its own, and the same separator puts them together. */
  lemma PartsAreTranslated(cat: Catalog, msg: string, depth: nat, k: nat)
    requires depth < 2 && k < |SEPARATORS| && OnlyItsParts(cat, Trim(msg), depth)
    requires forall j :: 0 <= j < k ==> SeparatorGivesNothing(cat, Trim(msg), depth + 1, SEPARATORS[j])
    requires !SeparatorGivesNothing(cat, Trim(msg), depth + 1, SEPARATORS[k])
    ensures Translate(cat, msg, depth)
         == Join(Translations(cat, Split(Trim(msg), SEPARATORS[k]), depth + 1), SEPARATORS[k])
  {
    var s := Trim(msg);
    FallsToSeparators(cat, msg, s, depth);
    SeparatorsSkipped(cat, s, depth, 0, k);
    EachTranslates(cat, Split(s, SEPARATORS[k]), depth + 1);
  }

  /** When none of the five ways gives anything, the message comes back as it was. */
  lemma NothingKnownStays(cat: Catalog, msg: string, depth: nat)
    requires NotKnownWhole(cat, Trim(msg), depth)
    requires depth < 2 ==> OnlyItsParts(cat, Trim(msg), depth)
    requires depth < 2 ==> forall j :: 0 <= j < |SEPARATORS| ==> SeparatorGivesNothing(cat, Trim(msg), depth + 1, SEPARATORS[j])
    ensures Translate(cat, msg, depth) == msg
  {
    var s := Trim(msg);
    if depth < 2 {
      FallsToSeparators(cat, msg, s, depth);
      SeparatorsSkipped(cat, s, depth, 0, |SEPARATORS|);
    } else {
      NoLine(cat, msg, depth);
      NoKeyAnswers(cat, s, depth);
    }
  }

  // ----- Known and unknown parts -----

  // An entry whose English differs from it.
  predicate IsEntry(cat: Catalog, part: string) {
    Trim(part) in cat.exact && cat.exact[Trim(part)] != Trim(part)
  }

  function English(cat: Catalog, part: string): string {
    if IsEntry(cat, part) then cat.exact[Trim(part)] else part
  }

  /** If every part is an entry or holds nothing the catalog knows, and at least one is an entry, the entries come out in
      English and the other parts unchanged, between the same separators. */
  lemma KnownParts(cat: Catalog, msg: string, depth: nat, k: nat)
    requires depth < 2 && k < |SEPARATORS| && OnlyItsParts(cat, Trim(msg), depth)
    requires forall j :: 0 <= j < k ==> !Occurs(Trim(msg), SEPARATORS[j])
    requires forall p :: p in Split(Trim(msg), SEPARATORS[k]) ==> IsEntry(cat, p) || (Foreign(cat, p) && Plain(p))
    requires Occurs(Trim(msg), SEPARATORS[k]) && exists p :: p in Split(Trim(msg), SEPARATORS[k]) && IsEntry(cat, p)
    ensures var parts := Split(Trim(msg), SEPARATORS[k]);
      Translate(cat, msg, depth)
        == Join(seq(|parts|, i requires 0 <= i < |parts| => English(cat, parts[i])), SEPARATORS[k])
  {
    var parts := Split(Trim(msg), SEPARATORS[k]);
    forall i | 0 <= i < |parts|
      ensures Translate(cat, parts[i], depth + 1) == English(cat, parts[i])
    {
      assert parts[i] in parts;
      if IsEntry(cat, parts[i]) {
        EntryIsUsed(cat, parts[i], depth + 1);
      } else {
        ForeignPlainStays(cat, parts[i], depth + 1);
      }
    }
    var p :| p in parts && IsEntry(cat, p);
    var i :| 0 <= i < |parts| && parts[i] == p;
    assert Translate(cat, parts[i], depth + 1) != Trim(parts[i]);
    PartsAreTranslated(cat, msg, depth, k);
    assert Translations(cat, parts, depth + 1) == seq(|parts|, i requires 0 <= i < |parts| => English(cat, parts[i]));
  }

  // ----- "label: value" -----

  // One word, without a separator in it.
  predicate IsWord(w: string) {
    w != "" && forall i :: 0 <= i < |w| ==> !IsSpace(w[i]) && w[i] != ':'
  }

  lemma NoBreakInWord(w: string, k: nat)
    requires k < |SEPARATORS| && ' ' !in w && '\n' !in w
    ensures !Occurs(w, SEPARATORS[k])
  {
    if Occurs(w, SEPARATORS[k]) {
      OccursHas(w, SEPARATORS[k], if k == 0 then '\n' else ' ');
    }
  }

  lemma WordStays(cat: Catalog, w: string, depth: nat)
    requires cat.patterns == [] && w !in cat.exact && Trim(w) == w && ' ' !in w && '\n' !in w
    ensures Translate(cat, w, depth) == w
  {
    NoSpace(w);
    assert Split(w, " ") == [w];
    forall j | 0 <= j < |SEPARATORS|
      ensures SeparatorGivesNothing(cat, w, depth + 1, SEPARATORS[j])
    {
      NoBreakInWord(w, j);
    }
    NothingKnownStays(cat, w, depth);
  }

  lemma SplitAtLabel(a: string, b: string, msg: string)
    requires IsWord(a) && IsWord(b) && msg == a + ": " + b
    ensures Occurs(msg, ": ") && Split(msg, ": ") == [a, b]
  {
    assert msg[|a|..|a| + 2] == ": ";
    assert OccursAt(msg, ": ", |a|);
    forall j: nat | j < |a|
      ensures !OccursAt(msg, ": ", j)
    {
      assert msg[j..j + 2][0] == a[j];
    }
    assert Index(msg, ": ", 0) == Some(|a|);
    assert msg[..|a|] == a && msg[|a| + 2..] == b;
    if Occurs(b, ": ") {
      OccursHas(b, ": ", ':');
    }
    assert Split(b, ": ") == [b];
  }

  lemma WordsOfLabel(a: string, b: string, msg: string)
    requires IsWord(a) && IsWord(b) && msg == a + ": " + b
    ensures Split(msg, " ") == [a + ":", b]
  {
    assert msg == (a + ":") + (" " + b);
    SplitGlue(a + ":", b);
    NoSpace(a + ":");
    NoSpace(b);
    assert Split(a + ":", " ") == [a + ":"] && Split(b, " ") == [b];
  }

  lemma LabelIsNoHead(cat: Catalog, a: string, b: string, msg: string, depth: nat)
    requires cat.patterns == [] && IsWord(a) && IsWord(b) && msg == a + ": " + b && a + ":" !in cat.exact
    ensures HeadsGiveNothing(cat, Split(msg, " "), depth)
  {
    var words := [a + ":", b];
    WordsOfLabel(a, b, msg);
    WordStays(cat, a + ":", depth);
    assert words[..1] == [a + ":"];
    assert !HeadIsKnown(cat, words, depth, 1);
  }

  lemma LabelIsTrimmed(a: string, b: string, msg: string)
    requires IsWord(a) && IsWord(b) && msg == a + ": " + b
    ensures Trim(a) == a && Trim(b) == b && Trim(msg) == msg && '\n' !in msg
  {
    assert msg[|msg| - 1] == b[|b| - 1];
  }

  lemma EnglishOfTwo(cat: Catalog, a: string, b: string, parts: seq<string>)
    requires parts == [a, b] && IsEntry(cat, a) && IsEntry(cat, b)
    ensures Join(seq(|parts|, i requires 0 <= i < |parts| => English(cat, parts[i])), ": ")
         == cat.exact[Trim(a)] + ": " + cat.exact[Trim(b)]
  {
    assert seq(|parts|, i requires 0 <= i < |parts| => English(cat, parts[i])) == [English(cat, a), English(cat, b)];
    assert Join([English(cat, a), English(cat, b)][1..], ": ") == English(cat, b);
  }

  /** So a label and a value that are both entries come out as both translations, whatever the two words are. */
  lemma LabelAndValue(cat: Catalog, a: string, b: string, msg: string, depth: nat)
    requires depth < 2 && cat.patterns == [] && IsWord(a) && IsWord(b) && msg == a + ": " + b
    requires msg !in cat.exact && a + ":" !in cat.exact && IsEntry(cat, a) && IsEntry(cat, b)
    ensures Translate(cat, msg, depth) == cat.exact[Trim(a)] + ": " + cat.exact[Trim(b)]
  {
    LabelIsTrimmed(a, b, msg);
    LabelIsNoHead(cat, a, b, msg, depth + 1);
    SplitAtLabel(a, b, msg);
    NewlineOccurs(msg);
    var parts := Split(msg, ": ");
    assert parts[0] == a && parts[1] == b;
    assert SEPARATORS[0] == "\n" && SEPARATORS[1] == ": ";
    KnownParts(cat, msg, depth, 1);
    EnglishOfTwo(cat, a, b, parts);
  }

  // ----- "name · value" and "name — value" -----

  // A sign that stands alone between two spaces, as the k-th separator.
  predicate IsSign(w: string, k: nat) {
    (k == 2 && w == "\U{00B7}") || (k == 3 && w == "\U{2014}")
  }

  // Two one-word entries with a sign between them, and nothing else known.
  ghost predicate TwoNames(cat: Catalog, a: string, w: string, b: string, k: nat) {
    && IsSign(w, k) && IsWord(a) && IsWord(b) && IsEntry(cat, a) && IsEntry(cat, b) && !HasThai(cat.exact[a])
    && '\U{00B7}' !in a + b && '\U{2014}' !in a + b
    && cat.patterns == [] && w !in cat.exact && a + (" " + w) !in cat.exact && w + (" " + b) !in cat.exact
    && a + (" " + w) + (" " + b) !in cat.exact
  }

  lemma TwoWords(x: string, y: string)
    requires ' ' !in x && ' ' !in y
    ensures Split(x + (" " + y), " ") == [x, y]
  {
    NoSpace(x);
    NoSpace(y);
    SplitGlue(x, y);
    assert Split(x, " ") == [x] && Split(y, " ") == [y];
  }

  lemma ThreeWords(x: string, y: string, z: string)
    requires ' ' !in x && ' ' !in y && ' ' !in z
    ensures Split(x + (" " + y) + (" " + z), " ") == [x, y, z]
  {
    TwoWords(x, y);
    NoSpace(z);
    SplitGlue(x + (" " + y), z);
    assert Split(z, " ") == [z];
  }

  lemma NamesHaveNoSpace(cat: Catalog, a: string, w: string, b: string, k: nat)
    requires TwoNames(cat, a, w, b, k)
    ensures ' ' !in a && ' ' !in w && ' ' !in b
  {}

  lemma NamesAreTrimmed(x: string, y: string)
    requires x != "" && y != "" && !IsSpace(x[0]) && !IsSpace(y[|y| - 1]) && '\n' !in x && '\n' !in y
    ensures Trim(x + (" " + y)) == x + (" " + y) && '\n' !in x + (" " + y)
  {}

  lemma SignIsNoSpace(w: string, k: nat)
    requires IsSign(w, k)
    ensures |w| == 1 && IsWord(w) && Trim(w) == w && ThaiCount(w) == 0 && !HasThai(w)
  {
    assert w[..0] == "";
  }

  lemma EntryInEnglish(cat: Catalog, a: string, depth: nat)
    requires IsWord(a) && IsEntry(cat, a)
    ensures Trim(a) == a && Translate(cat, a, depth) == cat.exact[a] && cat.exact[a] != a
  {}

  lemma GluesAreUnequal(x: string, y: string, z: string)
    requires x != y
    ensures x + (" " + z) != y + (" " + z)
  {
    var g := " " + z;
    assert (x + g)[..|x + g| - |g|] == x && (y + g)[..|y + g| - |g|] == y;
  }

  lemma OneSpace(x: string, y: string)
    ensures x + " " + y == x + (" " + y)
  {}

  // At the first level the name and its sign are a known head of their own.
  lemma NameAndSign(cat: Catalog, a: string, w: string, b: string, k: nat)
    requires TwoNames(cat, a, w, b, k)
    ensures var head, t := a + (" " + w), cat.exact[a] + (" " + w);
      Translate(cat, head, 1) == t && t != head && !HasThai(t)
  {
    var head := a + (" " + w);
    NamesHaveNoSpace(cat, a, w, b, k);
    SignIsNoSpace(w, k);
    NamesAreTrimmed(a, w);
    TwoWords(a, w);
    NoSpace(a);
    NoSpace(w);
    EntryInEnglish(cat, a, 2);
    WordStays(cat, w, 2);
    assert LongerHeadsFail(cat, [a, w], 2, 1);
    KnownWithTail(cat, a, w, head, 1);
    OneSpace(cat.exact[a], w);
    GluesAreUnequal(cat.exact[a], a, w);
  }

  // At the last level two words that are no entry stay.
  lemma PairStays(cat: Catalog, msg: string)
    requires cat.patterns == [] && msg !in cat.exact && Trim(msg) == msg && '\n' !in msg
    ensures Translate(cat, msg, 2) == msg
  {
    NothingKnownStays(cat, msg, 2);
  }

  lemma SplitAtSign(a: string, w: string, b: string, k: nat, msg: string)
    requires IsSign(w, k) && msg == a + (" " + w) + (" " + b) && '\U{00B7}' !in a + b && '\U{2014}' !in a + b
    ensures SEPARATORS[k] == " " + w + " " && Split(msg, SEPARATORS[k]) == [a, b] && Occurs(msg, SEPARATORS[k])
  {
    var sep := " " + w + " ";
    assert msg == a + sep + b;
    assert msg[|a|..|a| + 3] == sep;
    assert OccursAt(msg, sep, |a|);
    forall j: nat | j < |a|
      ensures !OccursAt(msg, sep, j)
    {
      assert msg[j + 1] == if j + 1 < |a| then a[j + 1] else ' ';
      assert j + 1 < |a| ==> a[j + 1] in a + b;
      assert msg[j..j + 3][1] == msg[j + 1];
    }
    assert Index(msg, sep, 0) == Some(|a|);
    assert msg[..|a|] == a && msg[|a| + 3..] == b;
    assert forall c :: c in b ==> c in a + b;
    if Occurs(b, sep) {
      OccursHas(b, sep, w[0]);
    }
    assert Split(b, sep) == [b];
  }

  lemma OtherSignsAbsent(a: string, w: string, b: string, k: nat, msg: string)
    requires IsSign(w, k) && IsWord(a) && IsWord(b) && msg == a + (" " + w) + (" " + b)
    requires '\U{00B7}' !in a + b && '\U{2014}' !in a + b
    ensures forall j :: 0 <= j < k ==> !Occurs(msg, SEPARATORS[j])
  {
    forall j | 0 <= j < k
      ensures !Occurs(msg, SEPARATORS[j])
    {
      var c := if j == 0 then '\n' else if j == 1 then ':' else '\U{00B7}';
      assert c !in a && c !in b;
      if Occurs(msg, SEPARATORS[j]) {
        OccursHas(msg, SEPARATORS[j], c);
      }
    }
  }

  lemma JoinTwo(words: seq<string>)
    requires |words| == 3
    ensures Join(words[..2], " ") == words[0] + (" " + words[1]) && Join(words[2..], " ") == words[2]
  {
    assert words[..2][1..] == [words[1]];
  }

  lemma JoinNames(x: string, y: string, w: string)
    ensures Join([x, y], " " + w + " ") == x + (" " + w) + (" " + y)
  {
    assert [x, y][1..] == [y];
    assert x + (" " + w + " ") + y == x + (" " + w) + (" " + y);
  }

  // A value that reads like a Thai sentence is no tail: the separator divides the message.
  lemma LongValue(cat: Catalog, a: string, w: string, b: string, k: nat, msg: string, depth: nat)
    requires TwoNames(cat, a, w, b, k) && msg == a + (" " + w) + (" " + b)
    requires depth < 2 && Trim(msg) == msg && '\n' !in msg && HeadsGiveNothing(cat, Split(msg, " "), depth + 1)
    ensures Translate(cat, msg, depth) == cat.exact[a] + (" " + w) + (" " + cat.exact[b])
  {
    SplitAtSign(a, w, b, k, msg);
    OtherSignsAbsent(a, w, b, k, msg);
    var parts := Split(msg, SEPARATORS[k]);
    assert parts[0] == a && parts[1] == b;
    EntryInEnglish(cat, a, depth + 1);
    EntryInEnglish(cat, b, depth + 1);
    KnownParts(cat, msg, depth, k);
    assert seq(|parts|, i requires 0 <= i < |parts| => English(cat, parts[i])) == [cat.exact[a], cat.exact[b]];
    JoinNames(cat.exact[a], cat.exact[b], w);
  }

  lemma ShortValue(cat: Catalog, head: string, b: string, msg: string, t: string)
    requires cat.patterns == [] && msg == head + (" " + b) && Trim(msg) == msg && '\n' !in msg && msg !in cat.exact
    requires Translate(cat, head, 1) == t && t != head && !HasThai(t) && |Split(head, " ")| == 2
    requires IsWord(b) && IsEntry(cat, b) && ThaiCount(cat.exact[b]) <= 30 && |Split(msg, " ")| == 3
    ensures Translate(cat, msg, 0) == t + (" " + cat.exact[b])
  {
    EntryInEnglish(cat, b, 1);
    NoSpace(b);
    assert LongerHeadsFail(cat, Split(msg, " "), 1, 2);
    KnownWithTail(cat, head, b, msg, 0);
    OneSpace(t, cat.exact[b]);
  }

  lemma HeadBeforeSentence(cat: Catalog, a: string, w: string, b: string, k: nat, words: seq<string>)
    requires TwoNames(cat, a, w, b, k) && words == [a, w, b] && ThaiCount(cat.exact[b]) > 30
    ensures HeadsGiveNothing(cat, words, 1)
  {
    NameAndSign(cat, a, w, b, k);
    EntryInEnglish(cat, b, 1);
    JoinTwo(words);
    assert HeadIsKnown(cat, words, 1, 2);
  }

  /** A name and a value that are both entries, with a middle dot or a dash between them: at the outermost level both are
      translated, whichever way the message is taken apart. */
  lemma NameAndValue(cat: Catalog, a: string, w: string, b: string, k: nat, msg: string)
    requires TwoNames(cat, a, w, b, k) && msg == a + (" " + w) + (" " + b)
    ensures Translate(cat, msg, 0) == cat.exact[a] + (" " + w) + (" " + cat.exact[b])
  {
    NamesHaveNoSpace(cat, a, w, b, k);
    NamesAreTrimmed(a + (" " + w), b);
    ThreeWords(a, w, b);
    if ThaiCount(cat.exact[b]) <= 30 {
      NameAndSign(cat, a, w, b, k);
      TwoWords(a, w);
      ShortValue(cat, a + (" " + w), b, msg, cat.exact[a] + (" " + w));
    } else {
      HeadBeforeSentence(cat, a, w, b, k, [a, w, b]);
      LongValue(cat, a, w, b, k, msg, 0);
    }
  }

  lemma OnlyTheNameIsKnown(cat: Catalog, a: string, w: string, b: string, k: nat, words: seq<string>)
    requires TwoNames(cat, a, w, b, k) && words == [a, w, b]
    ensures LongerHeadsFail(cat, words, 2, 1)
  {
    var head := a + (" " + w);
    SignIsNoSpace(w, k);
    NamesAreTrimmed(a, w);
    PairStays(cat, head);
    JoinTwo(words);
    forall c {:trigger words[..c]} | 1 < c < |words|
      ensures Translate(cat, Join(words[..c], " "), 2) == Join(words[..c], " ")
    {
      assert c == 2;
    }
  }

  lemma Regroup(x: string, w: string, b: string)
    ensures x + (" " + (w + (" " + b))) == x + (" " + w) + (" " + b)
  {}

  lemma NameWithRest(cat: Catalog, a: string, tail: string, msg: string)
    requires cat.patterns == [] && IsWord(a) && IsEntry(cat, a) && !HasThai(cat.exact[a])
    requires msg == a + (" " + tail) && Trim(msg) == msg && '\n' !in msg && msg !in cat.exact
    requires Translate(cat, tail, 2) == tail && |Split(tail, " ")| <= 4 && ThaiCount(tail) <= 30
    requires LongerHeadsFail(cat, Split(msg, " "), 2, 1)
    ensures Translate(cat, msg, 1) == cat.exact[a] + (" " + tail)
  {
    NoSpace(a);
    EntryInEnglish(cat, a, 2);
    KnownWithTail(cat, a, tail, msg, 1);
    OneSpace(cat.exact[a], tail);
  }

  lemma NameBeforeSentence(cat: Catalog, a: string, w: string, b: string, k: nat, words: seq<string>)
    requires TwoNames(cat, a, w, b, k) && words == [a, w, b]
    requires Translate(cat, w + (" " + b), 2) == w + (" " + b) && ThaiCount(w + (" " + b)) > 30
    ensures HeadsGiveNothing(cat, words, 2)
  {
    OnlyTheNameIsKnown(cat, a, w, b, k, words);
    assert words[1..] == [w, b] && [w, b][1..] == [b];
    OneSpace(w, b);
    assert !HeadIsKnown(cat, words, 2, 2);
  }

  /** One level down, as part of "label: name · value" or as a captured value, the name alone is taken as a known head
      with words glued on: the value stays as it is, unless it is as long as a sentence. */
  lemma ValueIsLostIff(cat: Catalog, a: string, w: string, b: string, k: nat, msg: string)
    requires TwoNames(cat, a, w, b, k) && msg == a + (" " + w) + (" " + b)
    ensures Translate(cat, msg, 1)
         == cat.exact[a] + (" " + w) + (" " + if ThaiCount(w + (" " + b)) <= 30 then b else cat.exact[b])
  {
    var tail := w + (" " + b);
    NamesHaveNoSpace(cat, a, w, b, k);
    NamesAreTrimmed(w, b);
    NamesAreTrimmed(a + (" " + w), b);
    PairStays(cat, tail);
    ThreeWords(a, w, b);
    if ThaiCount(tail) <= 30 {
      TwoWords(w, b);
      OnlyTheNameIsKnown(cat, a, w, b, k, Split(msg, " "));
      Regroup(a, w, b);
      Regroup(cat.exact[a], w, b);
      NameWithRest(cat, a, tail, msg);
    } else {
      NameBeforeSentence(cat, a, w, b, k, Split(msg, " "));
      LongValue(cat, a, w, b, k, msg, 1);
    }
  }
}
