/** Formats put together from chunks and verbs: scanning takes them apart again, and filling puts each value where its
    verb says. */
module FormatPlaces {
  import opened Options
  import opened Text
  import opened Formats

  // ----- The verbs of a format -----

  predicate IsFlagSign(c: char) {
    c == '-' || c == '+' || c == '#' || c == ' ' || c == '0'
  }

  predicate IsKind(c: char) {
    c == 'v' || c == 's' || c == 'd' || c == 'q' || c == 'f' || c == 'g' || c == 'x' || c == 'X' || c == 't' || c == 'w' || c == 'T'
  }

  function Decimal(n: nat): (digits: string)
    ensures digits != "" && AllOf(digits, IsDigit)
  {
    if n < 10 then [('0' as int + n) as char] else Decimal(n / 10) + [('0' as int + n % 10) as char]
  }

  /** A verb as it is written, the positions where its flags, width and precision begin, and the number in its brackets, if
      there are any. */
  datatype Verb = Verb(text: string, flags: nat, width: nat, precision: nat, index: Option<nat>) {
    // Its last character: the kind of value.
    function Letter(): int {
      |text| - 1
    }
  }

  // %, or %[n] with the number in decimal.
  ghost predicate HasHead(v: Verb) {
    && |v.text| > v.flags > 0 && v.text[0] == '%'
    && (if v.index.Some? then
          v.flags >= 4 && v.text[1] == '[' && v.text[v.flags - 1] == ']' && v.text[2..v.flags - 1] == Decimal(v.index.value)
        else v.flags == 1)
  }

  // Flags, a width that does not begin with 0, a dot with digits or nothing, and a letter.
  ghost predicate HasTail(v: Verb) {
    && v.flags <= v.width <= v.precision <= v.Letter() && IsKind(v.text[v.Letter()])
    && (forall k :: v.flags <= k < v.width ==> IsFlagSign(v.text[k]))
    && (forall k :: v.width <= k < v.precision ==> '0' <= v.text[k] <= '9')
    && (v.width < v.precision ==> v.text[v.width] != '0')
    && (v.precision < v.Letter() ==> v.text[v.precision] == '.' && v.precision + 1 < v.Letter())
    && (forall k :: v.precision < k < v.Letter() ==> '0' <= v.text[k] <= '9')
  }

  ghost predicate IsVerb(v: Verb) {
    HasHead(v) && HasTail(v)
  }

  // ----- A verb is found wherever it stands -----

  // x stands at position a of s.
  ghost predicate At(s: string, a: nat, x: string) {
    a + |x| <= |s| && forall k :: 0 <= k < |x| ==> s[a + k] == x[k]
  }

  lemma LetterIsPlain(c: char)
    requires IsKind(c)
    ensures IsVerbLetter(c) && !IsFlag(c) && !IsDigit(c) && c != '.' && c != '[' && c != '%'
  {}

  lemma FlagIsFlag(c: char)
    ensures IsFlagSign(c) ==> IsFlag(c) && c != '['
    ensures '1' <= c <= '9' || c == '.' ==> !IsFlag(c)
  {}

  lemma RunEnds(s: string, i: nat, x: string, a: nat, e: nat, p: char -> bool)
    requires At(s, i, x) && a <= e < |x| && (forall k :: a <= k < e ==> p(x[k])) && !p(x[e])
    ensures RunEnd(s, i + a, p) == i + e
  {
    forall k | i + a <= k < i + e
      ensures p(s[k])
    {
      assert s[i + (k - i)] == x[k - i];
    }
    assert s[i + e] == x[e];
  }

  lemma FlagsEnd(s: string, i: nat, x: string, a: nat, f: nat)
    requires At(s, i, x) && a <= f < |x| && (forall k :: a <= k < f ==> IsFlagSign(x[k])) && !IsFlag(x[f])
    ensures RunEnd(s, i + a, IsFlag) == i + f
  {
    forall k | a <= k < f
      ensures IsFlag(x[k])
    {
      FlagIsFlag(x[k]);
    }
    RunEnds(s, i, x, a, f, IsFlag);
  }

  lemma DigitsEnd(s: string, i: nat, x: string, f: nat, w: nat)
    requires At(s, i, x) && f <= w < |x| && (forall k :: f <= k < w ==> '0' <= x[k] <= '9') && !IsDigit(x[w])
    ensures RunEnd(s, i + f, IsDigit) == i + w
  {
    RunEnds(s, i, x, f, w, IsDigit);
  }

  lemma PrecisionEnds(s: string, i: nat, x: string, w: nat, b: nat)
    requires At(s, i, x) && w <= b < |x| && !IsDigit(x[b]) && x[b] != '.'
    requires w < b ==> x[w] == '.' && w + 1 < b && forall k :: w < k < b ==> '0' <= x[k] <= '9'
    ensures PrecisionEnd(s, i + w) == Some(i + b)
  {
    assert s[i + w] == x[w];
    if w < b {
      DigitsEnd(s, i, x, w + 1, b);
    }
  }

  lemma HeadEnds(s: string, i: nat, x: string, a: nat)
    requires At(s, i, x) && 4 <= a <= |x| && x[1] == '[' && x[a - 1] == ']' && forall k :: 2 <= k < a - 1 ==> '0' <= x[k] <= '9'
    ensures IndexEnd(s, i + 1) == Some(i + a) && RunEnd(s, i + 2, IsDigit) == i + a - 1
  {
    assert s[i + 1] == x[1] && s[i + (a - 1)] == x[a - 1];
    DigitsEnd(s, i, x, 2, a - 1);
  }

  // The digits of the index, one by one.
  lemma IndexDigits(v: Verb)
    requires HasHead(v) && v.index.Some?
    ensures forall k :: 2 <= k < v.flags - 1 ==> '0' <= v.text[k] <= '9'
  {
    forall k | 2 <= k < v.flags - 1
      ensures '0' <= v.text[k] <= '9'
    {
      assert IsDigit(Decimal(v.index.value)[k - 2]);
    }
  }

  // What follows the head is no bracket, what follows the flags no flag, and what follows the width no digit.
  lemma SignsDiffer(v: Verb)
    requires HasTail(v)
    ensures v.text[v.flags] != '[' && !IsFlag(v.text[v.width]) && !IsDigit(v.text[v.precision])
    ensures var c := v.text[v.Letter()]; IsVerbLetter(c) && !IsDigit(c) && c != '.'
  {
    LetterIsPlain(v.text[v.Letter()]);
    FlagIsFlag(v.text[v.flags]);
    FlagIsFlag(v.text[v.width]);
  }

  lemma HeadFound(s: string, i: nat, v: Verb)
    requires HasHead(v) && v.text[v.flags] != '[' && At(s, i, v.text)
    ensures s[i] == '%' && IndexEnd(s, i + 1) == Some(i + v.flags)
  {
    assert s[i + 0] == v.text[0] && s[i + v.flags] == v.text[v.flags];
    if v.index.Some? {
      IndexDigits(v);
      HeadEnds(s, i, v.text, v.flags);
    }
  }

  // Where flags, width and precision end.
  ghost predicate Ends(s: string, a: nat, f: nat, w: nat, b: nat) {
    && a <= |s| && f <= |s| && w <= |s| && RunEnd(s, a, IsFlag) == f && RunEnd(s, f, IsDigit) == w
    && PrecisionEnd(s, w) == Some(b) && b < |s| && IsVerbLetter(s[b])
  }

  lemma EndsFrom(s: string, a: nat, f: nat, w: nat, b: nat)
    requires a <= |s| && f <= |s| && w <= |s| && RunEnd(s, a, IsFlag) == f && RunEnd(s, f, IsDigit) == w
    requires PrecisionEnd(s, w) == Some(b) && b < |s| && IsVerbLetter(s[b])
    ensures Ends(s, a, f, w, b)
  {}

  lemma PiecesEnd(s: string, i: nat, x: string, a: nat, f: nat, w: nat, b: nat)
    requires At(s, i, x) && a <= f <= w <= b < |x| && IsVerbLetter(x[b]) && !IsDigit(x[b]) && x[b] != '.'
    requires (forall k :: a <= k < f ==> IsFlagSign(x[k])) && !IsFlag(x[f])
    requires (forall k :: f <= k < w ==> '0' <= x[k] <= '9') && !IsDigit(x[w])
    requires w < b ==> x[w] == '.' && w + 1 < b && forall k :: w < k < b ==> '0' <= x[k] <= '9'
    ensures Ends(s, i + a, i + f, i + w, i + b)
  {
    FlagsEnd(s, i, x, a, f);
    DigitsEnd(s, i, x, f, w);
    PrecisionEnds(s, i, x, w, b);
    assert s[i + b] == x[b];
    EndsFrom(s, i + a, i + f, i + w, i + b);
  }

  lemma TailFound(s: string, i: nat, v: Verb, b: nat)
    requires HasTail(v) && At(s, i, v.text) && b == v.Letter()
    ensures Ends(s, i + v.flags, i + v.width, i + v.precision, i + b)
  {
    SignsDiffer(v);
    PiecesEnd(s, i, v.text, v.flags, v.width, v.precision, b);
  }

  lemma VerbEndIs(s: string, i: nat, a: nat, f: nat, w: nat, b: nat)
    requires i < |s| && s[i] == '%' && IndexEnd(s, i + 1) == Some(a)
    requires Ends(s, a, f, w, b)
    ensures VerbEnd(s, i) == Some(b + 1)
  {}

  lemma VerbIsFound(s: string, i: nat, v: Verb)
    requires IsVerb(v) && At(s, i, v.text)
    ensures i < |s| && VerbEnd(s, i) == Some(i + |v.text|)
  {
    var b := |v.text| - 1;
    SignsDiffer(v);
    HeadFound(s, i, v);
    TailFound(s, i, v, b);
    VerbEndIs(s, i, i + v.flags, i + v.width, i + v.precision, i + b);
  }

  // ----- Scanning takes a format apart -----

  predicate NoPercent(s: string) {
    forall k :: 0 <= k < |s| ==> s[k] != '%'
  }

  function HolesOf(verbs: seq<Verb>, chunks: seq<string>): (holes: seq<Hole>)
    requires |verbs| == |chunks|
    ensures |holes| == |verbs|
  {
    seq(|verbs|, i requires 0 <= i < |verbs| => Hole(verbs[i].text, chunks[i]))
  }

  // The text of a format: chunks without percent signs, and a verb before each but the first.
  function Written(first: string, verbs: seq<Verb>, chunks: seq<string>): string
    requires |verbs| == |chunks|
    decreases |verbs|
  {
    if verbs == [] then first else first + verbs[0].text + Written(chunks[0], verbs[1..], chunks[1..])
  }

  ghost predicate IsText(first: string, verbs: seq<Verb>, chunks: seq<string>) {
    && |verbs| == |chunks| && NoPercent(first)
    && forall i :: 0 <= i < |verbs| ==> IsVerb(verbs[i]) && NoPercent(chunks[i])
  }

  lemma NotHere(s: string, i: nat)
    requires i < |s| && s[i] != '%'
    ensures FindVerb(s, i) == FindVerb(s, i + 1)
  {}

  lemma Here(s: string, i: nat, e: nat)
    requires i < |s| && VerbEnd(s, i) == Some(e)
    ensures FindVerb(s, i) == Some((i, e))
  {}

  ghost predicate Stays<T(!new)>(f: nat -> T, k: nat) {
    f(k) == f(k + 1)
  }

  lemma {:induction false} Constant<T(!new)>(f: nat -> T, i: nat, n: nat)
    requires i <= n && forall k :: i <= k < n ==> Stays(f, k)
    ensures f(i) == f(n)
    decreases n - i
  {
    if i < n {
      assert Stays(f, i);
      Constant(f, i + 1, n);
    }
  }

  lemma SkipsChunk(s: string, n: nat)
    requires n <= |s| && forall k :: 0 <= k < n ==> s[k] != '%'
    ensures FindVerb(s, 0) == FindVerb(s, n)
  {
    var f := (k: nat) => if k <= |s| then FindVerb(s, k) else None;
    forall k | 0 <= k < n
      ensures Stays(f, k)
    {
      NotHere(s, k);
    }
    Constant(f, 0, n);
  }

  lemma NoVerb(first: string)
    requires NoPercent(first)
    ensures FindVerb(first, 0).None?
  {
    SkipsChunk(first, |first|);
  }

  /** Scanning a format takes it apart into the chunks and verbs it was written with. */
  lemma {:induction false} ScanInverts(first: string, verbs: seq<Verb>, chunks: seq<string>)
    requires IsText(first, verbs, chunks)
    ensures Scan(Written(first, verbs, chunks)) == Format(first, HolesOf(verbs, chunks))
    decreases |verbs|
  {
    if verbs == [] {
      NoVerb(first);
      assert HolesOf(verbs, chunks) == [];
    } else {
      var rest := Written(chunks[0], verbs[1..], chunks[1..]);
      ScanInverts(chunks[0], verbs[1..], chunks[1..]);
      ScansVerb(first, verbs[0], rest, first + verbs[0].text + rest);
      assert HolesOf(verbs, chunks) == [Hole(verbs[0].text, chunks[0])] + HolesOf(verbs[1..], chunks[1..]);
    }
  }

  lemma ScanAt(s: string, n: nat, e: nat)
    requires n <= e <= |s| && FindVerb(s, 0) == Some((n, e))
    ensures Scan(s) == Format(s[..n], [Hole(s[n..e], Scan(s[e..]).first)] + Scan(s[e..]).holes)
  {}

  lemma VerbAt(s: string, n: nat, e: nat)
    requires n < e <= |s| && (forall k :: 0 <= k < n ==> s[k] != '%') && VerbEnd(s, n) == Some(e)
    ensures Scan(s) == Format(s[..n], [Hole(s[n..e], Scan(s[e..]).first)] + Scan(s[e..]).holes)
  {
    SkipsChunk(s, n);
    Here(s, n, e);
    ScanAt(s, n, e);
  }

  lemma InTheMiddle(first: string, v: string, rest: string, s: string)
    requires s == first + v + rest
    ensures At(s, |first|, v) && s[..|first|] == first && s[|first|..|first| + |v|] == v && s[|first| + |v|..] == rest
  {}

  lemma VerbInText(first: string, v: Verb, rest: string, s: string)
    requires IsVerb(v) && s == first + v.text + rest
    ensures v.text != "" && VerbEnd(s, |first|) == Some(|first| + |v.text|)
  {
    InTheMiddle(first, v.text, rest, s);
    VerbIsFound(s, |first|, v);
  }

  lemma ScansVerb(first: string, v: Verb, rest: string, s: string)
    requires NoPercent(first) && IsVerb(v) && s == first + v.text + rest
    ensures Scan(s) == Format(first, [Hole(v.text, Scan(rest).first)] + Scan(rest).holes)
  {
    VerbInText(first, v, rest, s);
    FirstVerb(first, v.text, rest, s);
  }

  lemma FirstVerb(first: string, text: string, rest: string, s: string)
    requires NoPercent(first) && s == first + text + rest && text != "" && VerbEnd(s, |first|) == Some(|first| + |text|)
    ensures Scan(s) == Format(first, [Hole(text, Scan(rest).first)] + Scan(rest).holes)
  {
    InTheMiddle(first, text, rest, s);
    assert forall k :: 0 <= k < |first| ==> s[k] == first[k];
    VerbAt(s, |first|, |first| + |text|);
  }

  // ----- Filling puts each value in its place -----

  lemma {:induction false} DecimalIsRead(n: nat)
    ensures Value(Decimal(n)) == n
    decreases n
  {
    if n >= 10 {
      var d := Decimal(n / 10);
      DecimalIsRead(n / 10);
      assert (d + [('0' as int + n % 10) as char])[..|d|] == d;
    }
  }

  lemma IndexIsRead(v: Verb)
    requires IsVerb(v) && (v.index.Some? ==> v.index.value <= MAX_INT)
    ensures IsIndexed(v.text) <==> v.index.Some?
    ensures v.index.Some? ==> IndexOf(v.text) == v.index
  {
    SignsDiffer(v);
    assert v.text[..2] == [v.text[0], v.text[1]];
    if v.index.Some? {
      IndexDigits(v);
      assert At(v.text, 0, v.text);
      HeadEnds(v.text, 0, v.text, v.flags);
      DecimalIsRead(v.index.value);
    }
  }

  // How many of the first i verbs take the next value.
  function NextsBefore(verbs: seq<Verb>, i: nat): nat
    requires i <= |verbs|
  {
    if i == 0 then 0 else NextsBefore(verbs, i - 1) + if verbs[i - 1].index.None? then 1 else 0
  }

  // The value for the i-th verb: the n-th value for %[n], and for the others one value after the other; the verb itself if
  // there is no such value.
  function ValueAt(verbs: seq<Verb>, i: nat, args: seq<string>): string
    requires i < |verbs|
  {
    ValueFor(verbs[i], NextsBefore(verbs, i), args)
  }

  function ValueFor(v: Verb, next: nat, args: seq<string>): string {
    if v.index.Some? then (if 1 <= v.index.value <= |args| then args[v.index.value - 1] else v.text)
    else if next < |args| then args[next] else v.text
  }

  ghost predicate IndicesFit(verbs: seq<Verb>) {
    forall i :: 0 <= i < |verbs| && verbs[i].index.Some? ==> verbs[i].index.value <= MAX_INT
  }

  lemma {:induction false} CountsNexts(verbs: seq<Verb>, holes: seq<Hole>, i: nat)
    requires |holes| == |verbs| && i <= |verbs|
    requires forall k :: 0 <= k < |verbs| ==> (IsIndexed(holes[k].verb) <==> verbs[k].index.Some?)
    ensures PlainBefore(holes, i) == NextsBefore(verbs, i)
    decreases i
  {
    if i > 0 {
      CountsNexts(verbs, holes, i - 1);
    }
  }

  lemma IndicesAreRead(verbs: seq<Verb>, holes: seq<Hole>)
    requires |holes| == |verbs| && IndicesFit(verbs) && forall k :: 0 <= k < |verbs| ==> IsVerb(verbs[k]) && holes[k].verb == verbs[k].text
    ensures forall k :: 0 <= k < |verbs| ==> (IsIndexed(holes[k].verb) <==> verbs[k].index.Some?)
  {
    forall k | 0 <= k < |verbs|
      ensures IsIndexed(holes[k].verb) <==> verbs[k].index.Some?
    {
      IndexIsRead(verbs[k]);
    }
  }

  lemma PutIs(v: Verb, next: nat, args: seq<string>)
    requires IsIndexed(v.text) <==> v.index.Some?
    requires v.index.Some? ==> IndexOf(v.text) == v.index
    ensures Put(v.text, Slot(v.text, next), args) == ValueFor(v, next, args)
  {}

  lemma PickIs(verbs: seq<Verb>, chunks: seq<string>, args: seq<string>, i: nat)
    requires |verbs| == |chunks| && i < |verbs| && IndicesFit(verbs) && forall k :: 0 <= k < |verbs| ==> IsVerb(verbs[k])
    ensures Picks(HolesOf(verbs, chunks), args)[i] == ValueAt(verbs, i, args)
  {
    var holes := HolesOf(verbs, chunks);
    IndicesAreRead(verbs, holes);
    CountsNexts(verbs, holes, i);
    IndexIsRead(verbs[i]);
    PutIs(verbs[i], NextsBefore(verbs, i), args);
  }

  /** Filling a format replaces every %[n] by the n-th value and the other verbs by the values in order, and leaves a verb
      without a value, and all the text between, as they are. */
  lemma FillsPlaces(first: string, verbs: seq<Verb>, chunks: seq<string>, args: seq<string>)
    requires IsText(first, verbs, chunks) && IndicesFit(verbs)
    ensures Filled(Written(first, verbs, chunks), args)
         == Weave(first, HolesOf(verbs, chunks), seq(|verbs|, i requires 0 <= i < |verbs| => ValueAt(verbs, i, args)))
  {
    var holes, values := HolesOf(verbs, chunks), seq(|verbs|, i requires 0 <= i < |verbs| => ValueAt(verbs, i, args));
    ScanInverts(first, verbs, chunks);
    forall i | 0 <= i < |verbs|
      ensures Picks(holes, args)[i] == values[i]
    {
      PickIs(verbs, chunks, args, i);
    }
    assert Picks(holes, args) == values;
  }

  // ----- Percent signs -----

  // A text with every percent sign doubled, as a format spells it.
  function Doubled(s: string): string {
    if s == "" then "" else (if s[0] == '%' then "%%" else [s[0]]) + Doubled(s[1..])
  }

  /** Every doubled percent sign of a key stands for one in the message, and nothing else changes. */
  lemma {:induction false} UnescapeUndoesDoubling(s: string)
    ensures Unescape(Doubled(s)) == s
    decreases |s|
  {
    if s != "" {
      var rest := Doubled(s[1..]);
      UnescapeUndoesDoubling(s[1..]);
      if s[0] == '%' {
        assert Doubled(s)[2..] == rest;
      } else {
        assert Doubled(s)[1..] == rest && Doubled(s)[0] == s[0];
      }
    }
  }
}
