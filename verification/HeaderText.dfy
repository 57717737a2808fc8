/** Which characters the two file names of a Content-Disposition header can hold, spelled out. */
module HeaderText {
  import opened Text
  import opened Disposition

  predicate IsNameChar(c: char) {
    'A' <= c <= 'Z' || 'a' <= c <= 'z' || '0' <= c <= '9' || c == '-' || c == '.' || c == '_'
  }

  // What may stand in an escaped name without being escaped.
  predicate IsBare(c: char) {
    IsNameChar(c) || c == '~'
  }

  predicate AllBare(s: string) {
    forall k :: 0 <= k < |s| ==> IsBare(s[k])
  }

  predicate IsUpperHex(c: char) {
    '0' <= c <= '9' || 'A' <= c <= 'F'
  }

  // A percent sign is always followed by two upper-case hexadecimal digits, and everything else stands for itself.
  predicate WellEscaped(e: string) {
    if e == "" then true
    else if e[0] == '%' then |e| >= 3 && IsUpperHex(e[1]) && IsUpperHex(e[2]) && WellEscaped(e[3..])
    else IsBare(e[0]) && WellEscaped(e[1..])
  }

  lemma EscapedByte(c: Byte, rest: string)
    requires WellEscaped(rest)
    ensures WellEscaped(EscapeByte(c) + rest)
  {
    var e := EscapeByte(c) + rest;
    if IsBare(c) {
      assert e[1..] == rest;
    } else {
      assert e[3..] == rest;
    }
  }

  /** The escaped name is letters, digits, "-._~" and percent signs with their two digits. */
  lemma {:induction false} EscapedIsAscii(s: Bytes)
    ensures WellEscaped(Escape(s)) && forall k :: 0 <= k < |Escape(s)| ==> IsBare(Escape(s)[k]) || Escape(s)[k] == '%'
    decreases |s|
  {
    if s != [] {
      EscapedIsAscii(s[1..]);
      EscapedByte(s[0], Escape(s[1..]));
    }
  }

  lemma {:induction false} EscapeLength(s: Bytes)
    ensures |s| <= |Escape(s)| && (|Escape(s)| == |s| ==> AllBare(s))
    decreases |s|
  {
    if s != [] {
      EscapeLength(s[1..]);
      assert |EscapeByte(s[0])| == if IsBare(s[0]) then 1 else 3;
      assert |Escape(s)| == |s| ==> AllBare(s[1..]) && IsBare(s[0]);
      assert AllBare(s[1..]) ==> forall k :: 1 <= k < |s| ==> s[k] == s[1..][k - 1];
    }
  }

  lemma {:induction false} BareStays(s: Bytes)
    requires AllBare(s)
    ensures Escape(s) == s
    decreases |s|
  {
    if s != [] {
      assert forall k :: 0 <= k < |s[1..]| ==> s[1..][k] == s[k + 1];
      BareStays(s[1..]);
      assert s == [s[0]] + s[1..];
    }
  }

  /** A name is left as it is exactly when it holds nothing but those characters, the percent sign not among them. */
  lemma EscapeKeepsIff(s: Bytes)
    ensures Escape(s) == s <==> AllBare(s)
  {
    EscapeLength(s);
    if AllBare(s) {
      BareStays(s);
    }
  }

  // Letters, digits, '-', '.' and single underscores; no dot or underscore first, no underscore last.
  predicate IsFallback(s: string) {
    && s != "" && (forall k :: 0 <= k < |s| ==> IsNameChar(s[k]))
    && (forall k :: 0 <= k < |s| - 1 ==> !(s[k] == '_' && s[k + 1] == '_'))
    && s[0] != '.' && s[0] != '_' && s[|s| - 1] != '_'
  }

  lemma FallbackShape(s: string)
    ensures SafeName(s) <==> IsFallback(s)
  {
    assert forall c: char :: IsNameChar(c) <==> Kept(c) || c == '_';
  }

  /** Every fallback has that shape, and a name that has it is left as it is. */
  lemma FallbackKeepsIff(s: Bytes)
    ensures IsFallback(Fallback(s))
    ensures Fallback(s) == s <==> IsFallback(s)
  {
    FallbackIsSafe(s);
    FallbackShape(Fallback(s));
    FallbackShape(s);
    if IsFallback(s) {
      CollapseOfSafe(s, false);
    }
  }

  predicate IsPrintable(s: string) {
    forall k :: 0 <= k < |s| ==> ' ' <= s[k] <= '~'
  }

  lemma AllPrintable(a: string, b: string, c: string, d: string, e: string)
    requires IsPrintable(a) && IsPrintable(b) && IsPrintable(c) && IsPrintable(d) && IsPrintable(e)
    ensures IsPrintable(a + b + c + d + e)
  {
    assert IsPrintable(a + b);
    assert IsPrintable(a + b + c);
    assert IsPrintable(a + b + c + d);
  }

  lemma EndsPrintable(a: string, end: string)
    requires IsPrintable(a) && IsPrintable(end)
    ensures IsPrintable(a + end)
  {}

  lemma PatternsPrintable(pattern: string, extended: string)
    requires pattern == PATTERN && extended == EXT_PATTERN
    ensures IsPrintable(pattern) && IsPrintable(extended)
  {}

  /** Whatever the name, the header is one line of printable ASCII, and its quoted name holds no quote or backslash. */
  lemma HeaderIsPrintable(kind: string, name: Bytes)
    requires IsPrintable(kind)
    ensures IsPrintable(Header(kind, name)) && '"' !in Fallback(name) && '\\' !in Fallback(name)
  {
    FallbackKeepsIff(name);
    EscapedIsAscii(name);
    EndsPrintable(kind, "; ");
    EndsPrintable(Fallback(name), "\"; ");
    var (pattern, extended) := (PATTERN, EXT_PATTERN);
    PatternsPrintable(pattern, extended);
    AllPrintable(kind + "; ", pattern, Fallback(name) + "\"; ", extended, Escape(name));
  }

  // ----- What survives -----

  // The letters, digits, '-' and '.' of a name.
  function Survivors(s: string): string {
    if s == "" then "" else (if IsNameChar(s[0]) && s[0] != '_' then [s[0]] else "") + Survivors(s[1..])
  }

  lemma {:induction false} SurvivorsConcat(a: string, b: string)
    ensures Survivors(a + b) == Survivors(a) + Survivors(b)
    decreases |a|
  {
    if a == "" {
      assert a + b == b;
    } else {
      assert (a + b)[0] == a[0] && (a + b)[1..] == a[1..] + b;
      SurvivorsConcat(a[1..], b);
      Reassociate(if IsNameChar(a[0]) && a[0] != '_' then [a[0]] else "", Survivors(a[1..]), Survivors(b));
    }
  }

  lemma {:induction false} CollapseKeeps(s: Bytes, pending: bool)
    ensures Survivors(Collapse(s, pending)) == Survivors(s)
    decreases |s|
  {
    if s != [] {
      CollapseKeeps(s[1..], !Kept(s[0]));
      assert Kept(s[0]) <==> IsNameChar(s[0]) && s[0] != '_';
      SurvivorsConcat(if Kept(s[0]) then [s[0]] else if pending then "" else "_", Collapse(s[1..], !Kept(s[0])));
    }
  }

  lemma {:induction false} TrimLeftKeeps(s: string)
    ensures Survivors(TrimLeft(s)) == Survivors(s)
    decreases |s|
  {
    if s != "" && s[0] == '_' {
      TrimLeftKeeps(s[1..]);
    }
  }

  lemma {:induction false} TrimRightKeeps(s: string)
    ensures Survivors(TrimRight(s)) == Survivors(s)
    decreases |s|
  {
    if s != "" && s[|s| - 1] == '_' {
      TrimRightKeeps(s[..|s| - 1]);
      assert s == s[..|s| - 1] + "_";
      SurvivorsConcat(s[..|s| - 1], "_");
      assert Survivors("_") == "" by { assert "_"[1..] == ""; }
    }
  }

  lemma SafeStarts(out: string)
    requires SafeText(out) && (out != "" ==> out[0] != '_')
    ensures (out == "" <==> Survivors(out) == "") && (out != "" ==> Survivors(out)[0] == out[0])
  {}

  lemma {:induction false} LowerCaseSurvives(w: string)
    requires forall k :: 0 <= k < |w| ==> 'a' <= w[k] <= 'z'
    ensures Survivors(w) == w
    decreases |w|
  {
    if w != "" {
      LowerCaseSurvives(w[1..]);
    }
  }

  lemma WithStandIn(word: string, out: string)
    requires forall k :: 0 <= k < |word| ==> 'a' <= word[k] <= 'z'
    ensures Survivors(word + out) == word + Survivors(out)
  {
    SurvivorsConcat(word, out);
    LowerCaseSurvives(word);
  }

  // Before the stand-in is put in front.
  lemma TrimmedKeeps(s: Bytes, out: string)
    requires out == TrimRight(TrimLeft(Collapse(s, false)))
    ensures Survivors(out) == Survivors(s) && (out == "" <==> Survivors(s) == "") && (out != "" ==> Survivors(s)[0] == out[0])
  {
    var c := Collapse(s, false);
    CollapseKeeps(s, false);
    TrimLeftKeeps(c);
    TrimRightKeeps(TrimLeft(c));
    CollapseIsSafe(s, false);
    TrimLeftIsSafe(c);
    TrimRightIsSafe(TrimLeft(c));
    SafeStarts(out);
  }

  lemma FallbackIs(s: Bytes, out: string, word: string)
    requires out == TrimRight(TrimLeft(Collapse(s, false))) && word == "download"
    ensures Fallback(s) == if out == "" || out[0] == '.' then word + out else out
    ensures forall k :: 0 <= k < |word| ==> 'a' <= word[k] <= 'z'
  {}

  /** A student number and an extension survive: the fallback holds the letters, digits, '-' and '.' of the name, all of
      them and in order, after "download" exactly when there are none or the first is a dot. */
  lemma FallbackKeepsSurvivors(s: Bytes, word: string)
    requires word == "download"
    ensures Survivors(Fallback(s)) == if Survivors(s) == "" || Survivors(s)[0] == '.' then word + Survivors(s) else Survivors(s)
  {
    var out := TrimRight(TrimLeft(Collapse(s, false)));
    FallbackIs(s, out, word);
    TrimmedKeeps(s, out);
    WithStandIn(word, out);
  }
}
