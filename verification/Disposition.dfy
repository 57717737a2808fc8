/** Content-Disposition: an ASCII fallback name, the real name percent-encoded, and the sandbox's prefixes put
    into the finished header. */
module Disposition {
  import opened Options
  import opened Text

  predicate IsAlnum(c: char) {
    'A' <= c <= 'Z' || 'a' <= c <= 'z' || '0' <= c <= '9'
  }

  // ----- Percent-encoding -----

  predicate Unreserved(c: char) {
    IsAlnum(c) || c == '-' || c == '.' || c == '_' || c == '~'
  }

  // "0123456789ABCDEF"[v]
  function HexDigit(v: nat): char
    requires v < 16
  {
    if v < 10 then ('0' as int + v) as char else ('A' as int + v - 10) as char
  }

  function EscapeByte(c: Byte): string {
    if Unreserved(c) then [c] else ['%', HexDigit(c as int / 16), HexDigit(c as int % 16)]
  }

  function Escape(s: Bytes): string {
    if s == [] then "" else EscapeByte(s[0]) + Escape(s[1..])
  }

  /** rfc5987Escape (and its copy rfc5987EscapeConst). */
  method EscapeName(s: Bytes) returns (out: string)
    ensures out == Escape(s)
  {
    out := "";
    for i := 0 to |s|
      invariant out + Escape(s[i..]) == Escape(s)
    {
      EscapeStep(s, i, out);
      if Unreserved(s[i]) {
        out := out + [s[i]];
      } else {
        out := out + ['%', HexDigit(s[i] as int / 16), HexDigit(s[i] as int % 16)];
      }
    }
  }

  lemma EscapeStep(s: Bytes, i: nat, out: string)
    requires i < |s|
    ensures out + Escape(s[i..]) == out + EscapeByte(s[i]) + Escape(s[i + 1..])
  {
    assert s[i..][0] == s[i] && s[i..][1..] == s[i + 1..];
  }

  function HexValue(c: char): Option<nat> {
    if '0' <= c <= '9' then Some(c as int - '0' as int)
    else if 'A' <= c <= 'F' then Some(c as int - 'A' as int + 10)
    else if 'a' <= c <= 'f' then Some(c as int - 'a' as int + 10)
    else None
  }

  // What a client makes of an ext-value (section 3.2.1 of RFC 8187).
  function Unescape(s: string): Option<Bytes> {
    if s == "" then Some([])
    else if s[0] == '%' then
      if |s| < 3 || HexValue(s[1]).None? || HexValue(s[2]).None? then None
      else
        var rest := Unescape(s[3..]);
        if rest.None? then None
        else Some([(HexValue(s[1]).value * 16 + HexValue(s[2]).value) as char] + rest.value)
    else if !Unreserved(s[0]) then None
    else
      var rest := Unescape(s[1..]);
      if rest.None? then None else Some([s[0]] + rest.value)
  }

  lemma HexRoundTrip(v: nat)
    requires v < 16
    ensures HexValue(HexDigit(v)) == Some(v)
  {}

  lemma UnescapeByte(c: Byte, rest: string)
    ensures Unescape(EscapeByte(c) + rest) == if Unescape(rest).None? then None else Some([c] + Unescape(rest).value)
  {
    var s := EscapeByte(c) + rest;
    if Unreserved(c) {
      assert s[1..] == rest;
    } else {
      HexRoundTrip(c as int / 16);
      HexRoundTrip(c as int % 16);
      assert s[3..] == rest;
    }
  }

  lemma UnescapeCons(c: Byte, e: string, tail: string, rest: Bytes)
    requires Unescape(e + tail) == Some(rest)
    ensures Unescape(EscapeByte(c) + e + tail) == Some([c] + rest)
  {
    UnescapeByte(c, e + tail);
    Reassociate(EscapeByte(c), e, tail);
  }

  lemma ConsBytes(s: Bytes, rest: Bytes)
    requires s != []
    ensures s + rest == [s[0]] + (s[1..] + rest)
  {}

  lemma {:induction false} UnescapePrefix(s: Bytes, tail: string, rest: Bytes)
    requires Unescape(tail) == Some(rest)
    ensures Unescape(Escape(s) + tail) == Some(s + rest)
    decreases |s|
  {
    if s == [] {
      assert Escape(s) + tail == tail && s + rest == rest;
    } else {
      var e := Escape(s[1..]);
      UnescapePrefix(s[1..], tail, rest);
      UnescapeCons(s[0], e, tail, s[1..] + rest);
      ConsBytes(s, rest);
    }
  }

  /** Percent-decoding inverts the escaping of every byte string. */
  lemma EscapeRoundTrip(s: Bytes)
    ensures Unescape(Escape(s)) == Some(s)
  {
    UnescapePrefix(s, "", []);
    assert Escape(s) + "" == Escape(s) && s + [] == s;
  }

  // ----- The ASCII fallback -----

  predicate Kept(c: char) {
    IsAlnum(c) || c == '-' || c == '.'
  }

  // Runs of anything else collapse to one underscore; `pending` says one was just written. Every byte of a
  // multi-byte rune falls into "anything else", so working on bytes collapses the same runs.
  function Collapse(s: Bytes, pending: bool): string {
    if s == [] then ""
    else if Kept(s[0]) then [s[0]] + Collapse(s[1..], false)
    else (if pending then "" else "_") + Collapse(s[1..], true)
  }

  function TrimLeft(s: string): string {
    if s != "" && s[0] == '_' then TrimLeft(s[1..]) else s
  }

  function TrimRight(s: string): string {
    if s != "" && s[|s| - 1] == '_' then TrimRight(s[..|s| - 1]) else s
  }

  function Fallback(s: Bytes): string {
    var out := TrimRight(TrimLeft(Collapse(s, false)));
    if out == "" || out[0] == '.' then "download" + out else out
  }

  /** asciiFilenameFallback. */
  method FallbackName(s: Bytes) returns (out: string)
    ensures out == Fallback(s)
  {
    out := "";
    var pending := false;
    for i := 0 to |s|
      invariant out + Collapse(s[i..], pending) == Collapse(s, false)
    {
      CollapseStep(s, i, pending, out);
      if Kept(s[i]) {
        out := out + [s[i]];
        pending := false;
      } else if !pending {
        out := out + "_";
        pending := true;
      }
    }
    assert out == Collapse(s, false);
    out := TrimRight(TrimLeft(out));
    if out == "" || out[0] == '.' {
      out := "download" + out;
    }
  }

  lemma CollapseStep(s: Bytes, i: nat, pending: bool, out: string)
    requires i < |s|
    ensures out + Collapse(s[i..], pending) ==
      if Kept(s[i]) then out + [s[i]] + Collapse(s[i + 1..], false)
      else if pending then out + Collapse(s[i + 1..], true)
      else out + "_" + Collapse(s[i + 1..], true)
  {
    assert s[i..][0] == s[i] && s[i..][1..] == s[i + 1..];
  }

  ghost predicate SafeText(s: string) {
    && (forall k :: 0 <= k < |s| ==> Kept(s[k]) || s[k] == '_')
    && forall k :: 0 <= k < |s| - 1 ==> !(s[k] == '_' && s[k + 1] == '_')
  }

  // A name that is already in the form the fallback produces.
  ghost predicate SafeName(s: string) {
    SafeText(s) && s != "" && s[0] != '.' && s[0] != '_' && s[|s| - 1] != '_'
  }

  lemma {:induction false} CollapseIsSafe(s: Bytes, pending: bool)
    ensures SafeText(Collapse(s, pending))
    ensures pending && Collapse(s, pending) != "" ==> Collapse(s, pending)[0] != '_'
    decreases |s|
  {
    if s != [] {
      CollapseIsSafe(s[1..], !Kept(s[0]));
    }
  }

  lemma {:induction false} TrimLeftIsSafe(s: string)
    requires SafeText(s)
    ensures SafeText(TrimLeft(s)) && (TrimLeft(s) != "" ==> TrimLeft(s)[0] != '_')
    decreases |s|
  {
    if s != "" && s[0] == '_' {
      TrimLeftIsSafe(s[1..]);
    }
  }

  lemma {:induction false} TrimRightIsSafe(s: string)
    requires SafeText(s) && (s != "" ==> s[0] != '_')
    ensures SafeText(TrimRight(s)) && (TrimRight(s) != "" ==> TrimRight(s)[0] == s[0] && TrimRight(s)[|TrimRight(s)| - 1] != '_')
    ensures s != "" ==> TrimRight(s) != ""
    decreases |s|
  {
    if s != "" && s[|s| - 1] == '_' {
      TrimRightIsSafe(s[..|s| - 1]);
    }
  }

  /** The fallback is a non-empty name of letters, digits, '-', '.' and single underscores that starts with neither a
      dot nor an underscore. */
  lemma FallbackIsSafe(s: Bytes)
    ensures SafeName(Fallback(s))
  {
    var c := Collapse(s, false);
    CollapseIsSafe(s, false);
    TrimLeftIsSafe(c);
    TrimRightIsSafe(TrimLeft(c));
    var out := TrimRight(TrimLeft(c));
    if out == "" || out[0] == '.' {
      var name := "download" + out;
      assert forall k :: 0 <= k < |name| ==> name[k] == if k < 8 then "download"[k] else out[k - 8];
    }
  }

  lemma {:induction false} CollapseOfSafe(s: Bytes, pending: bool)
    requires SafeText(s) && (pending && s != [] ==> s[0] != '_')
    ensures Collapse(s, pending) == s
    decreases |s|
  {
    if s != [] {
      CollapseOfSafe(s[1..], s[0] == '_');
      assert s == [s[0]] + s[1..];
    }
  }

  /** A safe name is its own fallback, so the fallback is idempotent. */
  lemma FallbackIsIdempotent(s: Bytes)
    ensures (forall k :: 0 <= k < |Fallback(s)| ==> Fallback(s)[k] < '\U{0100}') && Fallback(Fallback(s)) == Fallback(s)
  {
    FallbackIsSafe(s);
    CollapseOfSafe(Fallback(s), false);
  }

  // ----- The header, and the sandbox's rewriting of it -----

  const PATTERN := "filename=\""
  const EXT_PATTERN := "filename*=UTF-8''"

  /** contentDisposition. */
  function Header(kind: string, name: Bytes): string {
    (kind + "; ") + PATTERN + (Fallback(name) + "\"; ") + EXT_PATTERN + Escape(name)
  }

  // strings.Replace(s, from, to, 1)
  function ReplaceFirst(s: string, from: string, to: string): string {
    if HasPrefix(s, from) then to + s[|from|..]
    else if s == "" then ""
    else [s[0]] + ReplaceFirst(s[1..], from, to)
  }

  // the bytes of the prefix the sandbox puts before the real name
  const SAMPLE_BYTES: Bytes := "\U{E0}\U{B8}\U{95}\U{E0}\U{B8}\U{B1}\U{E0}\U{B8}\U{A7}\U{E0}\U{B8}\U{AD}\U{E0}\U{B8}\U{A2}\U{E0}\U{B9}\U{88}\U{E0}\U{B8}\U{B2}\U{E0}\U{B8}\U{87}-"

  /** prefixDispositionFilenames. */
  function PrefixNames(header: string): string {
    ReplaceFirst(ReplaceFirst(header, PATTERN, PATTERN + "SAMPLE-"), EXT_PATTERN, EXT_PATTERN + Escape(SAMPLE_BYTES))
  }

  lemma DoesNotStart(s: string, p: string, j: nat)
    requires j < |p| && j < |s| && s[j] != p[j]
    ensures !HasPrefix(s, p)
  {
    assert |p| <= |s| ==> s[..|p|][j] == s[j];
  }

  // If the j-th character of a pattern appears nowhere before its place in `before + from`, the pattern is
  // first found right there.
  lemma {:induction false} ReplaceSkips(before: string, from: string, to: string, after: string, j: nat)
    requires j < |from| && forall k :: 0 <= k < |before| + j ==> (before + from)[k] != from[j]
    ensures ReplaceFirst(before + from + after, from, to) == before + to + after
    decreases |before|
  {
    var s := before + from + after;
    if before == "" {
      assert s[..|from|] == from && s[|from|..] == after;
      assert before + to + after == to + after;
    } else {
      assert s[j] == (before + from)[j];
      DoesNotStart(s, from, j);
      assert (before + from)[1..] == before[1..] + from;
      assert forall k :: 0 <= k < |before[1..]| + j ==> (before[1..] + from)[k] == (before + from)[k + 1];
      ReplaceSkips(before[1..], from, to, after, j);
      assert s[1..] == before[1..] + from + after;
      assert before + to + after == [before[0]] + (before[1..] + to + after);
    }
  }

  lemma TwoReplacements(a: string, p: string, p': string, b: string, q: string, q': string, c: string, i: nat, j: nat)
    requires i < |p| && forall k :: 0 <= k < |a| + i ==> (a + p)[k] != p[i]
    requires j < |q| && forall k :: 0 <= k < |a + p' + b| + j ==> (a + p' + b + q)[k] != q[j]
    ensures ReplaceFirst(ReplaceFirst(a + p + b + q + c, p, p'), q, q') == a + p' + b + q' + c
  {
    assert a + p + b + q + c == a + p + (b + q + c);
    ReplaceSkips(a, p, p', b + q + c, i);
    assert a + p' + (b + q + c) == (a + p' + b) + q + c;
    ReplaceSkips(a + p' + b, q, q', c, j);
  }

  // "inline" and "attachment", the disposition types in use, are tokens.
  predicate IsToken(kind: string) {
    '"' !in kind && '*' !in kind
  }

  lemma QuoteComesFirst(kind: string)
    requires IsToken(kind)
    ensures |PATTERN| == 10 && forall k :: 0 <= k < |kind + "; "| + 9 ==> (kind + "; " + PATTERN)[k] != PATTERN[9]
  {
    var s := kind + "; " + PATTERN;
    forall k | 0 <= k < |kind + "; "| + 9
      ensures s[k] != '"'
    {
      if k < |kind| {
        assert s[k] == kind[k] && kind[k] in kind;
      } else {
        assert s[k] == ("; " + PATTERN)[k - |kind|];
      }
    }
  }

  lemma StarComesFirst(kind: string, fallback: string)
    requires IsToken(kind) && SafeText(fallback)
    ensures |EXT_PATTERN| == 17
    ensures var before := kind + "; " + (PATTERN + "SAMPLE-") + (fallback + "\"; ");
      forall k :: 0 <= k < |before| + 8 ==> (before + EXT_PATTERN)[k] != EXT_PATTERN[8]
  {
    var head, middle := "; " + (PATTERN + "SAMPLE-"), "\"; ";
    var before := kind + "; " + (PATTERN + "SAMPLE-") + (fallback + "\"; ");
    assert before == kind + head + fallback + middle;
    assert forall k :: 0 <= k < |head| ==> head[k] != '*';
    assert forall k :: 0 <= k < |kind| ==> kind[k] in kind;
    assert forall k :: 0 <= k < |before| ==> before[k] != '*';
    assert forall k :: 0 <= k < 8 ==> EXT_PATTERN[k] != '*';
  }

  /** The prefixing of any header this package builds turns the fallback into "SAMPLE-" plus the fallback and the
      extended name into the escaped prefix plus the escaped name, which decodes to the prefixed name; nothing
      else changes. */
  lemma PrefixingTheHeader(kind: string, name: Bytes)
    requires IsToken(kind)
    ensures PrefixNames(Header(kind, name))
         == (kind + "; ") + (PATTERN + "SAMPLE-") + (Fallback(name) + "\"; ") + (EXT_PATTERN + Escape(SAMPLE_BYTES)) + Escape(name)
    ensures Unescape(Escape(SAMPLE_BYTES) + Escape(name)) == Some(SAMPLE_BYTES + name)
  {
    FallbackIsSafe(name);
    var a, b := kind + "; ", Fallback(name) + "\"; ";
    QuoteComesFirst(kind);
    StarComesFirst(kind, Fallback(name));
    TwoReplacements(a, PATTERN, PATTERN + "SAMPLE-", b, EXT_PATTERN, EXT_PATTERN + Escape(SAMPLE_BYTES), Escape(name), 9, 8);
    EscapeRoundTrip(name);
    UnescapePrefix(SAMPLE_BYTES, Escape(name), name);
  }
}
