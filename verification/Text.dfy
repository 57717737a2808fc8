/** Strings: characters, prefixes, and the operations TrimSpace, Split and Join. */
module Text {
  import opened Options

  // One byte of a Go string.
  type Byte = c: char | c < '\U{0100}' witness 'a'
  type Bytes = seq<Byte>

  predicate IsDigit(c: char) {
    '0' <= c <= '9'
  }

  predicate HasPrefix(s: string, p: string) {
    |p| <= |s| && s[..|p|] == p
  }

  predicate HasSuffix(s: string, p: string) {
    |p| <= |s| && s[|s| - |p|..] == p
  }

  lemma Reassociate<T>(a: seq<T>, b: seq<T>, c: seq<T>)
    ensures a + b + c == a + (b + c)
  {}

  // unicode.IsSpace
  predicate IsSpace(c: char) {
    || '\U{0009}' <= c <= '\U{000D}' || c == ' ' || c == '\U{0085}' || c == '\U{00A0}' || c == '\U{1680}'
    || '\U{2000}' <= c <= '\U{200A}' || c == '\U{2028}' || c == '\U{2029}' || c == '\U{202F}'
    || c == '\U{205F}' || c == '\U{3000}'
  }

  predicate IsThai(c: char) {
    '\U{0E00}' <= c <= '\U{0E7F}'
  }

  predicate HasThai(s: string) {
    exists i :: 0 <= i < |s| && IsThai(s[i])
  }

  // strings.TrimSpace
  function Trim(s: string): string {
    if s == "" then ""
    else if IsSpace(s[0]) then Trim(s[1..])
    else if IsSpace(s[|s| - 1]) then Trim(s[..|s| - 1])
    else s
  }

  // The text with all white space taken out.
  ghost function Bare(s: string): string {
    if s == "" then "" else if IsSpace(s[0]) then Bare(s[1..]) else [s[0]] + Bare(s[1..])
  }

  lemma {:induction false} BareConcat(a: string, b: string)
    ensures Bare(a + b) == Bare(a) + Bare(b)
  {
    if a == "" {
      assert a + b == b;
    } else {
      BareConcat(a[1..], b);
      var ab := a + b;
      assert ab[0] == a[0] && ab[1..] == a[1..] + b;
      Reassociate([a[0]], Bare(a[1..]), Bare(b));
    }
  }

  lemma {:induction false} BareTrim(s: string)
    ensures Bare(Trim(s)) == Bare(s)
    decreases |s|
  {
    if s == "" {
    } else if IsSpace(s[0]) {
      BareTrim(s[1..]);
    } else if IsSpace(s[|s| - 1]) {
      BareTrim(s[..|s| - 1]);
      BareConcat(s[..|s| - 1], [s[|s| - 1]]);
      assert s == s[..|s| - 1] + [s[|s| - 1]];
    }
  }

  // ----- Fragments -----

  // `f` is a contiguous piece of s.
  ghost predicate Within(f: string, s: string) {
    exists a: nat, b: nat :: a <= b <= |s| && f == s[a..b]
  }

  lemma IsWithin(s: string, a: nat, b: nat)
    requires a <= b <= |s|
    ensures Within(s[a..b], s)
  {}

  lemma WithinItself(s: string)
    ensures Within(s, s)
  {
    assert s == s[0..|s|];
  }

  lemma SliceOfSlice(s: string, c: nat, d: nat, a: nat, b: nat)
    requires c <= d <= |s| && a <= b <= d - c
    ensures s[c..d][a..b] == s[c + a..c + b]
  {
    var f, h := s[c..d][a..b], s[c + a..c + b];
    forall i | 0 <= i < b - a
      ensures f[i] == h[i]
    {
      assert f[i] == s[c..d][a + i] && s[c..d][a + i] == s[c + (a + i)];
    }
  }

  lemma WithinTrans(f: string, g: string, s: string)
    requires Within(f, g) && Within(g, s)
    ensures Within(f, s)
  {
    var a: nat, b: nat :| a <= b <= |g| && f == g[a..b];
    var c: nat, d: nat :| c <= d <= |s| && g == s[c..d];
    SliceOfSlice(s, c, d, a, b);
    IsWithin(s, c + a, c + b);
  }

  lemma HalvesWithin(head: string, sep: string, tail: string)
    ensures Within(head, head + sep + tail) && Within(tail, head + sep + tail)
  {
    var s := head + sep + tail;
    assert s[0..|head|] == head && s[|head| + |sep|..|s|] == tail;
    IsWithin(s, 0, |head|);
    IsWithin(s, |head| + |sep|, |s|);
  }

  lemma {:induction false} TrimWithin(s: string)
    ensures Within(Trim(s), s)
    decreases |s|
  {
    if s == "" {
      WithinItself(s);
    } else if IsSpace(s[0]) {
      TrimWithin(s[1..]);
      assert s[1..] == s[1..|s|];
      IsWithin(s, 1, |s|);
      WithinTrans(Trim(s), s[1..], s);
    } else if IsSpace(s[|s| - 1]) {
      TrimWithin(s[..|s| - 1]);
      assert s[..|s| - 1] == s[0..|s| - 1];
      IsWithin(s, 0, |s| - 1);
      WithinTrans(Trim(s), s[..|s| - 1], s);
    } else {
      WithinItself(s);
    }
  }

  // ----- Split and Join -----

  predicate OccursAt(s: string, sep: string, i: nat) {
    i + |sep| <= |s| && s[i..i + |sep|] == sep
  }

  // The first occurrence of sep at or after i.
  function Index(s: string, sep: string, i: nat): (r: Option<nat>)
    requires i <= |s|
    ensures r.Some? ==> i <= r.value && OccursAt(s, sep, r.value)
    ensures r.Some? ==> forall j: nat :: i <= j < r.value ==> !OccursAt(s, sep, j)
    ensures r.None? ==> forall j: nat :: i <= j ==> !OccursAt(s, sep, j)
    decreases |s| - i
  {
    if OccursAt(s, sep, i) then Some(i)
    else if i == |s| then None
    else Index(s, sep, i + 1)
  }

  predicate Occurs(s: string, sep: string) {
    Index(s, sep, 0).Some?
  }

  function Split(s: string, sep: string): (parts: seq<string>)
    requires sep != ""
    ensures parts != []
  {
    var i := Index(s, sep, 0);
    if i.None? then [s] else [s[..i.value]] + Split(s[i.value + |sep|..], sep)
  }

  function Join(parts: seq<string>, sep: string): string
    requires parts != []
  {
    if |parts| == 1 then parts[0] else parts[0] + sep + Join(parts[1..], sep)
  }

  lemma {:induction false} JoinOfSplit(s: string, sep: string)
    requires sep != ""
    ensures Join(Split(s, sep), sep) == s
    decreases |s|
  {
    var i := Index(s, sep, 0);
    if i.Some? {
      var rest := s[i.value + |sep|..];
      JoinOfSplit(rest, sep);
      assert Split(s, sep)[1..] == Split(rest, sep);
      assert s == s[..i.value] + s[i.value..i.value + |sep|] + rest;
    }
  }

  lemma {:induction false} SplitWithin(s: string, sep: string, part: string)
    requires sep != "" && part in Split(s, sep)
    ensures Within(part, s) && !Occurs(part, sep)
    decreases |s|
  {
    var i := Index(s, sep, 0);
    if i.None? {
      WithinItself(s);
    } else if part == s[..i.value] {
      IsWithin(s, 0, i.value);
      assert part == s[0..i.value];
      forall j: nat
        ensures !OccursAt(part, sep, j)
      {
        if j + |sep| <= |part| {
          assert part[j..j + |sep|] == s[j..j + |sep|];
          assert !OccursAt(s, sep, j);
        }
      }
    } else {
      var rest := s[i.value + |sep|..];
      assert part in Split(rest, sep);
      SplitWithin(rest, sep, part);
      IsWithin(s, i.value + |sep|, |s|);
      assert rest == s[i.value + |sep|..|s|];
      WithinTrans(part, rest, s);
    }
  }

  lemma {:induction false} JoinAt(parts: seq<string>, sep: string, cut: nat)
    requires 0 < cut < |parts|
    ensures Join(parts, sep) == Join(parts[..cut], sep) + sep + Join(parts[cut..], sep)
    decreases |parts|
  {
    if cut == 1 {
      assert parts[..1] == [parts[0]];
    } else {
      JoinAt(parts[1..], sep, cut - 1);
      assert parts[1..][..cut - 1] == parts[..cut][1..] && parts[1..][cut - 1..] == parts[cut..];
      assert |parts[..cut]| > 1;
    }
  }

  // Head and tail of a text cut at one of its separators.
  lemma CutWithin(s: string, sep: string, cut: nat)
    requires sep != "" && 0 < cut < |Split(s, sep)|
    ensures var head, tail := Join(Split(s, sep)[..cut], sep), Join(Split(s, sep)[cut..], sep);
      Within(head, s) && Within(tail, s) && s == head + sep + tail
  {
    var head, tail := Join(Split(s, sep)[..cut], sep), Join(Split(s, sep)[cut..], sep);
    JoinOfSplit(s, sep);
    JoinAt(Split(s, sep), sep, cut);
    HalvesWithin(head, sep, tail);
  }

  // Joining parts that differ in white space only.
  lemma {:induction false} BareJoin(a: seq<string>, b: seq<string>, sep: string)
    requires |a| == |b| > 0 && forall i :: 0 <= i < |a| ==> Bare(a[i]) == Bare(b[i])
    ensures Bare(Join(a, sep)) == Bare(Join(b, sep))
    decreases |a|
  {
    if |a| > 1 {
      BareJoin(a[1..], b[1..], sep);
      BareConcat(a[0] + sep, Join(a[1..], sep));
      BareConcat(b[0] + sep, Join(b[1..], sep));
      BareConcat(a[0], sep);
      BareConcat(b[0], sep);
    }
  }

  lemma NewlineOccurs(s: string)
    ensures '\n' in s <==> Occurs(s, "\n")
  {
    if '\n' in s {
      var i :| 0 <= i < |s| && s[i] == '\n';
      assert s[i..i + 1] == "\n";
      assert OccursAt(s, "\n", i);
    }
    var i := Index(s, "\n", 0);
    assert i.Some? ==> s[i.value] == s[i.value..i.value + 1][0];
  }

  lemma WithinKeeps(f: string, s: string, c: char)
    requires Within(f, s) && c in f
    ensures c in s
  {
    var a: nat, b: nat :| a <= b <= |s| && f == s[a..b];
  }

  lemma OccursSomewhere(s: string, sep: string, i: nat)
    requires OccursAt(s, sep, i)
    ensures Occurs(s, sep)
  {}

  lemma OccursWithin(f: string, s: string, sep: string)
    requires Within(f, s) && Occurs(f, sep)
    ensures Occurs(s, sep)
  {
    var a: nat, b: nat :| a <= b <= |s| && f == s[a..b];
    var i := Index(f, sep, 0).value;
    SliceOfSlice(s, a, b, i, i + |sep|);
    OccursSomewhere(s, sep, a + i);
  }

  lemma OccursHas(s: string, sep: string, c: char)
    requires Occurs(s, sep) && c in sep
    ensures c in s
  {
    var i := Index(s, sep, 0).value;
    var k :| 0 <= k < |sep| && sep[k] == c;
    assert s[i + k] == s[i..i + |sep|][k];
  }

  lemma LeadingSpaceIsTrimmed(s: string)
    requires s != "" && IsSpace(s[0])
    ensures Trim(s) != s
  {
    TrimWithin(s[1..]);
  }

  // Where the first space is, without slices.
  lemma FirstSpace(s: string, i: nat)
    requires i < |s| && s[i] == ' ' && forall j :: 0 <= j < i ==> s[j] != ' '
    ensures Index(s, " ", 0) == Some(i)
  {
    assert OccursAt(s, " ", i) by {
      assert s[i..i + 1] == " ";
    }
    forall j: nat | j < i
      ensures !OccursAt(s, " ", j)
    {
      assert s[j..j + 1][0] == s[j];
    }
  }

  lemma NoSpace(s: string)
    requires ' ' !in s
    ensures Index(s, " ", 0).None?
  {
    if Occurs(s, " ") {
      OccursHas(s, " ", ' ');
    }
  }

  lemma DropOfGlue(a: string, c: string, k: nat)
    requires k <= |a|
    ensures (a + c)[..k] == a[..k] && (a + c)[k..] == a[k..] + c
  {}

  function SpaceIndex(s: string): (i: nat)
    ensures i <= |s| && (i < |s| ==> s[i] == ' ') && forall j :: 0 <= j < i ==> s[j] != ' '
  {
    if s == "" || s[0] == ' ' then 0 else 1 + SpaceIndex(s[1..])
  }

  lemma SplitAtSpace(s: string, i: nat)
    requires Index(s, " ", 0) == Some(i)
    ensures i < |s| && Split(s, " ") == [s[..i]] + Split(s[i + 1..], " ")
  {}

  lemma SplitGlueAfter(a: string, b: string, i: nat)
    requires i < |a| && Index(a, " ", 0) == Some(i) && Index(a + (" " + b), " ", 0) == Some(i)
    requires Split(a[i + 1..] + (" " + b), " ") == Split(a[i + 1..], " ") + Split(b, " ")
    ensures Split(a + (" " + b), " ") == Split(a, " ") + Split(b, " ")
  {
    SplitAtSpace(a, i);
    SplitAtSpace(a + (" " + b), i);
    DropOfGlue(a, " " + b, i);
    DropOfGlue(a, " " + b, i + 1);
    Reassociate([a[..i]], Split(a[i + 1..], " "), Split(b, " "));
  }

  /** Words put after a space are the last words. */
  lemma {:induction false} SplitGlue(a: string, b: string)
    ensures Split(a + (" " + b), " ") == Split(a, " ") + Split(b, " ")
    decreases |a|
  {
    var s := a + (" " + b);
    var i := SpaceIndex(a);
    FirstSpace(s, i);
    if i == |a| {
      NoSpace(a);
      SplitAtSpace(s, i);
      DropOfGlue(a, " " + b, i);
      assert s[i + 1..] == b;
    } else {
      FirstSpace(a, i);
      SplitGlue(a[i + 1..], b);
      SplitGlueAfter(a, b, i);
    }
  }
}
