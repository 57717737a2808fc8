/** Dates in context, exactly: when a text converts part by part, and what that means for a date or a month name between
    any two texts. */
module DateFronts {
  import opened Options
  import opened Text
  import opened D = Dates
  import opened DatePieces
  import opened DateContexts

  // Reading from position i, a piece begins, or the reading ends, at e.
  ghost predicate Hits(at: Reader, i: nat, e: nat)
    decreases e - i
  {
    i == e || (i < e && 0 < at(i).1 && Hits(at, i + at(i).1, e))
  }

  // The reading of the text takes a month name that stands across position e.
  ghost predicate MonthPieceAcross(tb: seq<Month>, s: string, e: nat) {
    exists i: nat :: Hits(At(tb, s), 0, i) && i < e < i + At(tb, s)(i).1 && At(tb, s)(i).0.Name?
  }

  lemma {:induction false} HitsOrAcross(at: Reader, i: nat, e: nat) returns (j: nat)
    requires i <= e && !Hits(at, i, e) && forall j: nat :: 0 < at(j).1
    ensures Hits(at, i, j) && j < e < j + at(j).1
    decreases e - i
  {
    if i + at(i).1 <= e {
      j := HitsOrAcross(at, i + at(i).1, e);
    } else {
      j := i;
    }
  }

  lemma {:induction false} NotBoth(at: Reader, i: nat, j: nat, e: nat)
    requires Hits(at, i, j) && i <= j < e < j + at(j).1
    ensures !Hits(at, i, e)
    decreases j - i
  {
    if i < j {
      NotBoth(at, i + at(i).1, j, e);
    }
  }

  lemma {:induction false} HitsLater(at: Reader, i: nat, j: nat)
    requires Hits(at, i, j)
    ensures i <= j
    decreases j - i
  {
    if i != j {
      HitsLater(at, i + at(i).1, j);
    }
  }

  lemma {:induction false} HitsFrom(at: Reader, i: nat, j: nat, e: nat)
    requires Hits(at, i, j) && Hits(at, i, e) && j <= e
    ensures Hits(at, j, e)
    decreases j - i
  {
    if i < j {
      HitsLater(at, i + at(i).1, j);
      HitsFrom(at, i + at(i).1, j, e);
    }
  }

  // Where g, moved by `shift`, reads what f reads of the pieces that end by n.
  ghost predicate Agrees(f: Reader, shift: nat, g: Reader, n: nat) {
    forall j: nat :: j < n && f(shift + j).1 <= n - j ==> g(j) == f(shift + j)
  }

  lemma {:induction false} WalkAlong(f: Reader, m: nat, shift: nat, g: Reader, n: nat, i: nat)
    requires i <= n && shift + n <= m && Hits(f, shift + i, shift + n) && Agrees(f, shift, g, n)
    ensures Walk(f, m, shift + i) == Walk(g, n, i) + Walk(f, m, shift + n) && Hits(g, i, n)
    decreases n - i
  {
    if i < n {
      var (p, w) := f(shift + i);
      HitsLater(f, shift + i + w, shift + n);
      WalkAlong(f, m, shift, g, n, i + w);
      Reassociate([p], Walk(g, n, i + w), Walk(f, m, shift + n));
    } else {
      NothingBefore(Walk(g, n, i), Walk(f, m, shift + n));
    }
  }

  // A reading in two parts.
  lemma WalkSplit(at: Reader, m: nat, n: nat)
    requires n <= m && Hits(at, 0, n)
    ensures Walk(at, m, 0) == Walk(at, n, 0) + Walk(at, m, n)
  {
    WalkAlong(at, m, 0, at, n, 0);
  }

  // ----- Up to the front the text reads as it does alone -----

  lemma YearFits(tb: seq<Month>, a: string, b: string, i: nat)
    requires i < |a| && YearAt(tb, a + b, i) && YearEnd(tb, a + b, i) <= |a|
    ensures YearAt(tb, a, i) && At(tb, a)(i) == At(tb, a + b)(i)
  {
    var s := a + b;
    assert s[..i] == a[..i];
    DropGlue(a, b, i);
    GapWithin(a[i..], b);
    YearPieceMore(a[i..], b);
    AtYear(tb, a, i);
    AtYear(tb, s, i);
  }

  lemma NoYearFits(tb: seq<Month>, a: string, b: string, i: nat)
    requires i < |a| && !YearAt(tb, a + b, i)
    ensures !YearAt(tb, a, i)
  {
    assert (a + b)[..i] == a[..i];
    DropGlue(a, b, i);
    if YearAt(tb, a, i) {
      GapBeforeMore(a[i..], b);
    }
  }

  lemma PrefixOfMore(a: string, b: string, x: string)
    requires |x| <= |a|
    ensures HasPrefix(a + b, x) <==> HasPrefix(a, x)
  {
    assert (a + b)[..|x|] == a[..|x|];
  }

  // A name that fits into a is the name there, with or without b.
  lemma NameFits(tb: seq<Month>, a: string, b: string, k: nat)
    requires Good(tb) && MonthHere(tb, a + b) == Some(k) && |tb[k].thai| <= |a|
    ensures MonthHere(tb, a) == Some(k)
  {
    PrefixOfMore(a, b, tb[k].thai);
    assert MonthHere(tb, a).Some?;
    var j := MonthHere(tb, a).value;
    OneBeginsTheOther(a, tb[j].thai, tb[k].thai);
  }

  lemma NoNameFits(tb: seq<Month>, a: string, b: string)
    requires MonthHere(tb, a + b).None?
    ensures MonthHere(tb, a).None?
  {
    if MonthHere(tb, a).Some? {
      var j := MonthHere(tb, a).value;
      PrefixOfMore(a, b, tb[j].thai);
    }
  }

  lemma AtFits(tb: seq<Month>, a: string, b: string, i: nat)
    requires Good(tb) && i < |a| && At(tb, a + b)(i).1 <= |a| - i
    ensures At(tb, a)(i) == At(tb, a + b)(i)
  {
    var s := a + b;
    if YearAt(tb, s, i) {
      AtYear(tb, s, i);
      YearFits(tb, a, b, i);
    } else {
      NoYearFits(tb, a, b, i);
      DropGlue(a, b, i);
      var k := MonthHere(tb, s[i..]);
      if k.Some? {
        AtName(tb, s, i, k.value);
        NameFits(tb, a[i..], b, k.value);
        AtName(tb, a, i, k.value);
      } else {
        AtLetter(tb, s, i);
        NoNameFits(tb, a[i..], b);
        AtLetter(tb, a, i);
      }
    }
  }

  lemma FrontAgrees(tb: seq<Month>, s: string, a: string, b: string, n: nat)
    requires Good(tb) && s == a + b && n <= |a|
    ensures Agrees(At(tb, s), 0, At(tb, a), n)
  {
    forall j: nat | j < n && At(tb, s)(0 + j).1 <= n - j
      ensures At(tb, a)(j) == At(tb, s)(0 + j)
    {
      AtFits(tb, a, b, j);
    }
  }

  lemma SameFirstPart(f: Reader, m: nat, g: Reader, k: nat, n: nat)
    requires n <= m && n <= k && Hits(f, 0, n) && Agrees(f, 0, g, n)
    ensures Walk(f, m, 0) == Walk(g, n, 0) + Walk(f, m, n) && Walk(g, k, 0) == Walk(g, n, 0) + Walk(g, k, n)
  {
    WalkAlong(f, m, 0, g, n, 0);
    WalkSplit(g, k, n);
  }

  // Up to a place before the cut the text reads as its front does alone.
  lemma FrontReadsAlone(tb: seq<Month>, s: string, a: string, b: string, n: nat)
    requires Good(tb) && s == a + b && n <= |a| && Hits(At(tb, s), 0, n)
    ensures Pieces(tb, s) == Walk(At(tb, a), n, 0) + Walk(At(tb, s), |s|, n)
    ensures Pieces(tb, a) == Walk(At(tb, a), n, 0) + Walk(At(tb, a), |a|, n)
  {
    FrontAgrees(tb, s, a, b, n);
    SameFirstPart(At(tb, s), |s|, At(tb, a), |a|, n);
  }

  // ----- What pieces are -----

  lemma NamePieceIs(tb: seq<Month>, s: string, j: nat) returns (k: nat)
    requires Good(tb) && j < |s| && At(tb, s)(j).0.Name?
    ensures k < |tb| && At(tb, s)(j) == (Name(tb[k]), |tb[k].thai|) && HasPrefix(s[j..], tb[k].thai)
  {
    k := MonthHere(tb, s[j..]).value;
  }

  lemma YearPieceIsYear(tb: seq<Month>, s: string, j: nat)
    requires j < |s| && At(tb, s)(j).0.Year?
    ensures YearAt(tb, s, j) && At(tb, s)(j).1 == YearEnd(tb, s, j) - j
  {}

  lemma KeptPieceIs(tb: seq<Month>, s: string, j: nat)
    requires j < |s| && At(tb, s)(j).0.Kept?
    ensures At(tb, s)(j) == (Kept(s[j]), 1)
  {}

  lemma PiecesAdvance(tb: seq<Month>, s: string, j: nat)
    ensures 0 < At(tb, s)(j).1
  {}

  // If the reading misses e, the piece across it is a month name or a year.
  lemma MissedBy(tb: seq<Month>, s: string, e: nat) returns (i: nat)
    requires e <= |s| && !Hits(At(tb, s), 0, e)
    ensures Hits(At(tb, s), 0, i) && i < e < i + At(tb, s)(i).1
    ensures At(tb, s)(i).0.Name? || (YearAt(tb, s, i) && e < YearEnd(tb, s, i))
  {
    forall j: nat
      ensures 0 < At(tb, s)(j).1
    {
      PiecesAdvance(tb, s, j);
    }
    i := HitsOrAcross(At(tb, s), 0, e);
    if At(tb, s)(i).0.Kept? {
      KeptPieceIs(tb, s, i);
    } else if At(tb, s)(i).0.Year? {
      YearPieceIsYear(tb, s, i);
    }
  }

  lemma NameIsAcross(tb: seq<Month>, s: string, i: nat, e: nat)
    requires Good(tb) && i < e < i + At(tb, s)(i).1 && e <= |s| && At(tb, s)(i).0.Name?
    ensures NameAcross(tb, s, e)
  {
    var k := NamePieceIs(tb, s, i);
    var n := i + |tb[k].thai|;
    assert s[i..][..|tb[k].thai|] == s[i..n];
  }

  // Every year right after a month name is a piece.
  lemma YearIsHit(tb: seq<Month>, s: string, i: nat)
    requires Good(tb) && YearAt(tb, s, i)
    ensures Hits(At(tb, s), 0, i)
  {
    YearIsCut(tb, s, i);
    if !Hits(At(tb, s), 0, i) {
      var j := MissedBy(tb, s, i);
      if At(tb, s)(j).0.Name? {
        NameIsAcross(tb, s, j, i);
      }
    }
  }

  // ----- A month name read across the cut -----

  lemma Diverge(x: string, p: string, q: string)
    requires p != "" && q != "" && p[0] != q[0]
    ensures x + p != x + q
  {
    assert (x + p)[|x|] == p[0] && (x + q)[|x|] == q[0];
  }

  // Alone, the front keeps the first letter of the name.
  lemma FrontKeepsLetter(tb: seq<Month>, s: string, a: string, b: string, i: nat)
    requires Good(tb) && s == a + b && i < |a| < i + At(tb, s)(i).1 && At(tb, s)(i).0.Name?
    ensures At(tb, a)(i) == (Kept(s[i]), 1) && IsThai(s[i])
  {
    var k := NamePieceIs(tb, s, i);
    assert GoodMonth(tb[k]);
    assert s[i] == s[i..][0] == tb[k].thai[0];
    assert IsMonthChar(a[i]);
    NoYearAtLetter(tb, a, i);
    DropGlue(a, b, i);
    if MonthHere(tb, a[i..]).Some? {
      var j := MonthHere(tb, a[i..]).value;
      PrefixOfMore(a[i..], b, tb[j].thai);
      OneBeginsTheOther(s[i..], tb[j].thai, tb[k].thai);
    }
    AtLetter(tb, a, i);
  }

  lemma WalkBegins(at: Reader, n: nat, i: nat)
    requires i < n && 0 < at(i).1
    ensures Images(Walk(at, n, i)) == at(i).0.Image() + Images(Walk(at, n, i + at(i).1))
  {
    ConsPiece(at(i).0, Walk(at, n, i + at(i).1));
  }

  // Text and front have the same pieces up to i.
  lemma SameUpTo(tb: seq<Month>, s: string, a: string, b: string, i: nat) returns (x: string)
    requires Good(tb) && s == a + b && i <= |a| && Hits(At(tb, s), 0, i)
    ensures Images(Pieces(tb, s)) == x + Images(Walk(At(tb, s), |s|, i))
    ensures Images(Pieces(tb, a)) == x + Images(Walk(At(tb, a), |a|, i))
  {
    FrontReadsAlone(tb, s, a, b, i);
    x := Images(Walk(At(tb, a), i, 0));
    ImagesConcat(Walk(At(tb, a), i, 0), Walk(At(tb, s), |s|, i));
    ImagesConcat(Walk(At(tb, a), i, 0), Walk(At(tb, a), |a|, i));
  }

  lemma NameImage(tb: seq<Month>, s: string, i: nat)
    requires Good(tb) && i < |s| && At(tb, s)(i).0.Name?
    ensures Images(Walk(At(tb, s), |s|, i)) != "" && IsLatin(Images(Walk(At(tb, s), |s|, i))[0])
  {
    var k := NamePieceIs(tb, s, i);
    assert GoodMonth(tb[k]);
    WalkBegins(At(tb, s), |s|, i);
  }

  lemma LetterImage(tb: seq<Month>, a: string, i: nat)
    requires i < |a| && At(tb, a)(i).0.Kept? && IsThai(a[i])
    ensures Images(Walk(At(tb, a), |a|, i)) != "" && IsThai(Images(Walk(At(tb, a), |a|, i))[0])
  {
    KeptPieceIs(tb, a, i);
    WalkBegins(At(tb, a), |a|, i);
  }

  /** A text in which the reading takes a month name across a cut does not even begin as its front converts. */
  lemma NameAcrossSpoilsFront(s: string, a: string, b: string, rest: string)
    requires s == a + b && MonthPieceAcross(Table(), s, |a|)
    ensures Dates(s) != Dates(a) + rest
  {
    var tb := Table();
    TableIsGood();
    var i: nat :| Hits(At(tb, s), 0, i) && i < |a| < i + At(tb, s)(i).1 && At(tb, s)(i).0.Name?;
    FrontKeepsLetter(tb, s, a, b, i);
    var x := SameUpTo(tb, s, a, b, i);
    NameImage(tb, s, i);
    LetterImage(tb, a, i);
    DatesByPiece(s);
    DatesByPiece(a);
    var p, q := Images(Walk(At(tb, s), |s|, i)), Images(Walk(At(tb, a), |a|, i));
    Reassociate(x, q, rest);
    Diverge(x, p, q + rest);
  }

  // ----- A year that only the whole text has -----

  // A year of a + b, right after a month name, that ends in b and that b alone does not have.
  ghost predicate LostAt(tb: seq<Month>, a: string, b: string, i: nat) {
    YearAt(tb, a + b, i) && |a| < YearEnd(tb, a + b, i) && (i <= |a| || (i <= |a| + |b| && !EndsInMonth(tb, b[..i - |a|])))
  }

  ghost predicate YearLost(tb: seq<Month>, a: string, b: string) {
    exists i: nat :: LostAt(tb, a, b, i)
  }

  lemma {:induction false} FirstLost(tb: seq<Month>, a: string, b: string, i: nat) returns (m: nat)
    requires LostAt(tb, a, b, i)
    ensures LostAt(tb, a, b, m) && forall j: nat :: j < m ==> !LostAt(tb, a, b, j)
    decreases i
  {
    if j: nat :| j < i && LostAt(tb, a, b, j) {
      m := FirstLost(tb, a, b, j);
    } else {
      m := i;
    }
  }

  // Text of gaps and digits only.
  predicate Raw(x: string) {
    forall i :: 0 <= i < |x| ==> IsGap(x[i]) || IsDigit(x[i])
  }

  lemma NoYearAfterRaw(tb: seq<Month>, t: string, j: nat)
    requires Good(tb) && j < |t| && (IsGap(t[j]) || IsDigit(t[j]))
    ensures !YearAt(tb, t, j + 1)
  {
    if YearAt(tb, t, j + 1) {
      LetterBefore(tb, t, j + 1);
    }
  }

  lemma RawLetter(tb: seq<Month>, t: string, j: nat)
    requires Good(tb) && j < |t| && (IsGap(t[j]) || IsDigit(t[j])) && !YearAt(tb, t, j)
    ensures At(tb, t)(j) == (Kept(t[j]), 1)
  {
    assert t[j..][0] == t[j];
    NotThaiNoMonth(tb, t[j..]);
    AtLetter(tb, t, j);
  }

  // Where no year is read, gaps and digits stay.
  lemma {:induction false} RawStays(tb: seq<Month>, t: string, j: nat, n: nat)
    requires Good(tb) && j <= n <= |t| && Raw(t[j..n]) && (j < n ==> !YearAt(tb, t, j))
    ensures Images(Walk(At(tb, t), |t|, j)) == t[j..n] + Images(Walk(At(tb, t), |t|, n))
    decreases n - j
  {
    if j < n {
      SliceCons(t, j, n);
      RawTail(t[j], t[j + 1..n]);
      RawLetter(tb, t, j);
      NoYearAfterRaw(tb, t, j);
      RawStays(tb, t, j + 1, n);
      WalkBegins(At(tb, t), |t|, j);
      Reassociate([t[j]], t[j + 1..n], Images(Walk(At(tb, t), |t|, n)));
    } else {
      NothingBefore(t[j..n], Images(Walk(At(tb, t), |t|, n)));
    }
  }

  lemma RawTail(c: char, x: string)
    requires Raw([c] + x)
    ensures (IsGap(c) || IsDigit(c)) && Raw(x)
  {
    assert ([c] + x)[0] == c;
    assert forall i :: 0 <= i < |x| ==> x[i] == ([c] + x)[i + 1];
  }

  lemma YearIsRaw(tb: seq<Month>, s: string, i: nat)
    requires YearAt(tb, s, i)
    ensures Raw(s[i..YearEnd(tb, s, i)])
  {
    var e := YearEnd(tb, s, i);
    forall j | 0 <= j < e - i
      ensures IsGap(s[i..e][j]) || IsDigit(s[i..e][j])
    {
      YearChars(tb, s, i, i + j);
    }
  }

  lemma OtherDigits(year: string, y: string, raw: string, z: string)
    requires |year| == 4 && IsDigit(year[0]) && !(year[0] == '2' && year[1] == '5') && |raw| >= 4
    requires raw[0] == '2' || (raw[1] == '2' && raw[2] == '5') || IsGap(raw[1])
    ensures " " + year + y != raw + z
  {
    var p, q := " " + year + y, raw + z;
    assert p[0] == ' ' && p[1] == year[0] && p[2] == year[1];
    assert q[0] == raw[0] && q[1] == raw[1] && q[2] == raw[2];
  }

  lemma RawBegins(t: string)
    requires GapBefore(t).Some? && GapBefore(t).value + 4 <= |t|
    ensures var raw := t[..GapBefore(t).value + 4]; raw[0] == '2' || (raw[1] == '2' && raw[2] == '5') || IsGap(raw[1])
  {
    var w := GapBefore(t).value;
    assert t[w] == t[w..][0] && t[w + 1] == t[w..][1];
  }

  // A shifted year does not read as the gap and year it came from.
  lemma ShiftedDiffers(t: string, y: string, z: string)
    requires GapBefore(t).Some? && GapBefore(t).value + 4 <= |t|
    ensures YearPiece(t).Image() + y != t[..GapBefore(t).value + 4] + z
  {
    var year := YearOf(t[GapBefore(t).value..]) - 543;
    YearImageIs(t);
    ShiftedYear(year);
    RawBegins(t);
    OtherDigits(Itoa(year), y, t[..GapBefore(t).value + 4], z);
  }

  lemma ShiftedDiffersAfter(x: string, t: string, y: string, z: string)
    requires GapBefore(t).Some? && GapBefore(t).value + 4 <= |t|
    ensures x + (YearPiece(t).Image() + y) != x + (t[..GapBefore(t).value + 4] + z)
  {
    ShiftedDiffers(t, y, z);
    var p, q := YearPiece(t).Image() + y, t[..GapBefore(t).value + 4] + z;
    if x + p == x + q {
      assert p == (x + p)[|x|..] && q == (x + q)[|x|..];
    }
  }

  lemma YearReads(tb: seq<Month>, s: string, i: nat) returns (y: string)
    requires YearAt(tb, s, i)
    ensures Images(Walk(At(tb, s), |s|, i)) == YearPiece(s[i..]).Image() + y
  {
    y := Images(Walk(At(tb, s), |s|, YearEnd(tb, s, i)));
    YearFirst(tb, s, i);
    ConsPiece(YearPiece(s[i..]), Walk(At(tb, s), |s|, YearEnd(tb, s, i)));
  }

  lemma NoNameEndsNothing(tb: seq<Month>, b: string)
    requires Good(tb)
    ensures !YearAt(tb, b, 0)
  {
    if YearAt(tb, b, 0) {
      LetterBefore(tb, b, 0);
    }
  }

  lemma RawSlice(s: string, i: nat, j: nat, k: nat, n: nat)
    requires i <= j <= k <= n <= |s| && Raw(s[i..n])
    ensures Raw(s[j..k])
  {
    assert forall d :: 0 <= d < k - j ==> s[j..k][d] == s[i..n][d + (j - i)];
  }

  lemma NoYearInFront(tb: seq<Month>, a: string, b: string, i: nat)
    requires YearAt(tb, a + b, i) && i < |a| < YearEnd(tb, a + b, i)
    ensures !YearAt(tb, a, i)
  {
    if YearAt(tb, a, i) {
      DropGlue(a, b, i);
      GapBeforeMore(a[i..], b);
    }
  }

  lemma FrontShare(tb: seq<Month>, a: string, b: string, i: nat)
    requires Good(tb) && YearAt(tb, a + b, i) && i <= |a| < YearEnd(tb, a + b, i)
    ensures Images(Walk(At(tb, a), |a|, i)) == a[i..]
  {
    YearIsRaw(tb, a + b, i);
    RawSlice(a + b, i, i, |a|, YearEnd(tb, a + b, i));
    assert a[i..|a|] == (a + b)[i..|a|] && a[i..|a|] == a[i..];
    if i < |a| {
      NoYearInFront(tb, a, b, i);
    }
    RawStays(tb, a, i, |a|);
    NoMoreRead(At(tb, a), |a|, a[i..]);
  }

  lemma RestShare(tb: seq<Month>, a: string, b: string, i: nat) returns (z: string)
    requires Good(tb) && YearAt(tb, a + b, i) && i <= |a| < YearEnd(tb, a + b, i)
    ensures Images(Pieces(tb, b)) == (a + b)[|a|..YearEnd(tb, a + b, i)] + z
  {
    var e := YearEnd(tb, a + b, i);
    YearIsRaw(tb, a + b, i);
    RawSlice(a + b, i, |a|, e, e);
    assert b[0..e - |a|] == (a + b)[|a|..e];
    NoNameEndsNothing(tb, b);
    RawStays(tb, b, 0, e - |a|);
    z := Images(Walk(At(tb, b), |b|, e - |a|));
  }

  lemma SliceAtCut(a: string, b: string, i: nat, e: nat)
    requires i <= |a| <= e <= |a| + |b|
    ensures (a + b)[i..e] == a[i..] + (a + b)[|a|..e]
  {}

  // A year across the cut, or right after it: each part keeps its share of the gap and the digits.
  lemma SharesStay(tb: seq<Month>, a: string, b: string, i: nat) returns (z: string)
    requires Good(tb) && YearAt(tb, a + b, i) && i <= |a| < YearEnd(tb, a + b, i)
    ensures Images(Walk(At(tb, a), |a|, i)) + Images(Pieces(tb, b)) == (a + b)[i..YearEnd(tb, a + b, i)] + z
  {
    FrontShare(tb, a, b, i);
    z := RestShare(tb, a, b, i);
    SliceAtCut(a, b, i, YearEnd(tb, a + b, i));
    Reassociate(a[i..], (a + b)[|a|..YearEnd(tb, a + b, i)], z);
  }

  lemma NoMoreRead(at: Reader, n: nat, x: string)
    ensures x + Images(Walk(at, n, n)) == x
  {}

  lemma YearSlice(tb: seq<Month>, s: string, i: nat)
    requires YearAt(tb, s, i)
    ensures GapBefore(s[i..]).value + 4 <= |s[i..]| && s[i..YearEnd(tb, s, i)] == s[i..][..GapBefore(s[i..]).value + 4]
  {}

  lemma PiecesAcrossDiffer(tb: seq<Month>, a: string, b: string, i: nat)
    requires Good(tb) && YearAt(tb, a + b, i) && i <= |a| < YearEnd(tb, a + b, i)
    ensures Images(Pieces(tb, a + b)) != Images(Pieces(tb, a)) + Images(Pieces(tb, b))
  {
    var s := a + b;
    YearIsHit(tb, s, i);
    var x := SameUpTo(tb, s, a, b, i);
    var y := YearReads(tb, s, i);
    var z := SharesStay(tb, a, b, i);
    YearSlice(tb, s, i);
    ShiftedDiffersAfter(x, s[i..], y, z);
    Reassociate(x, Images(Walk(At(tb, a), |a|, i)), Images(Pieces(tb, b)));
  }

  lemma YearAcrossSpoils(a: string, b: string, i: nat)
    requires YearAt(Table(), a + b, i) && i <= |a| < YearEnd(Table(), a + b, i)
    ensures Dates(a + b) != Dates(a) + Dates(b)
  {
    TableIsGood();
    PiecesAcrossDiffer(Table(), a, b, i);
    DatesAreImages(a + b);
    DatesAreImages(a);
    DatesAreImages(b);
  }

  // Where no year is lost, the rest has the years of the whole.
  lemma YearsOfRest(tb: seq<Month>, a: string, b: string, j: nat)
    requires Good(tb) && j <= |b| && !LostAt(tb, a, b, |a| + j)
    ensures YearAt(tb, a + b, |a| + j) <==> YearAt(tb, b, j)
  {
    DropInto(a, b, |a| + j);
    if YearAt(tb, b, j) {
      EndsLater(tb, a, b, j);
    }
  }

  // At place j the rest reads as the whole text does.
  ghost predicate RestReads(f: Reader, shift: nat, g: Reader, m: nat, j: nat) {
    g(j) == f(shift + j) && 0 < g(j).1 && g(j).1 + j <= m
  }

  lemma RestAgreesAt(tb: seq<Month>, a: string, b: string, j: nat)
    requires Good(tb) && j < |b| && !LostAt(tb, a, b, |a| + j)
    ensures RestReads(At(tb, a + b), |a|, At(tb, b), |b|, j)
  {
    YearsOfRest(tb, a, b, j);
    DropInto(a, b, |a| + j);
    AtSame(tb, a + b, |a| + j, b, j);
  }

  // The cut is hit unless a month name or a year stands across it.
  lemma MissedCut(tb: seq<Month>, a: string, b: string) returns (i: nat)
    requires !Hits(At(tb, a + b), 0, |a|)
    ensures MonthPieceAcross(tb, a + b, |a|) || (i < |a| && LostAt(tb, a, b, i))
  {
    i := MissedBy(tb, a + b, |a|);
  }

  ghost predicate NoneLostBefore(tb: seq<Month>, a: string, b: string, n: nat) {
    forall j: nat :: j < n ==> !LostAt(tb, a, b, j)
  }

  lemma CutIsHit(tb: seq<Month>, a: string, b: string, n: nat)
    requires !MonthPieceAcross(tb, a + b, |a|) && NoneLostBefore(tb, a, b, n) && |a| <= n
    ensures Hits(At(tb, a + b), 0, |a|)
  {
    if !Hits(At(tb, a + b), 0, |a|) {
      var i := MissedCut(tb, a, b);
    }
  }

  lemma RestAgrees(tb: seq<Month>, a: string, b: string, n: nat)
    requires Good(tb) && n <= |b| && NoneLostBefore(tb, a, b, |a| + n)
    ensures forall j: nat :: j < n ==> RestReads(At(tb, a + b), |a|, At(tb, b), |b|, j)
  {
    forall j: nat | j < n
      ensures RestReads(At(tb, a + b), |a|, At(tb, b), |b|, j)
    {
      assert !LostAt(tb, a, b, |a| + j);
      RestAgreesAt(tb, a, b, j);
    }
  }

  lemma SameSecondPart(f: Reader, m: nat, shift: nat, g: Reader, k: nat, n: nat) returns (x: string)
    requires m == shift + k && n <= k && Hits(f, shift, shift + n)
    requires forall j: nat :: j < n ==> RestReads(f, shift, g, k, j)
    ensures Images(Walk(f, m, shift)) == x + Images(Walk(f, m, shift + n)) && Images(Walk(g, k, 0)) == x + Images(Walk(g, k, n))
  {
    forall j: nat | j < n
      ensures g(j) == f(shift + j)
    {
      assert RestReads(f, shift, g, k, j);
    }
    WalkAlong(f, m, shift, g, n, 0);
    WalkSplit(g, k, n);
    x := Images(Walk(g, n, 0));
    ImagesConcat(Walk(g, n, 0), Walk(f, m, shift + n));
    ImagesConcat(Walk(g, n, 0), Walk(g, k, n));
  }

  // The text up to the cut reads as the front, all of it.
  lemma FrontIsWhole(tb: seq<Month>, s: string, a: string, b: string)
    requires Good(tb) && s == a + b && Hits(At(tb, s), 0, |a|)
    ensures Images(Pieces(tb, s)) == Images(Pieces(tb, a)) + Images(Walk(At(tb, s), |s|, |a|))
  {
    var x := SameUpTo(tb, s, a, b, |a|);
    NoMoreRead(At(tb, a), |a|, x);
  }

  // The rest up to a year reads alike.
  lemma RestUpTo(tb: seq<Month>, a: string, b: string, i: nat) returns (x: string)
    requires Good(tb) && |a| <= i <= |a| + |b| && NoneLostBefore(tb, a, b, i)
    requires Hits(At(tb, a + b), 0, |a|) && Hits(At(tb, a + b), 0, i)
    ensures Images(Walk(At(tb, a + b), |a + b|, |a|)) == x + Images(Walk(At(tb, a + b), |a + b|, i))
    ensures Images(Pieces(tb, b)) == x + Images(Walk(At(tb, b), |b|, i - |a|))
  {
    var n := i - |a|;
    HitsFrom(At(tb, a + b), 0, |a|, i);
    RestAgrees(tb, a, b, n);
    x := SameSecondPart(At(tb, a + b), |a + b|, |a|, At(tb, b), |b|, n);
  }

  lemma LostBehind(tb: seq<Month>, a: string, b: string, i: nat)
    requires LostAt(tb, a, b, i) && |a| < i
    ensures i <= |a| + |b| && YearAt(tb, a + b, i) && !YearAt(tb, b, i - |a|) && YearEnd(tb, a + b, i) <= |a| + |b|
  {}

  // The text with the year and the rest without it are the same up to the year.
  lemma YearBehindReads(tb: seq<Month>, a: string, b: string, i: nat) returns (x: string, y: string, z: string)
    requires Good(tb) && |a| < i <= |a| + |b| && YearAt(tb, a + b, i) && !YearAt(tb, b, i - |a|)
    requires NoneLostBefore(tb, a, b, i) && !MonthPieceAcross(tb, a + b, |a|)
    ensures Images(Pieces(tb, a + b)) == Images(Pieces(tb, a)) + (x + (YearPiece((a + b)[i..]).Image() + y))
    ensures Images(Pieces(tb, b)) == x + ((a + b)[i..YearEnd(tb, a + b, i)] + z)
  {
    YearIsHit(tb, a + b, i);
    CutIsHit(tb, a, b, i);
    FrontIsWhole(tb, a + b, a, b);
    x := RestUpTo(tb, a, b, i);
    y := YearReads(tb, a + b, i);
    z := YearStays(tb, a, b, i);
  }

  lemma LaterSlice(a: string, b: string, i: nat, e: nat)
    requires |a| <= i <= e <= |a| + |b|
    ensures b[i - |a|..e - |a|] == (a + b)[i..e]
  {}

  // A year whose month name stands across the cut stays as it is in the rest alone.
  lemma YearStays(tb: seq<Month>, a: string, b: string, i: nat) returns (z: string)
    requires Good(tb) && |a| < i <= |a| + |b| && YearAt(tb, a + b, i) && !YearAt(tb, b, i - |a|)
    ensures Images(Walk(At(tb, b), |b|, i - |a|)) == (a + b)[i..YearEnd(tb, a + b, i)] + z
  {
    var e := YearEnd(tb, a + b, i);
    YearIsRaw(tb, a + b, i);
    LaterSlice(a, b, i, e);
    RawStays(tb, b, i - |a|, e - |a|);
    z := Images(Walk(At(tb, b), |b|, e - |a|));
  }

  lemma UnlikeBehind(front: string, x: string, t: string, y: string, raw: string, z: string)
    requires GapBefore(t).Some? && GapBefore(t).value + 4 <= |t| && raw == t[..GapBefore(t).value + 4]
    ensures front + (x + (YearPiece(t).Image() + y)) != front + (x + (raw + z))
  {
    Reassociate(front, x, YearPiece(t).Image() + y);
    Reassociate(front, x, raw + z);
    ShiftedDiffersAfter(front + x, t, y, z);
  }

  lemma PiecesBehindDiffer(tb: seq<Month>, a: string, b: string, i: nat)
    requires Good(tb) && |a| < i <= |a| + |b| && YearAt(tb, a + b, i) && !YearAt(tb, b, i - |a|)
    requires NoneLostBefore(tb, a, b, i) && !MonthPieceAcross(tb, a + b, |a|)
    ensures Images(Pieces(tb, a + b)) != Images(Pieces(tb, a)) + Images(Pieces(tb, b))
  {
    var x, y, z := YearBehindReads(tb, a, b, i);
    YearSlice(tb, a + b, i);
    UnlikeBehind(Images(Pieces(tb, a)), x, (a + b)[i..], y, (a + b)[i..YearEnd(tb, a + b, i)], z);
  }

  lemma DatesAreImages(s: string)
    ensures Dates(s) == Images(Pieces(Table(), s))
  {
    DatesByPiece(s);
  }

  lemma YearBehindSpoils(a: string, b: string, i: nat)
    requires LostAt(Table(), a, b, i) && |a| < i && NoneLostBefore(Table(), a, b, i) && !MonthPieceAcross(Table(), a + b, |a|)
    ensures Dates(a + b) != Dates(a) + Dates(b)
  {
    TableIsGood();
    LostBehind(Table(), a, b, i);
    PiecesBehindDiffer(Table(), a, b, i);
    DatesAreImages(a + b);
    DatesAreImages(a);
    DatesAreImages(b);
  }

  lemma NoneLost(tb: seq<Month>, a: string, b: string, n: nat)
    requires !YearLost(tb, a, b)
    ensures NoneLostBefore(tb, a, b, n)
  {}

  lemma RestReadsAlone(tb: seq<Month>, a: string, b: string)
    requires Good(tb) && NoneLostBefore(tb, a, b, |a| + |b|)
    ensures Walk(At(tb, a + b), |a + b|, |a|) == Pieces(tb, b)
  {
    RestAgrees(tb, a, b, |b|);
    RestIsWhole(At(tb, a + b), |a + b|, |a|, At(tb, b), |b|);
  }

  lemma NothingLostConverts(a: string, b: string)
    requires !MonthPieceAcross(Table(), a + b, |a|) && !YearLost(Table(), a, b)
    ensures Dates(a + b) == Dates(a) + Dates(b)
  {
    TableIsGood();
    NoneLost(Table(), a, b, |a| + |b|);
    CutIsHit(Table(), a, b, |a| + |b|);
    FrontIsWhole(Table(), a + b, a, b);
    RestReadsAlone(Table(), a, b);
    DatesByPiece(a + b);
    DatesByPiece(a);
    DatesByPiece(b);
  }

  lemma RestIsWhole(f: Reader, m: nat, shift: nat, g: Reader, k: nat)
    requires m == shift + k && forall j: nat :: j < k ==> RestReads(f, shift, g, k, j)
    ensures Walk(f, m, shift) == Walk(g, k, 0)
  {
    forall j: nat | j < k
      ensures ReadsAlike(f, shift, g, k, j)
    {
      assert RestReads(f, shift, g, k, j);
    }
    WalkSame(f, m, shift, g, k);
  }

  // ----- The main results -----

  /** Any text converts part by part at a cut exactly when the reading takes no month name across the cut and every year
      of the whole that ends behind it is a year of the rest by itself. */
  lemma DatesConcatIff(a: string, b: string)
    ensures Dates(a + b) == Dates(a) + Dates(b)
       <==> !MonthPieceAcross(Table(), a + b, |a|) && !YearLost(Table(), a, b)
  {
    if MonthPieceAcross(Table(), a + b, |a|) {
      NameAcrossSpoilsFront(a + b, a, b, Dates(b));
    } else if YearLost(Table(), a, b) {
      var any: nat :| LostAt(Table(), a, b, any);
      var i := FirstLost(Table(), a, b, any);
      if i <= |a| {
        YearAcrossSpoils(a, b, i);
      } else {
        YearBehindSpoils(a, b, i);
      }
    } else {
      NothingLostConverts(a, b);
    }
  }

  // ----- Dates and month names -----

  lemma NameLetters(before: string, k: nat, c: nat)
    requires k < MONTHS && |before| <= c < |before + Thai(k)|
    ensures IsMonthChar((before + Thai(k))[c])
  {
    ThaiIsPure(k);
    assert (before + Thai(k))[c] == Thai(k)[c - |before|];
  }

  lemma NoYearLostInName(before: string, k: nat)
    requires k < MONTHS
    ensures !YearLost(Table(), before, Thai(k))
  {
    var s := before + Thai(k);
    forall i: nat
      ensures !LostAt(Table(), before, Thai(k), i)
    {
      if LostAt(Table(), before, Thai(k), i) {
        var c := YearEnd(Table(), s, i) - 1;
        NameLetters(before, k, c);
        YearChars(Table(), s, i, c);
      }
    }
  }

  /** A month name at the end of a text is converted behind the rest of it exactly when the reading takes no month name
      that stands across its front. */
  lemma MonthAtEndIff(before: string, k: nat)
    requires k < MONTHS
    ensures Dates(before + Thai(k)) == Dates(before) + English(k)
       <==> !MonthPieceAcross(Table(), before + Thai(k), |before|)
  {
    NoYearLostInName(before, k);
    DatesConcatIff(before, Thai(k));
    NameStandsAlone(k);
  }

  lemma SameBefore(a: string, b: string, c: string)
    ensures a + c == b + c <==> a == b
  {
    if a + c == b + c {
      assert a == (a + c)[..|a|] && b == (b + c)[..|b|];
    }
  }

  /** A date between any two texts becomes an English one, the texts converted on their own, exactly when the reading
      takes no month name that stands across its front. */
  lemma DateInTextIff(before: string, k: nat, gap: string, year: string, after: string)
    requires k < MONTHS && IsYear(gap, year)
    ensures Dates(before + Thai(k) + (gap + (year + after)))
         == Dates(before) + English(k) + (" " + Itoa(YearOf(year) - 543) + Dates(after))
       <==> !MonthPieceAcross(Table(), before + Thai(k), |before|)
  {
    Ends(Table(), before, k);
    YearIsShifted(before + Thai(k), gap, year, after);
    MonthAtEndIff(before, k);
    SameBefore(Dates(before + Thai(k)), Dates(before) + English(k), " " + Itoa(YearOf(year) - 543) + Dates(after));
  }

  lemma HitsAgree(f: Reader, g: Reader, n: nat)
    requires Agrees(f, 0, g, n) && Hits(f, 0, n)
    ensures Hits(g, 0, n)
  {
    WalkAlong(f, n, 0, g, n, 0);
  }

  lemma HitsInFront(tb: seq<Month>, s: string, a: string, b: string, n: nat)
    requires Good(tb) && s == a + b && n <= |a| && Hits(At(tb, s), 0, n)
    ensures Hits(At(tb, a), 0, n)
  {
    FrontAgrees(tb, s, a, b, n);
    HitsAgree(At(tb, s), At(tb, a), n);
  }

  lemma LetterBetween(before: string, x: string, after: string)
    requires x != ""
    ensures (before + x + after)[|before|] == x[0] && (before + x + after)[|before|..] == x + after
  {}

  // What stands across the front of the name may do so only because of what follows it.
  lemma FrontSeenFrom(tb: seq<Month>, before: string, k: nat, after: string)
    requires Good(tb) && k < |tb| && !MonthPieceAcross(tb, before + tb[k].thai + after, |before|)
    ensures Hits(At(tb, before + tb[k].thai + after), 0, |before|) && Hits(At(tb, before + tb[k].thai), 0, |before|)
  {
    var a := before + tb[k].thai;
    assert GoodMonth(tb[k]);
    LetterBetween(before, tb[k].thai, after);
    LetterIsHit(tb, a + after, |before|);
    HitsInFront(tb, a + after, a, after, |before|);
  }

  lemma LetterIsHit(tb: seq<Month>, s: string, e: nat)
    requires e < |s| && IsMonthChar(s[e]) && !MonthPieceAcross(tb, s, e)
    ensures Hits(At(tb, s), 0, e)
  {
    if !Hits(At(tb, s), 0, e) {
      var i := MissedBy(tb, s, e);
      if !At(tb, s)(i).0.Name? {
        YearChars(tb, s, i, e);
      }
    }
  }

  lemma HitIsNotAcross(tb: seq<Month>, s: string, e: nat)
    requires Hits(At(tb, s), 0, e)
    ensures !MonthPieceAcross(tb, s, e)
  {
    if MonthPieceAcross(tb, s, e) {
      var i: nat :| Hits(At(tb, s), 0, i) && i < e < i + At(tb, s)(i).1 && At(tb, s)(i).0.Name?;
      HitsLater(At(tb, s), 0, i);
      NotBoth(At(tb, s), 0, i, e);
    }
  }

  lemma NameReadAt(tb: seq<Month>, s: string, i: nat, k: nat, rest: string)
    requires Good(tb) && k < |tb| && i < |s| && s[i..] == tb[k].thai + rest
    ensures At(tb, s)(i) == (Name(tb[k]), |tb[k].thai|) && 0 < |tb[k].thai|
  {
    assert GoodMonth(tb[k]);
    assert s[i] == s[i..][0] == tb[k].thai[0];
    NoYearAtLetter(tb, s, i);
    OnlyThisMonth(tb, k, rest);
    AtName(tb, s, i, k);
  }

  // A name read from its front on is read to its end.
  lemma NameIsRead(tb: seq<Month>, s: string, i: nat, k: nat, rest: string)
    requires Good(tb) && k < |tb| && i < |s| && s[i..] == tb[k].thai + rest && Hits(At(tb, s), 0, i)
    ensures Hits(At(tb, s), 0, i + |tb[k].thai|)
  {
    NameReadAt(tb, s, i, k, rest);
    HitsThrough(At(tb, s), 0, i, Name(tb[k]), i + |tb[k].thai|);
  }

  lemma {:induction false} HitsThrough(at: Reader, i: nat, j: nat, p: Piece, e: nat)
    requires Hits(at, i, j) && j < e && at(j) == (p, e - j)
    ensures Hits(at, i, e)
    decreases j - i
  {
    if i != j {
      HitsLater(at, i + at(i).1, j);
      HitsThrough(at, i + at(i).1, j, p, e);
    }
  }

  lemma NameAcrossSpoilsMonth(before: string, k: nat, after: string)
    requires k < MONTHS && MonthPieceAcross(Table(), before + Thai(k) + after, |before|)
    ensures Dates(before + Thai(k) + after) != Dates(before) + English(k) + Dates(after)
  {
    Reassociate(before, Thai(k), after);
    Reassociate(Dates(before), English(k), Dates(after));
    NameAcrossSpoilsFront(before + Thai(k) + after, before, Thai(k) + after, English(k) + Dates(after));
  }

  // If the reading hits the front of the name, the name is converted behind the text before it.
  lemma NameConvertsBehind(before: string, k: nat, after: string)
    requires k < MONTHS && !MonthPieceAcross(Table(), before + Thai(k) + after, |before|)
    ensures Dates(before + Thai(k)) == Dates(before) + English(k)
  {
    TableIsGood();
    FrontSeenFrom(Table(), before, k, after);
    HitIsNotAcross(Table(), before + Thai(k), |before|);
    MonthAtEndIff(before, k);
  }

  lemma EndNotAcross(tb: seq<Month>, s: string, i: nat, k: nat, rest: string)
    requires Good(tb) && k < |tb| && i < |s| && s[i..] == tb[k].thai + rest && Hits(At(tb, s), 0, i)
    ensures !MonthPieceAcross(tb, s, i + |tb[k].thai|)
  {
    NameIsRead(tb, s, i, k, rest);
    HitIsNotAcross(tb, s, i + |tb[k].thai|);
  }

  // And no name is read across its end.
  lemma NothingAcrossEnd(before: string, k: nat, after: string)
    requires k < MONTHS && !MonthPieceAcross(Table(), before + Thai(k) + after, |before|)
    ensures !MonthPieceAcross(Table(), before + Thai(k) + after, |before + Thai(k)|)
  {
    TableIsGood();
    ThaiIsPure(k);
    FrontSeenFrom(Table(), before, k, after);
    LetterBetween(before, Thai(k), after);
    EndNotAcross(Table(), before + Thai(k) + after, |before|, k, after);
  }

  /** A month name between any two texts becomes its English name, the texts converted on their own, exactly when the
      reading takes no month name that stands across its front and every year of the whole that ends behind it is a year
      of what follows by itself. */
  lemma MonthInTextIff(before: string, k: nat, after: string)
    requires k < MONTHS
    ensures Dates(before + Thai(k) + after) == Dates(before) + English(k) + Dates(after)
       <==> && !MonthPieceAcross(Table(), before + Thai(k) + after, |before|)
            && !YearLost(Table(), before + Thai(k), after)
  {
    if MonthPieceAcross(Table(), before + Thai(k) + after, |before|) {
      NameAcrossSpoilsMonth(before, k, after);
    } else {
      NameConvertsBehind(before, k, after);
      NothingAcrossEnd(before, k, after);
      DatesConcatIff(before + Thai(k), after);
    }
  }
}
