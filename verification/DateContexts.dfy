/** Dates in context: the conversion of a text in parts, and of a date or a month name between any two texts. */
module DateContexts {
  import opened Options
  import opened Text
  import opened D = Dates
  import opened DatePieces

  // ----- Text in parts -----

  // A month name stands across position e.
  ghost predicate NameAcross(tb: seq<Month>, s: string, e: nat) {
    exists p, n, k :: 0 <= p < e < n <= |s| && 0 <= k < |tb| && s[p..n] == tb[k].thai
  }

  // A gap and year right after a month name stand across it.
  ghost predicate YearAcross(tb: seq<Month>, s: string, e: nat) {
    exists i: nat :: i < e && YearAt(tb, s, i) && e < YearEnd(tb, s, i)
  }

  lemma SuffixIs(s: string, i: nat, x: string)
    requires i <= |s|
    ensures HasSuffix(s[..i], x) <==> |x| <= i && s[i - |x|..i] == x
  {
    if |x| <= i {
      assert s[..i][i - |x|..] == s[i - |x|..i];
    }
  }

  lemma SliceLater(a: string, b: string, i: nat, n: nat)
    requires i <= n <= |b|
    ensures (a + b)[|a| + i..|a| + n] == b[i..n]
  {}

  lemma EndsLater(tb: seq<Month>, a: string, b: string, i: nat)
    requires Good(tb) && i <= |b| && EndsInMonth(tb, b[..i])
    ensures EndsInMonth(tb, (a + b)[..|a| + i])
  {
    var s := a + b;
    var from, k := NameBefore(tb, b, i);
    SliceLater(a, b, from, i);
    SuffixIs(s, |a| + i, tb[k].thai);
    EndsInMonthIff(tb, s[..|a| + i]);
  }

  lemma EndsEarlier(tb: seq<Month>, a: string, b: string, i: nat)
    requires Good(tb) && 0 < i <= |b| && EndsInMonth(tb, (a + b)[..|a| + i]) && !NameAcross(tb, a + b, |a|)
    ensures EndsInMonth(tb, b[..i])
  {
    var s := a + b;
    var from, k := NameBefore(tb, s, |a| + i);
    assert from >= |a|;
    SliceLater(a, b, from - |a|, i);
    SuffixIs(b, i, tb[k].thai);
    EndsInMonthIff(tb, b[..i]);
  }

  lemma YearLater(tb: seq<Month>, a: string, b: string, i: nat)
    requires Good(tb) && i <= |b| && !NameAcross(tb, a + b, |a|) && !YearAt(tb, a + b, |a|)
    ensures YearAt(tb, a + b, |a| + i) <==> YearAt(tb, b, i)
  {
    var s := a + b;
    DropInto(a, b, |a| + i);
    if YearAt(tb, b, i) {
      EndsLater(tb, a, b, i);
    }
    if YearAt(tb, s, |a| + i) {
      assert i > 0;
      EndsEarlier(tb, a, b, i);
    }
  }

  // The reader f, moved by `shift`, reads what g reads.
  ghost predicate ReadsAlike(f: Reader, shift: nat, g: Reader, n: nat, i: nat) {
    i < n && 0 < g(i).1 <= n - i && f(shift + i) == g(i)
  }

  lemma {:induction false} WalkTogether(f: Reader, m: nat, shift: nat, g: Reader, n: nat, i: nat)
    requires i <= n && shift + n <= m && forall j: nat :: j < n ==> ReadsAlike(f, shift, g, n, j)
    ensures Walk(f, m, shift + i) == Walk(g, n, i) + Walk(f, m, shift + n)
    decreases n - i
  {
    if i < n {
      assert ReadsAlike(f, shift, g, n, i);
      var (p, w) := g(i);
      WalkTogether(f, m, shift, g, n, i + w);
      Reassociate([p], Walk(g, n, i + w), Walk(f, m, shift + n));
      assert Walk(f, m, shift + i) == [p] + Walk(f, m, shift + i + w);
    } else {
      NothingBefore(Walk(g, n, i), Walk(f, m, shift + n));
    }
  }

  lemma WalkSame(f: Reader, m: nat, shift: nat, g: Reader, n: nat)
    requires m == shift + n && forall j: nat :: j < n ==> ReadsAlike(f, shift, g, n, j)
    ensures Walk(f, m, shift) == Walk(g, n, 0)
  {
    WalkTogether(f, m, shift, g, n, 0);
    assert Walk(f, m, m) == [];
  }

  lemma SamePiece(tb: seq<Month>, x: bool, y: bool, t: string)
    requires t != "" && (x != y ==> GapBefore(t).None?)
    ensures PieceOf(tb, x, t) == PieceOf(tb, y, t)
  {}

  lemma AtIs(tb: seq<Month>, s: string, i: nat, after: bool, t: string)
    requires i < |s| && s[i..] == t && (after != EndsInMonth(tb, s[..i]) ==> GapBefore(t).None?)
    ensures At(tb, s)(i) == PieceOf(tb, after, t)
  {
    SamePiece(tb, after, EndsInMonth(tb, s[..i]), t);
  }

  lemma AlikeIs(f: Reader, shift: nat, g: Reader, n: nat, i: nat, r: (Piece, nat))
    requires i < n && f(shift + i) == r && g(i) == r && 0 < r.1 <= n - i
    ensures ReadsAlike(f, shift, g, n, i)
  {}

  lemma AtSame(tb: seq<Month>, s: string, i: nat, t: string, j: nat)
    requires i < |s| && j < |t| && s[i..] == t[j..] && (YearAt(tb, s, i) <==> YearAt(tb, t, j))
    ensures At(tb, s)(i) == At(tb, t)(j) && 0 < At(tb, t)(j).1 <= |t| - j
  {
    var after := EndsInMonth(tb, t[..j]);
    AtIs(tb, s, i, after, t[j..]);
    AtIs(tb, t, j, after, t[j..]);
  }

  lemma AtLater(tb: seq<Month>, a: string, b: string, i: nat)
    requires Good(tb) && i < |b| && !NameAcross(tb, a + b, |a|) && !YearAt(tb, a + b, |a|)
    ensures ReadsAlike(At(tb, a + b), |a|, At(tb, b), |b|, i)
  {
    YearLater(tb, a, b, i);
    DropInto(a, b, |a| + i);
    AtSame(tb, a + b, |a| + i, b, i);
    AlikeIs(At(tb, a + b), |a|, At(tb, b), |b|, i, At(tb, b)(i));
  }

  lemma PiecesLater(tb: seq<Month>, a: string, b: string)
    requires Good(tb) && !NameAcross(tb, a + b, |a|) && !YearAt(tb, a + b, |a|)
    ensures Walk(At(tb, a + b), |a + b|, |a|) == Pieces(tb, b)
  {
    forall i: nat | i < |b|
      ensures ReadsAlike(At(tb, a + b), |a|, At(tb, b), |b|, i)
    {
      AtLater(tb, a, b, i);
    }
    WalkSame(At(tb, a + b), |a + b|, |a|, At(tb, b), |b|);
  }

  lemma YearEarlier(tb: seq<Month>, a: string, b: string, i: nat)
    requires i < |a| && !YearAcross(tb, a + b, |a|)
    ensures YearAt(tb, a + b, i) <==> YearAt(tb, a, i)
    ensures YearAt(tb, a, i) ==> GapBefore((a + b)[i..]) == GapBefore(a[i..])
  {
    var s := a + b;
    assert s[..i] == a[..i];
    DropGlue(a, b, i);
    if YearAt(tb, s, i) {
      GapWithin(a[i..], b);
    }
    if YearAt(tb, a, i) {
      GapBeforeMore(a[i..], b);
    }
  }

  lemma GapBeforeMore(a: string, b: string)
    requires GapBefore(a).Some?
    ensures GapBefore(a + b) == GapBefore(a)
  {
    var w := GapBefore(a).value;
    assert (a + b)[w..] == a[w..] + b;
    GapIs(a + b, w);
  }

  lemma GapWithin(a: string, b: string)
    requires GapBefore(a + b).Some? && GapBefore(a + b).value + 4 <= |a|
    ensures GapBefore(a) == GapBefore(a + b)
  {
    var w := GapBefore(a + b).value;
    assert (a + b)[w..] == a[w..] + b;
    assert forall i :: 0 <= i < |a| ==> (a + b)[i] == a[i];
    GapIs(a, w);
  }

  lemma YearPieceMore(a: string, b: string)
    requires GapBefore(a).Some? && GapBefore(a + b) == GapBefore(a)
    ensures YearPiece(a + b) == YearPiece(a)
  {
    var w := GapBefore(a).value;
    assert (a + b)[w..] == a[w..] + b && (a + b)[..w] == a[..w];
    assert (a[w..] + b)[..4] == a[w..][..4];
  }

  lemma MonthEarlier(tb: seq<Month>, a: string, b: string, i: nat)
    requires i < |a| && !NameAcross(tb, a + b, |a|)
    ensures MonthHere(tb, (a + b)[i..]) == MonthHere(tb, a[i..])
  {
    var s := a + b;
    forall k | 0 <= k < |tb|
      ensures HasPrefix(s[i..], tb[k].thai) <==> HasPrefix(a[i..], tb[k].thai)
    {
      PrefixEarlier(tb, a, b, i, k);
    }
    MonthHereAgrees(tb, s[i..], a[i..]);
  }

  lemma PrefixEarlier(tb: seq<Month>, a: string, b: string, i: nat, k: nat)
    requires i < |a| && k < |tb| && !NameAcross(tb, a + b, |a|)
    ensures HasPrefix((a + b)[i..], tb[k].thai) <==> HasPrefix(a[i..], tb[k].thai)
  {
    var s, x := a + b, tb[k].thai;
    if i + |x| <= |a| {
      assert s[i..][..|x|] == a[i..][..|x|];
    } else if i + |x| <= |s| {
      var n := i + |x|;
      assert s[i..n] != x;
      assert s[i..][..|x|] == s[i..n];
    }
  }

  lemma AtEarlier(tb: seq<Month>, a: string, b: string, i: nat)
    requires Good(tb) && i < |a| && !NameAcross(tb, a + b, |a|) && !YearAcross(tb, a + b, |a|)
    ensures ReadsAlike(At(tb, a + b), 0, At(tb, a), |a|, i)
  {
    YearEarlier(tb, a, b, i);
    if YearAt(tb, a, i) {
      DropGlue(a, b, i);
      YearPieceMore(a[i..], b);
      AtYear(tb, a, i);
      AtYear(tb, a + b, i);
    } else {
      MonthEarlier(tb, a, b, i);
      var k := MonthHere(tb, a[i..]);
      if k.Some? {
        AtName(tb, a, i, k.value);
        AtName(tb, a + b, i, k.value);
      } else {
        AtLetter(tb, a, i);
        AtLetter(tb, a + b, i);
      }
    }
  }

  lemma DropGlue(a: string, b: string, i: nat)
    requires i <= |a|
    ensures (a + b)[i..] == a[i..] + b
  {}

  // A cut that no month name and no year after one stands across.
  ghost predicate Cut(tb: seq<Month>, s: string, e: nat) {
    !NameAcross(tb, s, e) && !YearAcross(tb, s, e)
  }

  lemma PiecesCut(tb: seq<Month>, a: string, b: string)
    requires Good(tb) && Cut(tb, a + b, |a|)
    ensures Pieces(tb, a + b) == Pieces(tb, a) + Walk(At(tb, a + b), |a + b|, |a|)
  {
    forall i: nat | i < |a|
      ensures ReadsAlike(At(tb, a + b), 0, At(tb, a), |a|, i)
    {
      AtEarlier(tb, a, b, i);
    }
    WalkTogether(At(tb, a + b), |a + b|, 0, At(tb, a), |a|, 0);
  }

  lemma {:induction false} ImagesConcat(a: seq<Piece>, b: seq<Piece>)
    ensures Images(a + b) == Images(a) + Images(b)
  {
    if a == [] {
      assert a + b == b;
    } else {
      ImagesConcat(a[1..], b);
      assert a == [a[0]] + a[1..];
      Reassociate([a[0]], a[1..], b);
      ConsPiece(a[0], a[1..] + b);
      Reassociate(a[0].Image(), Images(a[1..]), Images(b));
    }
  }

  // ----- Years -----

  lemma LetterBefore(tb: seq<Month>, s: string, i: nat)
    requires Good(tb) && YearAt(tb, s, i)
    ensures 0 < i && IsMonthChar(s[i - 1])
  {
    var from, k := NameBefore(tb, s, i);
    assert GoodMonth(tb[k]);
    assert s[i - 1] == s[from..i][i - 1 - from];
  }

  lemma NotInName(tb: seq<Month>, s: string, p: nat, c: nat, n: nat, k: nat)
    requires Good(tb) && p <= c < n <= |s| && k < |tb| && !IsMonthChar(s[c])
    ensures s[p..n] != tb[k].thai
  {
    assert GoodMonth(tb[k]);
    assert s[p..n][c - p] == s[c];
  }

  // No month name stands across either side of another character.
  lemma NoNameOver(tb: seq<Month>, s: string, c: nat, e: nat)
    requires Good(tb) && c < |s| && !IsMonthChar(s[c]) && c <= e <= c + 1
    ensures !NameAcross(tb, s, e)
  {
    forall p, n, k | 0 <= p < e < n <= |s| && 0 <= k < |tb|
      ensures s[p..n] != tb[k].thai
    {
      NotInName(tb, s, p, c, n, k);
    }
  }

  lemma YearsApart(tb: seq<Month>, s: string, j: nat, i: nat)
    requires Good(tb) && j < i && YearAt(tb, s, j) && YearAt(tb, s, i)
    ensures YearEnd(tb, s, j) <= i
  {
    LetterBefore(tb, s, i);
    if YearEnd(tb, s, j) > i {
      YearChars(tb, s, j, i - 1);
    }
  }

  // No month name and no other year stands across either end of a year right after a month name.
  lemma YearIsCut(tb: seq<Month>, s: string, i: nat)
    requires Good(tb) && YearAt(tb, s, i)
    ensures Cut(tb, s, i)
  {
    YearChars(tb, s, i, i);
    NoNameOver(tb, s, i, i);
    forall j: nat | j < i && YearAt(tb, s, j)
      ensures YearEnd(tb, s, j) <= i
    {
      YearsApart(tb, s, j, i);
    }
  }

  lemma YearEndIsCut(tb: seq<Month>, s: string, i: nat)
    requires Good(tb) && YearAt(tb, s, i)
    ensures Cut(tb, s, YearEnd(tb, s, i)) && !YearAt(tb, s, YearEnd(tb, s, i))
  {
    var e := YearEnd(tb, s, i);
    YearChars(tb, s, i, e - 1);
    NoNameOver(tb, s, e - 1, e);
    forall j: nat | j < e && YearAt(tb, s, j)
      ensures YearEnd(tb, s, j) <= e
    {
      if j < i {
        YearsApart(tb, s, j, i);
      } else if j > i {
        YearsApart(tb, s, i, j);
      }
    }
    if YearAt(tb, s, e) {
      LetterBefore(tb, s, e);
    }
  }

  lemma WalkStep(at: Reader, n: nat, i: nat, p: Piece, next: nat)
    requires i < n && i < next && at(i) == (p, next - i)
    ensures Walk(at, n, i) == [p] + Walk(at, n, next)
  {}

  lemma YearFirst(tb: seq<Month>, s: string, i: nat)
    requires YearAt(tb, s, i)
    ensures Walk(At(tb, s), |s|, i) == [YearPiece(s[i..])] + Walk(At(tb, s), |s|, YearEnd(tb, s, i))
  {
    var p, next := YearPiece(s[i..]), YearEnd(tb, s, i);
    assert At(tb, s)(i) == (p, next - i) by {
      AtYear(tb, s, i);
    }
    WalkStep(At(tb, s), |s|, i, p, next);
  }

  lemma PiecesAroundYear(tb: seq<Month>, s: string, i: nat)
    requires Good(tb) && YearAt(tb, s, i)
    ensures var e := YearEnd(tb, s, i);
      Pieces(tb, s) == Pieces(tb, s[..i]) + ([YearPiece(s[i..])] + Pieces(tb, s[e..]))
  {
    var e := YearEnd(tb, s, i);
    assert s[..i] + s[i..] == s && s[..e] + s[e..] == s;
    YearIsCut(tb, s, i);
    YearEndIsCut(tb, s, i);
    PiecesCut(tb, s[..i], s[i..]);
    PiecesLater(tb, s[..e], s[e..]);
    YearFirst(tb, s, i);
  }

  lemma DatesAroundYear(s: string, i: nat)
    requires YearAt(Table(), s, i)
    ensures Dates(s) == Dates(s[..i]) + (YearPiece(s[i..]).Image() + Dates(s[YearEnd(Table(), s, i)..]))
  {
    var e := YearEnd(Table(), s, i);
    TableIsGood();
    DatesByPiece(s);
    DatesByPiece(s[..i]);
    DatesByPiece(s[e..]);
    PiecesAroundYear(Table(), s, i);
    ImagesConcat(Pieces(Table(), s[..i]), [YearPiece(s[i..])] + Pieces(Table(), s[e..]));
    ConsPiece(YearPiece(s[i..]), Pieces(Table(), s[e..]));
  }

  predicate IsYear(gap: string, year: string) {
    |year| == 4 && IsBuddhist(year) && forall i :: 0 <= i < |gap| ==> IsGap(gap[i])
  }

  lemma YearPieceIs(gap: string, year: string, after: string)
    requires IsYear(gap, year)
    ensures GapBefore(gap + (year + after)) == Some(|gap|) && YearPiece(gap + (year + after)) == Year(gap, year)
  {
    var t := gap + (year + after);
    assert t[|gap|..] == year + after && t[..|gap|] == gap && (year + after)[..4] == year;
    GapIs(t, |gap|);
  }

  lemma YearPlace(tb: seq<Month>, before: string, gap: string, year: string, after: string)
    requires EndsInMonth(tb, before) && IsYear(gap, year)
    ensures var s, i := before + (gap + (year + after)), |before|;
      YearAt(tb, s, i) && s[..i] == before && s[i..] == gap + (year + after) && s[YearEnd(tb, s, i)..] == after
  {
    var s, i := before + (gap + (year + after)), |before|;
    assert s[..i] == before && s[i..] == gap + (year + after);
    YearPieceIs(gap, year, after);
    assert s[i + |gap| + 4..] == after;
  }

  /** A gap and a Buddhist-era year right after a month name become a blank and the year less 543, whatever stands
      around them: the text before and the text after convert as if each stood alone. */
  lemma YearIsShifted(before: string, gap: string, year: string, after: string)
    requires EndsInMonth(Table(), before) && IsYear(gap, year)
    ensures Dates(before + (gap + (year + after)))
         == Dates(before) + (" " + Itoa(YearOf(year) - 543) + Dates(after))
  {
    var s, i := before + (gap + (year + after)), |before|;
    YearPlace(Table(), before, gap, year, after);
    DatesAroundYear(s, i);
    YearPieceIs(gap, year, after);
  }

  // ----- Month names -----

  lemma NameStandsAlone(k: nat)
    requires k < MONTHS
    ensures Dates(Thai(k)) == English(k)
  {
    TableIsGood();
    MonthByItself(Table(), k);
  }

  lemma Ends(tb: seq<Month>, before: string, k: nat)
    requires k < |tb|
    ensures EndsInMonth(tb, before + tb[k].thai)
  {
    assert (before + tb[k].thai)[|before|..] == tb[k].thai;
    EndsInMonthIff(tb, before + tb[k].thai);
  }

  lemma ShortTextKept(s: string)
    requires |s| < 4
    ensures Months(Table(), s) == s
  {
    forall i | 0 <= i <= |s|
      ensures MonthHere(Table(), s[i..]).None?
    {
      if MonthHere(Table(), s[i..]).Some? {
        ThaiIsPure(MonthHere(Table(), s[i..]).value);
      }
    }
    NoMonthUnchanged(Table(), s);
  }

  lemma PureRewrite(tb: seq<Month>, s: string)
    requires Good(tb) && Pure(s)
    ensures Rewrite(tb, s) == Months(tb, s)
  {
    if HasThai(s) {
      assert s + "" == s;
      NoYearNoDate(tb, s, "");
    } else {
      PlainUnchanged(tb, s);
    }
  }

  lemma NameThenLetters(k: nat, rest: string)
    requires k < MONTHS && Pure(rest) && |rest| < 4
    ensures Dates(Thai(k) + rest) == English(k) + rest
  {
    TableIsGood();
    ThaiIsPure(k);
    PureRewrite(Table(), Thai(k) + rest);
    MonthsOfName(Table(), k, rest);
    ShortTextKept(rest);
  }

  lemma LettersKept(s: string)
    requires Pure(s) && |s| < 4
    ensures Dates(s) == s
  {
    TableIsGood();
    PureRewrite(Table(), s);
    ShortTextKept(s);
  }

  lemma ShiftIs2026()
    ensures IsBuddhist("2569") && Itoa(YearOf("2569") - 543) == "2026"
  {
    ItoaSnoc(2026);
    ItoaSnoc(202);
    ItoaSnoc(20);
  }

  lemma FebruaryAcrossMay()
    ensures Dates("ก." + Thai(9)) == "Febค."
  {
    assert Thai(3) + "ค." == "ก." + Thai(9);
    NameThenLetters(3, "ค.");
  }

  lemma DateAtEnd(before: string, k: nat, year: string)
    requires k < MONTHS && IsYear(" ", year)
    ensures Dates(before + Thai(k) + (" " + (year + ""))) == Dates(before + Thai(k)) + (" " + Itoa(YearOf(year) - 543))
  {
    Ends(Table(), before, k);
    YearIsShifted(before + Thai(k), " ", year, "");
    LettersKept("");
    assert " " + Itoa(YearOf(year) - 543) + "" == " " + Itoa(YearOf(year) - 543);
  }

  lemma Spoiled(before: string, year: string)
    requires before == "ก." && year == "2569"
    ensures Dates(before + Thai(9) + (" " + (year + ""))) == "Febค." + (" " + "2026")
  {
    ShiftIs2026();
    DateAtEnd(before, 9, year);
    FebruaryAcrossMay();
  }

  lemma SpoiledText(s: string) returns (before: string, year: string)
    requires s == "ก.พ.ค. 2569"
    ensures before == "ก." && year == "2569" && s == before + Thai(9) + (" " + (year + ""))
  {
    before, year := s[..2], s[7..];
  }

  lemma SpoiledResult()
    ensures "Febค." + (" " + "2026") == "Febค. 2026"
  {}

  /** A date need not be converted as one: the first pass dates the May that ends this text, the second takes the
      February that begins earlier. */
  lemma NameAcrossSpoilsDate(s: string)
    requires s == "ก.พ.ค. 2569"
    ensures Dates(s) == "Febค. 2026"
  {
    var before, year := SpoiledText(s);
    Spoiled(before, year);
    SpoiledResult();
  }
}
