/** Dates as one reading of the input: its two passes keep every character but month names, and the gap and year right
    after one, wherever they stand. */
module DatePieces {
  import opened Options
  import opened Text
  import opened D = Dates

  // ----- The input in pieces -----

  predicate EndsInMonth(tb: seq<Month>, t: string) {
    tb != [] && (HasSuffix(t, tb[0].thai) || EndsInMonth(tb[1..], t))
  }

  lemma {:induction false} EndsInMonthIff(tb: seq<Month>, t: string)
    ensures EndsInMonth(tb, t) <==> exists k :: 0 <= k < |tb| && HasSuffix(t, tb[k].thai)
  {
    if tb != [] {
      EndsInMonthIff(tb[1..], t);
      assert forall k :: 1 <= k < |tb| ==> tb[k] == tb[1..][k - 1];
      assert forall k :: 0 <= k < |tb[1..]| ==> tb[1..][k] == tb[k + 1];
    }
  }

  // A gap and a Buddhist-era year stand at position i, right after a month name.
  predicate YearAt(tb: seq<Month>, s: string, i: nat) {
    i <= |s| && EndsInMonth(tb, s[..i]) && GapBefore(s[i..]).Some?
  }

  // Where the year at position i ends.
  function YearEnd(tb: seq<Month>, s: string, i: nat): (e: nat)
    requires YearAt(tb, s, i)
    ensures i + 4 <= e <= |s|
  {
    i + GapBefore(s[i..]).value + 4
  }

  function Shifted(year: string): string {
    if IsBuddhist(year) then Itoa(YearOf(year) - 543) else year
  }

  datatype Piece = Kept(c: char) | Name(month: Month) | Year(gap: string, year: string) {
    function Spelled(): string {
      match this
      case Kept(c) => [c]
      case Name(m) => m.thai
      case Year(gap, year) => gap + year
    }

    function Image(): string {
      match this
      case Kept(c) => [c]
      case Name(m) => m.english
      case Year(gap, year) => " " + Shifted(year)
    }
  }

  // The gap and year that text begins with.
  function YearPiece(t: string): (p: Piece)
    requires GapBefore(t).Some?
  {
    Year(t[..GapBefore(t).value], t[GapBefore(t).value..][..4])
  }

  lemma TakeTwice(t: string, w: nat, n: nat)
    requires w + n <= |t|
    ensures t[..w] + t[w..][..n] == t[..w + n]
  {}

  lemma YearPieceSpells(t: string)
    requires GapBefore(t).Some?
    ensures GapBefore(t).value + 4 <= |t| && YearPiece(t).Spelled() == t[..GapBefore(t).value + 4]
  {
    TakeTwice(t, GapBefore(t).value, 4);
  }

  // The piece text begins with, told whether a month name ends right before it, and its length.
  function PieceOf(tb: seq<Month>, after: bool, t: string): (r: (Piece, nat))
    requires t != ""
    ensures 0 < r.1 <= |t|
  {
    if after && GapBefore(t).Some? then
      YearPieceSpells(t);
      (YearPiece(t), GapBefore(t).value + 4)
    else
      var k := MonthHere(tb, t);
      if k.None? || tb[k.value].thai == "" then (Kept(t[0]), 1) else (Name(tb[k.value]), |tb[k.value].thai|)
  }

  lemma PieceOfSpells(tb: seq<Month>, after: bool, t: string)
    requires t != ""
    ensures var (p, w) := PieceOf(tb, after, t); p.Spelled() == t[..w]
  {
    if after && GapBefore(t).Some? {
      YearPieceSpells(t);
    }
  }

  type Reader = nat -> (Piece, nat)

  // What stands at each position.
  function At(tb: seq<Month>, s: string): Reader {
    (i: nat) => if i < |s| then PieceOf(tb, EndsInMonth(tb, s[..i]), s[i..]) else (Kept(' '), 1)
  }

  // The pieces read one after another from position i to position n.
  function Walk(at: Reader, n: nat, i: nat): seq<Piece>
    decreases n - i
  {
    if i >= n || at(i).1 == 0 then [] else [at(i).0] + Walk(at, n, i + at(i).1)
  }

  // Each gap with a year right after a month name, else each month name from left to right, else one character.
  function Pieces(tb: seq<Month>, s: string): seq<Piece> {
    Walk(At(tb, s), |s|, 0)
  }

  function Spell(ps: seq<Piece>): string {
    if ps == [] then "" else ps[0].Spelled() + Spell(ps[1..])
  }

  function Images(ps: seq<Piece>): string {
    if ps == [] then "" else ps[0].Image() + Images(ps[1..])
  }

  lemma ConsPiece(p: Piece, ps: seq<Piece>)
    ensures Images([p] + ps) == p.Image() + Images(ps) && Spell([p] + ps) == p.Spelled() + Spell(ps)
  {
    assert ([p] + ps)[1..] == ps;
  }

  // The piece at position i stands for the text up to the next piece.
  ghost predicate SpellsAt(at: Reader, s: string, i: nat) {
    i < |s| && 0 < at(i).1 <= |s| - i && s[i..] == at(i).0.Spelled() + s[i + at(i).1..]
  }

  lemma {:induction false} WalkSpells(at: Reader, s: string, i: nat)
    requires i <= |s| && forall j: nat :: j < |s| ==> SpellsAt(at, s, j)
    ensures Spell(Walk(at, |s|, i)) == s[i..]
    decreases |s| - i
  {
    if i < |s| {
      assert SpellsAt(at, s, i);
      var (p, w) := at(i);
      WalkSpells(at, s, i + w);
      ConsPiece(p, Walk(at, |s|, i + w));
    }
  }

  lemma TakeDrop(s: string, i: nat, w: nat)
    requires i + w <= |s|
    ensures s[i..] == s[i..][..w] + s[i + w..]
  {}

  lemma AtSpells(tb: seq<Month>, s: string, i: nat)
    requires i < |s|
    ensures SpellsAt(At(tb, s), s, i)
  {
    PieceOfSpells(tb, EndsInMonth(tb, s[..i]), s[i..]);
    TakeDrop(s, i, At(tb, s)(i).1);
  }

  lemma PiecesSpell(tb: seq<Month>, s: string)
    ensures Spell(Pieces(tb, s)) == s
  {
    forall i: nat | i < |s|
      ensures SpellsAt(At(tb, s), s, i)
    {
      AtSpells(tb, s, i);
    }
    WalkSpells(At(tb, s), s, 0);
    assert s[0..] == s;
  }

  // ----- The first pass, by positions of the input -----

  ghost function YearsFrom(tb: seq<Month>, s: string, i: nat): string
    requires i <= |s|
    decreases |s| - i
  {
    if i == |s| then ""
    else if YearAt(tb, s, i) then YearPiece(s[i..]).Image() + YearsFrom(tb, s, YearEnd(tb, s, i))
    else [s[i]] + YearsFrom(tb, s, i + 1)
  }

  lemma YearChars(tb: seq<Month>, s: string, i: nat, j: nat)
    requires YearAt(tb, s, i) && i <= j < YearEnd(tb, s, i)
    ensures !IsMonthChar(s[j]) && !IsThai(s[j]) && (IsGap(s[j]) || IsDigit(s[j]))
  {
    var t, w := s[i..], GapBefore(s[i..]).value;
    var year := t[w..];
    if j < i + w {
      assert s[j] == t[j - i];
    } else {
      assert s[j] == year[j - (i + w)];
    }
  }

  lemma YearImageIs(t: string)
    requires GapBefore(t).Some?
    ensures YearPiece(t).Image() == " " + Itoa(YearOf(t[GapBefore(t).value..]) - 543)
  {
    var year := t[GapBefore(t).value..];
    assert forall n :: 0 <= n < 4 ==> year[..4][n] == year[n];
  }

  // Before a year there is a month name.
  lemma NameBefore(tb: seq<Month>, s: string, i: nat) returns (from: nat, k: nat)
    requires Good(tb) && i <= |s| && EndsInMonth(tb, s[..i])
    ensures from < i && k < |tb| && s[from..i] == tb[k].thai && IsThai(s[from])
  {
    EndsInMonthIff(tb, s[..i]);
    k :| 0 <= k < |tb| && HasSuffix(s[..i], tb[k].thai);
    assert GoodMonth(tb[k]);
    from := i - |tb[k].thai|;
    assert s[..i][from..] == s[from..i] == tb[k].thai;
    assert s[from] == s[from..i][0];
  }

  // No month name that begins before i has a year after it at or past i.
  ghost predicate Clean(tb: seq<Month>, s: string, i: nat) {
    forall p, j, k :: 0 <= p < i <= j <= |s| && 0 <= k < |tb| && s[p..j] == tb[k].thai ==> GapBefore(s[j..]).None?
  }

  lemma NotYearWhenClean(tb: seq<Month>, s: string, i: nat)
    requires Good(tb) && Clean(tb, s, i) && i <= |s|
    ensures !YearAt(tb, s, i)
  {
    if YearAt(tb, s, i) {
      var from, k := NameBefore(tb, s, i);
    }
  }

  lemma NameOfSuffix(s: string, i: nat, n: nat, month: string)
    requires i <= n <= |s| && s[i..n] == month
    ensures HasPrefix(s[i..], month) && s[i..][|month|..] == s[n..]
  {
    assert s[i..][..n - i] == s[i..n] && s[i..][n - i..] == s[n..];
  }

  lemma NotDatedName(tb: seq<Month>, s: string, i: nat, j: nat, k: nat)
    requires i <= j <= |s| && k < |tb| && s[i..j] == tb[k].thai && DatedHere(tb, s[i..]).None?
    ensures GapBefore(s[j..]).None?
  {
    NameOfSuffix(s, i, j, tb[k].thai);
    assert !IsDated(s[i..], tb[k].thai);
  }

  lemma CleanStep(tb: seq<Month>, s: string, i: nat)
    requires Clean(tb, s, i) && i < |s| && DatedHere(tb, s[i..]).None?
    ensures Clean(tb, s, i + 1)
  {
    forall p, j, k | 0 <= p < i + 1 <= j <= |s| && 0 <= k < |tb| && s[p..j] == tb[k].thai
      ensures GapBefore(s[j..]).None?
    {
      if p == i {
        NotDatedName(tb, s, i, j, k);
      }
    }
  }

  lemma NoNameIntoYear(tb: seq<Month>, s: string, i: nat, p: nat, j: nat, k: nat)
    requires Good(tb) && YearAt(tb, s, i) && p < YearEnd(tb, s, i) <= j <= |s| && k < |tb|
    ensures s[p..j] != tb[k].thai
  {
    assert GoodMonth(tb[k]);
    var q := if p < i then i else p;
    YearChars(tb, s, i, q);
    assert s[p..j][q - p] == s[q];
  }

  lemma CleanAfterYear(tb: seq<Month>, s: string, i: nat)
    requires Good(tb) && YearAt(tb, s, i)
    ensures Clean(tb, s, YearEnd(tb, s, i))
  {
    forall p, j, k | 0 <= p < YearEnd(tb, s, i) <= j <= |s| && 0 <= k < |tb|
      ensures s[p..j] != tb[k].thai
    {
      NoNameIntoYear(tb, s, i, p, j, k);
    }
  }

  lemma NoYearAtLetter(tb: seq<Month>, s: string, i: nat)
    requires i < |s| && IsMonthChar(s[i])
    ensures !YearAt(tb, s, i)
  {
    if YearAt(tb, s, i) {
      YearChars(tb, s, i, i);
    }
  }

  lemma YearsStep(tb: seq<Month>, s: string, i: nat)
    requires i < |s| && !YearAt(tb, s, i)
    ensures YearsFrom(tb, s, i) == [s[i]] + YearsFrom(tb, s, i + 1)
  {}

  lemma SliceCons(s: string, i: nat, n: nat)
    requires i < n <= |s|
    ensures s[i..n] == [s[i]] + s[i + 1..n]
  {}

  lemma NothingBefore<T>(a: seq<T>, b: seq<T>)
    requires a == []
    ensures a + b == b
  {}

  // Inside a month name no year begins.
  lemma {:induction false} NoYearInMonth(tb: seq<Month>, s: string, i: nat, n: nat)
    requires i <= n <= |s| && Pure(s[i..n])
    ensures YearsFrom(tb, s, i) == s[i..n] + YearsFrom(tb, s, n)
    decreases n - i
  {
    if i < n {
      SliceCons(s, i, n);
      PureCons([s[i]], s[i + 1..n]);
      NoYearAtLetter(tb, s, i);
      YearsStep(tb, s, i);
      NoYearInMonth(tb, s, i + 1, n);
      Reassociate([s[i]], s[i + 1..n], YearsFrom(tb, s, n));
    } else {
      NothingBefore(s[i..n], YearsFrom(tb, s, n));
    }
  }

  lemma PureCons(c: string, x: string)
    requires |c| == 1 && Pure(c + x)
    ensures IsMonthChar(c[0]) && Pure(x)
  {
    assert (c + x)[0] == c[0] && (c + x)[1..] == x;
    assert forall j :: 0 <= j < |x| ==> x[j] == (c + x)[j + 1];
  }

  // What DatedHere finds at position i, in positions.
  lemma DatedMonth(tb: seq<Month>, s: string, i: nat) returns (n: nat)
    requires Good(tb) && i <= |s| && DatedHere(tb, s[i..]).Some?
    ensures i < n <= |s| && s[i..n] == tb[DatedHere(tb, s[i..]).value].thai && YearAt(tb, s, n)
    ensures Pure(s[i..n])
  {
    var k := DatedHere(tb, s[i..]).value;
    var m := tb[k].thai;
    assert GoodMonth(tb[k]);
    n := i + |m|;
    assert s[i..][..|m|] == s[i..n] && s[i..][|m|..] == s[n..];
    assert s[..n][n - |m|..] == s[i..n];
    assert HasSuffix(s[..n], m);
    EndsInMonthIff(tb, s[..n]);
  }

  lemma DropTwice(s: string, a: nat, b: nat)
    requires a + b <= |s|
    ensures s[a..][b..] == s[a + b..]
  {}

  lemma ConvertedToPiece(t: string, month: string, rest: string)
    requires IsDated(t, month) && rest == t[|month|..]
    ensures Converted(t, month) == month + YearPiece(rest).Image()
  {
    YearImageIs(rest);
  }

  lemma AfterPiece(t: string, month: string, rest: string)
    requires IsDated(t, month) && rest == t[|month|..]
    ensures GapBefore(rest).value + 4 <= |rest| && After(t, month) == rest[GapBefore(rest).value + 4..]
  {
    DropTwice(rest, GapBefore(rest).value, 4);
  }

  lemma DateReadAs(tb: seq<Month>, t: string, month: string, rest: string, after: string)
    requires t != "" && DatedHere(tb, t).Some? && month == tb[DatedHere(tb, t).value].thai && rest == t[|month|..]
    requires GapBefore(rest).Some? && GapBefore(rest).value + 4 <= |rest| && after == rest[GapBefore(rest).value + 4..]
    ensures Years(tb, t) == month + YearPiece(rest).Image() + Years(tb, after)
  {
    ConvertedToPiece(t, month, rest);
    AfterPiece(t, month, rest);
  }

  lemma YearsAtYear(tb: seq<Month>, s: string, i: nat)
    requires YearAt(tb, s, i)
    ensures YearsFrom(tb, s, i) == YearPiece(s[i..]).Image() + YearsFrom(tb, s, YearEnd(tb, s, i))
  {}

  lemma YearDrop(tb: seq<Month>, s: string, n: nat)
    requires YearAt(tb, s, n)
    ensures GapBefore(s[n..]).value + 4 <= |s[n..]|
    ensures s[n..][GapBefore(s[n..]).value + 4..] == s[YearEnd(tb, s, n)..]
  {
    DropTwice(s, n, YearEnd(tb, s, n) - n);
  }

  lemma DateReadAt(tb: seq<Month>, s: string, i: nat, n: nat, month: string)
    requires i < n && YearAt(tb, s, n) && s[i..n] == month
    requires DatedHere(tb, s[i..]).Some? && month == tb[DatedHere(tb, s[i..]).value].thai
    ensures Years(tb, s[i..]) == month + YearPiece(s[n..]).Image() + Years(tb, s[YearEnd(tb, s, n)..])
  {
    NameOfSuffix(s, i, n, month);
    YearDrop(tb, s, n);
    DateReadAs(tb, s[i..], month, s[n..], s[YearEnd(tb, s, n)..]);
  }

  // A month name with its year, as the first pass reads the text and as its positions say.
  lemma DateRead(tb: seq<Month>, s: string, i: nat) returns (month: string, n: nat)
    requires Good(tb) && i < |s| && DatedHere(tb, s[i..]).Some?
    ensures i < n && YearAt(tb, s, n) && s[i..n] == month && Pure(month)
    ensures Years(tb, s[i..]) == month + YearPiece(s[n..]).Image() + Years(tb, s[YearEnd(tb, s, n)..])
  {
    month := tb[DatedHere(tb, s[i..]).value].thai;
    n := DatedMonth(tb, s, i);
    DateReadAt(tb, s, i, n, month);
  }

  lemma DateByPosition(tb: seq<Month>, s: string, i: nat, month: string, n: nat)
    requires i < n && YearAt(tb, s, n) && s[i..n] == month && Pure(month)
    ensures YearsFrom(tb, s, i) == month + YearPiece(s[n..]).Image() + YearsFrom(tb, s, YearEnd(tb, s, n))
  {
    NoYearInMonth(tb, s, i, n);
    YearsAtYear(tb, s, n);
    Reassociate(month, YearPiece(s[n..]).Image(), YearsFrom(tb, s, YearEnd(tb, s, n)));
  }

  // Where no month name reaches back, the first pass reads on as if the text began here.
  lemma {:induction false} YearsByPosition(tb: seq<Month>, s: string, i: nat)
    requires Good(tb) && i <= |s| && Clean(tb, s, i)
    ensures Years(tb, s[i..]) == YearsFrom(tb, s, i)
    decreases |s| - i
  {
    if i < |s| {
      if DatedHere(tb, s[i..]).None? {
        NotYearWhenClean(tb, s, i);
        CleanStep(tb, s, i);
        YearsByPosition(tb, s, i + 1);
        assert s[i..][1..] == s[i + 1..] && s[i..][0] == s[i];
      } else {
        var month, n := DateRead(tb, s, i);
        DateByPosition(tb, s, i, month, n);
        CleanAfterYear(tb, s, n);
        YearsByPosition(tb, s, YearEnd(tb, s, n));
      }
    }
  }

  // ----- The second pass, by positions of the input -----

  lemma YearBegins(tb: seq<Month>, s: string, i: nat)
    requires YearAt(tb, s, i)
    ensures i < |s| && !IsMonthChar(s[i]) && YearsFrom(tb, s, i) != "" && YearsFrom(tb, s, i)[0] == ' '
  {
    YearChars(tb, s, i, i);
  }

  // The first pass neither makes nor breaks a month name.
  lemma {:induction false} SameStart(tb: seq<Month>, s: string, i: nat, x: string)
    requires i <= |s| && Pure(x)
    ensures HasPrefix(YearsFrom(tb, s, i), x) <==> HasPrefix(s[i..], x)
    decreases |x|
  {
    if x != "" && i < |s| {
      assert IsMonthChar(x[0]);
      var t := s[i..];
      assert t[0] == s[i] && t[1..] == s[i + 1..];
      PrefixCons(t, x);
      if YearAt(tb, s, i) {
        YearBegins(tb, s, i);
        PrefixCons(YearsFrom(tb, s, i), x);
      } else {
        YearsStep(tb, s, i);
        PrefixCons(YearsFrom(tb, s, i), x);
        SameStart(tb, s, i + 1, x[1..]);
        assert YearsFrom(tb, s, i)[1..] == YearsFrom(tb, s, i + 1);
      }
    }
  }

  lemma {:induction false} MonthHereAgrees(tb: seq<Month>, a: string, b: string)
    requires forall k :: 0 <= k < |tb| ==> (HasPrefix(a, tb[k].thai) <==> HasPrefix(b, tb[k].thai))
    ensures MonthHere(tb, a) == MonthHere(tb, b)
  {
    if tb != [] {
      assert forall k :: 0 <= k < |tb[1..]| ==> tb[1..][k] == tb[k + 1];
      assert HasPrefix(a, tb[0].thai) <==> HasPrefix(b, tb[0].thai);
      MonthHereAgrees(tb[1..], a, b);
    }
  }

  lemma SameMonth(tb: seq<Month>, s: string, i: nat)
    requires Good(tb) && i <= |s|
    ensures MonthHere(tb, YearsFrom(tb, s, i)) == MonthHere(tb, s[i..])
  {
    forall k | 0 <= k < |tb|
      ensures HasPrefix(YearsFrom(tb, s, i), tb[k].thai) <==> HasPrefix(s[i..], tb[k].thai)
    {
      assert GoodMonth(tb[k]);
      SameStart(tb, s, i, tb[k].thai);
    }
    MonthHereAgrees(tb, YearsFrom(tb, s, i), s[i..]);
  }

  lemma YearPlain(t: string)
    requires GapBefore(t).Some?
    ensures !HasThai(YearPiece(t).Image())
  {
    YearImageIs(t);
    var y := YearOf(t[GapBefore(t).value..]) - 543;
    YearIsPlain(y, "");
    assert " " + Itoa(y) + "" == " " + Itoa(y);
  }

  lemma MonthsOfName(tb: seq<Month>, k: nat, post: string)
    requires Good(tb) && k < |tb|
    ensures tb[k].thai != "" && Months(tb, tb[k].thai + post) == tb[k].english + Months(tb, post)
  {
    assert GoodMonth(tb[k]);
    OnlyThisMonth(tb, k, post);
    assert (tb[k].thai + post)[|tb[k].thai|..] == post;
  }

  lemma NameSpans(tb: seq<Month>, s: string, i: nat, k: nat)
    requires Good(tb) && i < |s| && k < |tb| && HasPrefix(s[i..], tb[k].thai)
    ensures i < i + |tb[k].thai| <= |s| && s[i..i + |tb[k].thai|] == tb[k].thai
  {
    var m := tb[k].thai;
    assert GoodMonth(tb[k]);
    var n := i + |m|;
    assert s[i..][..|m|] == s[i..n] == m;
  }

  // What both passes make of the text from position i on.
  ghost function Output(tb: seq<Month>, s: string, i: nat): string {
    if i <= |s| then Months(tb, YearsFrom(tb, s, i)) else ""
  }

  // At position i that is the image of the piece read there, and what follows it.
  ghost predicate Becomes(at: Reader, n: nat, rest: nat -> string, i: nat) {
    0 < at(i).1 && i + at(i).1 <= n && rest(i) == at(i).0.Image() + rest(i + at(i).1)
  }

  lemma LetterBecomes(tb: seq<Month>, s: string, i: nat)
    requires Good(tb) && i < |s| && !YearAt(tb, s, i) && MonthHere(tb, s[i..]).None?
    ensures Output(tb, s, i) == [s[i]] + Output(tb, s, i + 1)
  {
    SameMonth(tb, s, i);
    YearsStep(tb, s, i);
    assert YearsFrom(tb, s, i)[1..] == YearsFrom(tb, s, i + 1);
  }

  lemma NameBecomes(tb: seq<Month>, s: string, i: nat, k: nat)
    requires Good(tb) && i < |s| && k < |tb| && HasPrefix(s[i..], tb[k].thai)
    ensures tb[k].thai != "" && i + |tb[k].thai| <= |s|
    ensures Output(tb, s, i) == tb[k].english + Output(tb, s, i + |tb[k].thai|)
  {
    NameSpans(tb, s, i, k);
    assert GoodMonth(tb[k]);
    NoYearInMonth(tb, s, i, i + |tb[k].thai|);
    MonthsOfName(tb, k, YearsFrom(tb, s, i + |tb[k].thai|));
  }

  lemma PlainOutput(tb: seq<Month>, s: string, i: nat, n: nat, image: string)
    requires Good(tb) && i <= n <= |s| && YearsFrom(tb, s, i) == image + YearsFrom(tb, s, n) && !HasThai(image)
    ensures Output(tb, s, i) == image + Output(tb, s, n)
  {
    PlainBefore(tb, image, YearsFrom(tb, s, n));
  }

  lemma YearBecomes(tb: seq<Month>, s: string, i: nat)
    requires Good(tb) && YearAt(tb, s, i)
    ensures Output(tb, s, i) == YearPiece(s[i..]).Image() + Output(tb, s, YearEnd(tb, s, i))
  {
    YearPlain(s[i..]);
    YearsAtYear(tb, s, i);
    PlainOutput(tb, s, i, YearEnd(tb, s, i), YearPiece(s[i..]).Image());
  }

  lemma AtYear(tb: seq<Month>, s: string, i: nat)
    requires YearAt(tb, s, i)
    ensures i < |s| && At(tb, s)(i) == (YearPiece(s[i..]), GapBefore(s[i..]).value + 4)
  {}

  lemma AtName(tb: seq<Month>, s: string, i: nat, k: nat)
    requires Good(tb) && i < |s| && !YearAt(tb, s, i) && MonthHere(tb, s[i..]) == Some(k)
    ensures At(tb, s)(i) == (Name(tb[k]), |tb[k].thai|)
  {
    assert GoodMonth(tb[k]);
  }

  lemma AtLetter(tb: seq<Month>, s: string, i: nat)
    requires i < |s| && !YearAt(tb, s, i) && MonthHere(tb, s[i..]).None?
    ensures At(tb, s)(i) == (Kept(s[i]), 1)
  {}

  ghost function Outputs(tb: seq<Month>, s: string): nat -> string {
    (i: nat) => Output(tb, s, i)
  }

  lemma OutputsIs(tb: seq<Month>, s: string, i: nat, image: string, n: nat)
    requires Output(tb, s, i) == image + Output(tb, s, n)
    ensures Outputs(tb, s)(i) == image + Outputs(tb, s)(n)
  {}

  lemma BecomesIs(at: Reader, n: nat, rest: nat -> string, i: nat, p: Piece, w: nat)
    requires 0 < w && i + w <= n && at(i) == (p, w) && rest(i) == p.Image() + rest(i + w)
    ensures Becomes(at, n, rest, i)
  {}

  lemma YearOutputs(tb: seq<Month>, s: string, i: nat)
    requires Good(tb) && YearAt(tb, s, i)
    ensures Outputs(tb, s)(i) == YearPiece(s[i..]).Image() + Outputs(tb, s)(YearEnd(tb, s, i))
  {
    YearBecomes(tb, s, i);
    OutputsIs(tb, s, i, YearPiece(s[i..]).Image(), YearEnd(tb, s, i));
  }

  lemma NameOutputs(tb: seq<Month>, s: string, i: nat, k: nat)
    requires Good(tb) && i < |s| && k < |tb| && HasPrefix(s[i..], tb[k].thai)
    ensures tb[k].thai != "" && i + |tb[k].thai| <= |s|
    ensures Outputs(tb, s)(i) == tb[k].english + Outputs(tb, s)(i + |tb[k].thai|)
  {
    NameBecomes(tb, s, i, k);
    OutputsIs(tb, s, i, tb[k].english, i + |tb[k].thai|);
  }

  lemma AtYearBecomes(tb: seq<Month>, s: string, rest: nat -> string, i: nat, image: string)
    requires YearAt(tb, s, i) && rest(i) == image + rest(YearEnd(tb, s, i)) && YearPiece(s[i..]).Image() == image
    ensures Becomes(At(tb, s), |s|, rest, i)
  {
    AtYear(tb, s, i);
  }

  lemma AtNameBecomes(tb: seq<Month>, s: string, rest: nat -> string, i: nat, k: nat)
    requires Good(tb) && i < |s| && !YearAt(tb, s, i) && MonthHere(tb, s[i..]) == Some(k)
    requires tb[k].thai != "" && i + |tb[k].thai| <= |s| && rest(i) == tb[k].english + rest(i + |tb[k].thai|)
    ensures Becomes(At(tb, s), |s|, rest, i)
  {
    AtName(tb, s, i, k);
    BecomesIs(At(tb, s), |s|, rest, i, Name(tb[k]), |tb[k].thai|);
  }

  lemma AtLetterBecomes(tb: seq<Month>, s: string, i: nat)
    requires Good(tb) && i < |s| && !YearAt(tb, s, i) && MonthHere(tb, s[i..]).None?
    ensures Becomes(At(tb, s), |s|, Outputs(tb, s), i)
  {
    AtLetter(tb, s, i);
    LetterBecomes(tb, s, i);
    OutputsIs(tb, s, i, [s[i]], i + 1);
    BecomesIs(At(tb, s), |s|, Outputs(tb, s), i, Kept(s[i]), 1);
  }

  lemma {:induction false} WalkBecomes(at: Reader, n: nat, rest: nat -> string, i: nat)
    requires i <= n && rest(n) == "" && forall j: nat :: j < n ==> Becomes(at, n, rest, j)
    ensures Images(Walk(at, n, i)) == rest(i)
    decreases n - i
  {
    if i < n {
      assert Becomes(at, n, rest, i);
      var (p, w) := at(i);
      WalkBecomes(at, n, rest, i + w);
      ConsPiece(p, Walk(at, n, i + w));
    }
  }

  lemma BothPasses(tb: seq<Month>, s: string)
    requires Good(tb)
    ensures Images(Pieces(tb, s)) == Output(tb, s, 0)
  {
    var rest := Outputs(tb, s);
    forall i: nat | i < |s|
      ensures Becomes(At(tb, s), |s|, rest, i)
    {
      if YearAt(tb, s, i) {
        YearOutputs(tb, s, i);
        AtYearBecomes(tb, s, rest, i, YearPiece(s[i..]).Image());
      } else if MonthHere(tb, s[i..]).Some? {
        NameOutputs(tb, s, i, MonthHere(tb, s[i..]).value);
        AtNameBecomes(tb, s, rest, i, MonthHere(tb, s[i..]).value);
      } else {
        AtLetterBecomes(tb, s, i);
      }
    }
    WalkBecomes(At(tb, s), |s|, rest, 0);
  }

  lemma {:induction false} NotYearsInPlain(tb: seq<Month>, s: string, i: nat)
    requires Good(tb) && !HasThai(s) && i <= |s|
    ensures YearsFrom(tb, s, i) == s[i..]
    decreases |s| - i
  {
    if i < |s| {
      if YearAt(tb, s, i) {
        var from, k := NameBefore(tb, s, i);
      }
      YearsStep(tb, s, i);
      NotYearsInPlain(tb, s, i + 1);
      assert s[i..] == [s[i]] + s[i + 1..];
    }
  }

  lemma CleanAtStart(tb: seq<Month>, s: string)
    ensures Clean(tb, s, 0)
  {}

  /** Every text is a run of kept characters, month names and years right after one; the conversion keeps the first,
      translates the second and shifts the third, each where it stands. */
  lemma DatesByPiece(s: string)
    ensures Spell(Pieces(Table(), s)) == s && Images(Pieces(Table(), s)) == Dates(s)
  {
    TableIsGood();
    PiecesSpell(Table(), s);
    BothPasses(Table(), s);
    assert s[0..] == s;
    if HasThai(s) {
      CleanAtStart(Table(), s);
      YearsByPosition(Table(), s, 0);
    } else {
      NotYearsInPlain(Table(), s, 0);
      PlainUnchanged(Table(), s);
    }
  }
}
