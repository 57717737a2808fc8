/** Dates: Thai month names, and a Buddhist-era year right after one, into English. */
module Dates {
  import opened Options
  import opened Text

  // ----- The tables: full name and abbreviation of each month in turn -----

  const MONTHS: nat := 24

  function Thai(k: nat): string
    requires k < MONTHS
  {
    match k
    case 0 => "มกราคม" case 1 => "ม.ค."
    case 2 => "กุมภาพันธ์" case 3 => "ก.พ."
    case 4 => "มีนาคม" case 5 => "มี.ค."
    case 6 => "เมษายน" case 7 => "เม.ย."
    case 8 => "พฤษภาคม" case 9 => "พ.ค."
    case 10 => "มิถุนายน" case 11 => "มิ.ย."
    case 12 => "กรกฎาคม" case 13 => "ก.ค."
    case 14 => "สิงหาคม" case 15 => "ส.ค."
    case 16 => "กันยายน" case 17 => "ก.ย."
    case 18 => "ตุลาคม" case 19 => "ต.ค."
    case 20 => "พฤศจิกายน" case 21 => "พ.ย."
    case 22 => "ธันวาคม" case _ => "ธ.ค."
  }

  function English(k: nat): string
    requires k < MONTHS
  {
    match k
    case 0 => "January" case 1 => "Jan"
    case 2 => "February" case 3 => "Feb"
    case 4 => "March" case 5 => "Mar"
    case 6 => "April" case 7 => "Apr"
    case 8 => "May" case 9 => "May"
    case 10 => "June" case 11 => "Jun"
    case 12 => "July" case 13 => "Jul"
    case 14 => "August" case 15 => "Aug"
    case 16 => "September" case 17 => "Sep"
    case 18 => "October" case 19 => "Oct"
    case 20 => "November" case 21 => "Nov"
    case 22 => "December" case _ => "Dec"
  }

  predicate IsLatin(c: char) {
    'a' <= c <= 'z' || 'A' <= c <= 'Z'
  }

  // The characters of Thai month names.
  predicate IsMonthChar(c: char) {
    IsThai(c) || c == '.'
  }

  predicate Pure(x: string) {
    forall i :: 0 <= i < |x| ==> IsMonthChar(x[i])
  }

  predicate AllLatin(x: string) {
    forall i :: 0 <= i < |x| ==> IsLatin(x[i])
  }

  datatype Month = Month(thai: string, english: string)

  predicate GoodMonth(m: Month) {
    m.thai != "" && Pure(m.thai) && IsThai(m.thai[0]) && m.english != "" && AllLatin(m.english)
  }

  // What the conversion needs of its table; TableIsGood shows that the real one has it.
  ghost predicate Good(tb: seq<Month>) {
    && (forall k {:trigger GoodMonth(tb[k])} :: 0 <= k < |tb| ==> GoodMonth(tb[k]))
    && (forall j, k {:trigger HasPrefix(tb[j].thai, tb[k].thai)} ::
      0 <= j < |tb| && 0 <= k < |tb| && HasPrefix(tb[j].thai, tb[k].thai) ==> j == k)
  }

  function Table(): seq<Month> {
    seq(MONTHS, k requires 0 <= k < MONTHS => Month(Thai(k), English(k)))
  }

  lemma ThaiIsPure(k: nat)
    requires k < MONTHS
    ensures Pure(Thai(k)) && |Thai(k)| >= 4 && IsThai(Thai(k)[0])
  {
    if k < 12 {
      FirstHalfIsPure(k);
    } else {
      SecondHalfIsPure(k);
    }
  }

  lemma FirstHalfIsPure(k: nat)
    requires k < 12
    ensures Pure(Thai(k)) && |Thai(k)| >= 4 && IsThai(Thai(k)[0])
  {}

  lemma SecondHalfIsPure(k: nat)
    requires 12 <= k < MONTHS
    ensures Pure(Thai(k)) && |Thai(k)| >= 4 && IsThai(Thai(k)[0])
  {}

  lemma EnglishIsLatin(k: nat)
    requires k < MONTHS
    ensures English(k) != "" && AllLatin(English(k))
  {}

  // The month three characters begin, told from their look-alikes.
  function Named(a: char, b: char, c: char): nat {
    match a
    case 'ม' =>
      if b == 'ก' then 0 else if b == '.' then 1
      else if b == 'ี' then (if c == 'น' then 4 else 5)
      else if c == 'ถ' then 10 else 11
    case 'ก' =>
      if b == 'ุ' then 2
      else if b == '.' then (if c == 'พ' then 3 else if c == 'ค' then 13 else 17)
      else if b == 'ร' then 12 else 16
    case 'เ' => if c == 'ษ' then 6 else 7
    case 'พ' => if b == 'ฤ' then (if c == 'ษ' then 8 else 20) else if c == 'ค' then 9 else 21
    case 'ส' => if b == 'ิ' then 14 else 15
    case 'ต' => if b == 'ุ' then 18 else 19
    case _ => if b == 'ั' then 22 else 23
  }

  lemma NamedIs(k: nat)
    requires k < MONTHS
    ensures |Thai(k)| >= 4 && Named(Thai(k)[0], Thai(k)[1], Thai(k)[2]) == k
  {}

  /** No month name begins another, so at most one stands at any place. */
  lemma TableIsGood()
    ensures Good(Table())
  {
    forall k | 0 <= k < MONTHS
      ensures GoodMonth(Table()[k]) && |Table()[k].thai| >= 4
      ensures Named(Table()[k].thai[0], Table()[k].thai[1], Table()[k].thai[2]) == k
    {
      ThaiIsPure(k);
      EnglishIsLatin(k);
      NamedIs(k);
    }
    forall j, k | 0 <= j < MONTHS && 0 <= k < MONTHS && HasPrefix(Table()[j].thai, Table()[k].thai)
      ensures j == k
    {
      var a, b := Table()[j].thai, Table()[k].thai;
      assert a[0] == b[0] && a[1] == b[1] && a[2] == b[2];
    }
  }

  // ----- The first pass: (month)\s*(25\d\d) -----

  predicate IsGap(c: char) {
    c == ' ' || c == '\t' || c == '\n' || c == '\U{000C}' || c == '\r'
  }

  predicate IsBuddhist(t: string) {
    |t| >= 4 && t[0] == '2' && t[1] == '5' && IsDigit(t[2]) && IsDigit(t[3])
  }

  // The length of the gap, if a Buddhist-era year follows it.
  function GapBefore(t: string): (w: Option<nat>)
    ensures w.Some? ==> w.value <= |t| && IsBuddhist(t[w.value..]) && forall i :: 0 <= i < w.value ==> IsGap(t[i])
  {
    if IsBuddhist(t) then Some(0)
    else if t != "" && IsGap(t[0]) then
      var w := GapBefore(t[1..]);
      if w.Some? then Some(w.value + 1) else None
    else None
  }

  predicate IsDated(s: string, x: string) {
    HasPrefix(s, x) && GapBefore(s[|x|..]).Some?
  }

  // The first month of the table that is dated here.
  function DatedHere(tb: seq<Month>, s: string): (r: Option<nat>)
    ensures r.Some? ==> r.value < |tb| && IsDated(s, tb[r.value].thai)
    ensures r.None? ==> forall k :: 0 <= k < |tb| ==> !IsDated(s, tb[k].thai)
  {
    if tb == [] then None
    else if IsDated(s, tb[0].thai) then Some(0)
    else
      var r := DatedHere(tb[1..], s);
      if r.Some? then Some(r.value + 1) else None
  }

  function Digit(n: nat): char
    requires n < 10
  {
    '0' + n as char
  }

  function Itoa(n: nat): string {
    if n < 10 then [Digit(n)] else Itoa(n / 10) + [Digit(n % 10)]
  }

  function YearOf(t: string): (y: nat)
    requires IsBuddhist(t)
    ensures 2500 <= y <= 2599
  {
    2500 + 10 * (t[2] - '0') as nat + (t[3] - '0') as nat
  }

  // The converted date and where the text goes on.
  function Converted(s: string, month: string): string
    requires IsDated(s, month)
  {
    var t := s[|month|..];
    month + (" " + Itoa(YearOf(t[GapBefore(t).value..]) - 543))
  }

  function After(s: string, month: string): string
    requires IsDated(s, month)
  {
    s[|month|..][GapBefore(s[|month|..]).value..][4..]
  }

  function Years(tb: seq<Month>, s: string): string
    decreases |s|
  {
    if s == "" then ""
    else
      var k := DatedHere(tb, s);
      if k.None? then [s[0]] + Years(tb, s[1..])
      else Converted(s, tb[k.value].thai) + Years(tb, After(s, tb[k.value].thai))
  }

  // ----- The second pass: a month name by itself -----

  function MonthHere(tb: seq<Month>, s: string): (r: Option<nat>)
    ensures r.Some? ==> r.value < |tb| && HasPrefix(s, tb[r.value].thai)
    ensures r.None? ==> forall k :: 0 <= k < |tb| ==> !HasPrefix(s, tb[k].thai)
  {
    if tb == [] then None
    else if HasPrefix(s, tb[0].thai) then Some(0)
    else
      var r := MonthHere(tb[1..], s);
      if r.Some? then Some(r.value + 1) else None
  }

  function Months(tb: seq<Month>, s: string): string
    decreases |s|
  {
    if s == "" then ""
    else
      var k := MonthHere(tb, s);
      if k.None? || tb[k.value].thai == "" then [s[0]] + Months(tb, s[1..])
      else tb[k.value].english + Months(tb, s[|tb[k.value].thai|..])
  }

  function Rewrite(tb: seq<Month>, s: string): string {
    if !HasThai(s) then s else Months(tb, Years(tb, s))
  }

  /** Dates */
  function Dates(s: string): string {
    Rewrite(Table(), s)
  }

  // ----- No month name is left -----

  // No month name stands anywhere.
  ghost predicate NoMonth(tb: seq<Month>, s: string) {
    forall i :: 0 <= i <= |s| ==> MonthHere(tb, s[i..]).None?
  }

  lemma MonthBeginsThai(tb: seq<Month>, s: string)
    requires Good(tb) && MonthHere(tb, s).Some?
    ensures s != "" && IsThai(s[0])
  {
    var m := tb[MonthHere(tb, s).value];
    assert GoodMonth(m);
    assert s[0] == m.thai[0];
  }

  lemma NotThaiNoMonth(tb: seq<Month>, s: string)
    requires Good(tb) && (s == "" || !IsThai(s[0]))
    ensures MonthHere(tb, s).None? && DatedHere(tb, s).None?
  {
    if MonthHere(tb, s).Some? {
      MonthBeginsThai(tb, s);
    }
  }

  lemma MonthsBeginLatin(tb: seq<Month>, s: string)
    requires Good(tb) && MonthHere(tb, s).Some?
    ensures s != "" && Months(tb, s) != "" && IsLatin(Months(tb, s)[0])
  {
    MonthBeginsThai(tb, s);
    var m := tb[MonthHere(tb, s).value];
    assert GoodMonth(m);
    assert Months(tb, s)[0] == m.english[0];
  }

  lemma PrefixCons(s: string, x: string)
    requires s != "" && x != ""
    ensures HasPrefix(s, x) <==> s[0] == x[0] && HasPrefix(s[1..], x[1..])
  {
    if |x| <= |s| {
      assert s[..|x|] == [s[0]] + s[1..][..|x| - 1] && x == [x[0]] + x[1..];
    }
  }

  lemma {:induction false} PureStartSurvives(tb: seq<Month>, s: string, x: string)
    requires Good(tb) && Pure(x) && HasPrefix(Months(tb, s), x)
    ensures HasPrefix(s, x)
    decreases |x|
  {
    if x != "" {
      assert Months(tb, s)[0] == x[0];
      if MonthHere(tb, s).Some? {
        MonthsBeginLatin(tb, s);
      }
      assert Months(tb, s)[1..] == Months(tb, s[1..]);
      PrefixCons(Months(tb, s), x);
      PureStartSurvives(tb, s[1..], x[1..]);
      PrefixCons(s, x);
    }
  }

  lemma NoMonthAtStart(tb: seq<Month>, s: string)
    requires Good(tb) && MonthHere(tb, s).None?
    ensures MonthHere(tb, Months(tb, s)).None?
  {
    if MonthHere(tb, Months(tb, s)).Some? {
      var m := tb[MonthHere(tb, Months(tb, s)).value];
      assert GoodMonth(m);
      PureStartSurvives(tb, s, m.thai);
    }
  }

  lemma NoMonthInEnglish(tb: seq<Month>, english: string, rest: string, i: nat)
    requires Good(tb) && AllLatin(english) && i < |english|
    ensures MonthHere(tb, (english + rest)[i..]).None?
  {
    assert (english + rest)[i..][0] == english[i];
    NotThaiNoMonth(tb, (english + rest)[i..]);
  }

  lemma DropInto(a: string, b: string, i: nat)
    requires |a| <= i <= |a| + |b|
    ensures (a + b)[i..] == b[i - |a|..]
  {}

  lemma {:induction false} NoMonthAt(tb: seq<Month>, s: string, i: nat)
    requires Good(tb) && i <= |Months(tb, s)|
    ensures MonthHere(tb, Months(tb, s)[i..]).None?
    decreases |s|
  {
    var k := MonthHere(tb, s);
    if s == "" {
      NotThaiNoMonth(tb, "");
    } else if k.None? {
      if i == 0 {
        assert Months(tb, s)[0..] == Months(tb, s);
        NoMonthAtStart(tb, s);
      } else {
        NoMonthAt(tb, s[1..], i - 1);
        DropInto([s[0]], Months(tb, s[1..]), i);
      }
    } else {
      var m := tb[k.value];
      assert GoodMonth(m);
      var rest := s[|m.thai|..];
      if i < |m.english| {
        NoMonthInEnglish(tb, m.english, Months(tb, rest), i);
      } else {
        NoMonthAt(tb, rest, i - |m.english|);
        DropInto(m.english, Months(tb, rest), i);
      }
    }
  }

  lemma NoThaiNoMonth(tb: seq<Month>, s: string)
    requires Good(tb) && !HasThai(s)
    ensures NoMonth(tb, s)
  {
    forall i | 0 <= i <= |s|
      ensures MonthHere(tb, s[i..]).None?
    {
      assert i < |s| ==> s[i..][0] == s[i];
      NotThaiNoMonth(tb, s[i..]);
    }
  }

  /** No Thai month name is left anywhere in the output, not even across a replacement. */
  lemma DatesLeaveNoMonth(s: string)
    ensures NoMonth(Table(), Dates(s))
  {
    TableIsGood();
    if HasThai(s) {
      forall i | 0 <= i <= |Dates(s)|
        ensures MonthHere(Table(), Dates(s)[i..]).None?
      {
        NoMonthAt(Table(), Years(Table(), s), i);
      }
    } else {
      NoThaiNoMonth(Table(), s);
    }
  }

  lemma {:induction false} NoMonthUnchanged(tb: seq<Month>, s: string)
    requires NoMonth(tb, s)
    ensures Years(tb, s) == s && Months(tb, s) == s
    decreases |s|
  {
    if s != "" {
      assert s[0..] == s;
      assert MonthHere(tb, s).None? && DatedHere(tb, s).None?;
      forall i | 0 <= i <= |s[1..]|
        ensures MonthHere(tb, s[1..][i..]).None?
      {
        assert s[1..][i..] == s[i + 1..];
      }
      NoMonthUnchanged(tb, s[1..]);
    }
  }

  /** Text without a month name is left alone, years and all. */
  lemma DatesOnlyTouchMonths(s: string)
    requires NoMonth(Table(), s)
    ensures Dates(s) == s
  {
    NoMonthUnchanged(Table(), s);
  }

  /** Converting twice is converting once. */
  lemma DatesIdempotent(s: string)
    ensures Dates(Dates(s)) == Dates(s)
  {
    DatesLeaveNoMonth(s);
    DatesOnlyTouchMonths(Dates(s));
  }

  // ----- No Buddhist-era year is left after a month -----

  lemma {:induction false} GapIs(t: string, w: nat)
    requires w <= |t| && IsBuddhist(t[w..]) && forall i :: 0 <= i < w ==> IsGap(t[i])
    ensures GapBefore(t) == Some(w)
    decreases w
  {
    if w > 0 {
      assert t[1..][w - 1..] == t[w..];
      GapIs(t[1..], w - 1);
    } else {
      assert t[0..] == t;
    }
  }

  lemma ItoaSnoc(n: nat)
    requires n >= 10
    ensures Itoa(n) == Itoa(n / 10) + [Digit(n % 10)]
  {}

  lemma ShiftedYear(y: nat)
    requires 1957 <= y <= 2056
    ensures |Itoa(y)| == 4 && !IsBuddhist(Itoa(y)) && !IsGap(Itoa(y)[0]) && !IsThai(Itoa(y)[0])
    ensures forall i :: 0 <= i < 4 ==> IsDigit(Itoa(y)[i])
    ensures Itoa(y)[0] == '1' || (Itoa(y)[0] == '2' && Itoa(y)[1] == '0')
  {
    ItoaSnoc(y);
    ItoaSnoc(y / 10);
    ItoaSnoc(y / 10 / 10);
    assert y / 10 / 10 == 19 || y / 10 / 10 == 20;
    assert Itoa(1) == "1" && Itoa(2) == "2";
  }

  lemma NextAfter(u: string, after: string, x: string)
    requires HasPrefix(u + after, x) && |x| > |u|
    ensures after != "" && x[|u|] == after[0]
  {
    assert x[|u|] == (u + after)[|u|];
  }

  // A month name that is not followed by a gap and a Buddhist-era year is not dated, nor is any tail of it.
  lemma NotDatedBefore(u: string, after: string, x: string)
    requires Pure(u) && Pure(x) && (after == "" || !IsMonthChar(after[0])) && GapBefore(after).None?
    ensures !IsDated(u + after, x)
  {
    var s := u + after;
    if HasPrefix(s, x) && |x| > |u| {
      NextAfter(u, after, x);
    } else if HasPrefix(s, x) && |x| < |u| {
      assert s[|x|..][0] == u[|x|];
    } else {
      assert s[|u|..] == after;
    }
  }

  // Nothing in a converted date reads as a Buddhist-era date.
  lemma ShiftedIsNotDated(u: string, y: nat, rest: string, x: string)
    requires Pure(u) && Pure(x) && 1957 <= y <= 2056
    ensures !IsDated(u + (" " + Itoa(y) + rest), x)
  {
    ShiftedYear(y);
    var after := " " + Itoa(y) + rest;
    assert after[1..][0] == Itoa(y)[0] && after[1..][1] == Itoa(y)[1];
    NotDatedBefore(u, after, x);
  }

  lemma ConvertedIs(s: string, month: string) returns (y: nat)
    requires IsDated(s, month)
    ensures 1957 <= y <= 2056 && Converted(s, month) == month + (" " + Itoa(y))
  {
    var t := s[|month|..];
    y := YearOf(t[GapBefore(t).value..]) - 543;
  }

  lemma YearsBeginThai(tb: seq<Month>, s: string)
    requires Good(tb) && DatedHere(tb, s).Some?
    ensures s != "" && Years(tb, s) != "" && IsThai(Years(tb, s)[0])
  {
    var m := tb[DatedHere(tb, s).value];
    assert GoodMonth(m);
    var y := ConvertedIs(s, m.thai);
    assert s[0] == m.thai[0];
    assert Years(tb, s)[0] == m.thai[0];
  }

  // Text with no Thai letter comes from the same text.
  lemma {:induction false} PlainStartSurvives(tb: seq<Month>, s: string, x: string)
    requires Good(tb) && !HasThai(x) && HasPrefix(Years(tb, s), x)
    ensures HasPrefix(s, x)
    decreases |x|
  {
    if x != "" {
      assert Years(tb, s)[0] == x[0];
      if DatedHere(tb, s).Some? {
        YearsBeginThai(tb, s);
      }
      assert Years(tb, s)[1..] == Years(tb, s[1..]);
      PrefixCons(Years(tb, s), x);
      PlainStartSurvives(tb, s[1..], x[1..]);
      PrefixCons(s, x);
    }
  }

  lemma {:induction false} GapIsPlain(t: string)
    requires GapBefore(t).Some?
    ensures GapBefore(t).value + 4 <= |t| && forall i :: 0 <= i < GapBefore(t).value + 4 ==> !IsThai(t[i])
  {
    if !IsBuddhist(t) {
      GapIsPlain(t[1..]);
      assert forall i :: 1 <= i < |t| ==> t[i] == t[1..][i - 1];
    }
  }

  lemma GapFromStart(s: string, t: string)
    requires GapBefore(t).Some? && GapBefore(t).value + 4 <= |t| && HasPrefix(s, t[..GapBefore(t).value + 4])
    ensures GapBefore(s).Some?
  {
    var w := GapBefore(t).value;
    assert forall i :: 0 <= i < w + 4 ==> s[i] == s[..w + 4][i] == t[i];
    assert forall i :: 0 <= i < 4 ==> s[w..][i] == t[w..][i];
    GapIs(s, w);
  }

  lemma GapSurvives(tb: seq<Month>, s: string)
    requires Good(tb) && GapBefore(Years(tb, s)).Some?
    ensures GapBefore(s).Some?
  {
    var t := Years(tb, s);
    GapIsPlain(t);
    var x := t[..GapBefore(t).value + 4];
    assert forall i :: 0 <= i < |x| ==> x[i] == t[i];
    PlainStartSurvives(tb, s, x);
    GapFromStart(s, t);
  }

  lemma DatedCons(s: string, x: string)
    requires s != "" && x != ""
    ensures IsDated(s, x) <==> s[0] == x[0] && IsDated(s[1..], x[1..])
  {
    PrefixCons(s, x);
    if |x| <= |s| {
      assert s[|x|..] == s[1..][|x| - 1..];
    }
  }

  lemma {:induction false} DatedSurvives(tb: seq<Month>, s: string, x: string)
    requires Good(tb) && Pure(x) && IsDated(Years(tb, s), x)
    ensures IsDated(s, x)
    decreases |x|
  {
    if x == "" {
      assert Years(tb, s)[0..] == Years(tb, s) && s[0..] == s;
      GapSurvives(tb, s);
    } else {
      if DatedHere(tb, s).Some? {
        assert Years(tb, s)[0..] == Years(tb, s);
        DatedIsNotDated(tb, s, 0, x);
      }
      assert Years(tb, s)[1..] == Years(tb, s[1..]);
      DatedCons(Years(tb, s), x);
      DatedSurvives(tb, s[1..], x[1..]);
      DatedCons(s, x);
    }
  }

  lemma YearsFromMonth(tb: seq<Month>, s: string) returns (y: nat, rest: string)
    requires Good(tb) && DatedHere(tb, s).Some?
    ensures 1957 <= y <= 2056 && rest == Years(tb, After(s, tb[DatedHere(tb, s).value].thai))
    ensures Years(tb, s) == tb[DatedHere(tb, s).value].thai + (" " + Itoa(y)) + rest
  {
    var m := tb[DatedHere(tb, s).value].thai;
    y := ConvertedIs(s, m);
    YearsBeginThai(tb, s);
    rest := Years(tb, After(s, m));
  }

  lemma DropPart(a: string, b: string, c: string, i: nat)
    requires i <= |a|
    ensures (a + b + c)[i..] == a[i..] + (b + c)
  {}

  // From no point of its month on is a converted date a Buddhist-era date.
  lemma DatedIsNotDated(tb: seq<Month>, s: string, cut: nat, x: string)
    requires Good(tb) && DatedHere(tb, s).Some? && Pure(x) && cut <= |tb[DatedHere(tb, s).value].thai|
    ensures cut <= |Years(tb, s)| && !IsDated(Years(tb, s)[cut..], x)
  {
    var m := tb[DatedHere(tb, s).value].thai;
    assert GoodMonth(tb[DatedHere(tb, s).value]);
    var y, rest := YearsFromMonth(tb, s);
    DropPart(m, " " + Itoa(y), rest, cut);
    ShiftedIsNotDated(m[cut..], y, rest, x);
  }

  // No Buddhist-era year stands after a month anywhere.
  ghost predicate NoDate(tb: seq<Month>, s: string) {
    forall i :: 0 <= i <= |s| ==> DatedHere(tb, s[i..]).None?
  }

  lemma NotDatedAtStart(tb: seq<Month>, s: string)
    requires Good(tb) && DatedHere(tb, s).None?
    ensures DatedHere(tb, Years(tb, s)).None?
  {
    if DatedHere(tb, Years(tb, s)).Some? {
      var m := tb[DatedHere(tb, Years(tb, s)).value];
      assert GoodMonth(m);
      DatedSurvives(tb, s, m.thai);
    }
  }

  lemma NotDatedInside(tb: seq<Month>, s: string, i: nat)
    requires Good(tb) && DatedHere(tb, s).Some?
    requires i < |tb[DatedHere(tb, s).value].thai| + 5
    ensures i <= |Years(tb, s)| && DatedHere(tb, Years(tb, s)[i..]).None?
  {
    var m := tb[DatedHere(tb, s).value].thai;
    if i <= |m| {
      forall k | 0 <= k < |tb|
        ensures !IsDated(Years(tb, s)[i..], tb[k].thai)
      {
        assert GoodMonth(tb[k]);
        DatedIsNotDated(tb, s, i, tb[k].thai);
      }
      DatedIsNotDated(tb, s, i, "");
    } else {
      var y, rest := YearsFromMonth(tb, s);
      ShiftedYear(y);
      assert Years(tb, s)[i..][0] == Itoa(y)[i - |m| - 1];
      NotThaiNoMonth(tb, Years(tb, s)[i..]);
    }
  }

  lemma {:induction false} NotDatedAt(tb: seq<Month>, s: string, i: nat)
    requires Good(tb) && i <= |Years(tb, s)|
    ensures DatedHere(tb, Years(tb, s)[i..]).None?
    decreases |s|
  {
    var k := DatedHere(tb, s);
    if s == "" {
      NotThaiNoMonth(tb, "");
    } else if k.None? {
      if i == 0 {
        assert Years(tb, s)[0..] == Years(tb, s);
        NotDatedAtStart(tb, s);
      } else {
        NotDatedAt(tb, s[1..], i - 1);
        DropInto([s[0]], Years(tb, s[1..]), i);
      }
    } else {
      var m := tb[k.value].thai;
      assert GoodMonth(tb[k.value]);
      if i < |m| + 5 {
        NotDatedInside(tb, s, i);
      } else {
        var y, rest := YearsFromMonth(tb, s);
        ShiftedYear(y);
        NotDatedAt(tb, After(s, m), i - |m| - 5);
        DropInto(m + (" " + Itoa(y)), rest, i);
      }
    }
  }

  /** After the first pass no month is followed by a Buddhist-era year, not even across a replacement. */
  lemma YearsLeaveNoDate(s: string)
    ensures NoDate(Table(), Years(Table(), s))
  {
    TableIsGood();
    forall i | 0 <= i <= |Years(Table(), s)|
      ensures DatedHere(Table(), Years(Table(), s)[i..]).None?
    {
      NotDatedAt(Table(), s, i);
    }
  }

  // ----- What is kept -----

  // The text without digits and gaps.
  ghost function Words(s: string): string {
    if s == "" then "" else (if IsGap(s[0]) || IsDigit(s[0]) then "" else [s[0]]) + Words(s[1..])
  }

  lemma {:induction false} WordsConcat(a: string, b: string)
    ensures Words(a + b) == Words(a) + Words(b)
  {
    if a == "" {
      assert a + b == b;
    } else {
      WordsConcat(a[1..], b);
      var ab := a + b;
      assert ab[0] == a[0] && ab[1..] == a[1..] + b;
      Reassociate(if IsGap(a[0]) || IsDigit(a[0]) then "" else [a[0]], Words(a[1..]), Words(b));
    }
  }

  lemma {:induction false} NoWords(s: string)
    requires forall i :: 0 <= i < |s| ==> IsGap(s[i]) || IsDigit(s[i])
    ensures Words(s) == ""
  {
    if s != "" {
      NoWords(s[1..]);
    }
  }

  predicate GapsAndDigits(s: string) {
    forall i :: 0 <= i < |s| ==> IsGap(s[i]) || IsDigit(s[i])
  }

  lemma WordsOfDated(month: string, gap: string, year: string, rest: string)
    requires GapsAndDigits(gap) && GapsAndDigits(year)
    ensures Words(month + (gap + (year + rest))) == Words(month) + Words(rest)
  {
    WordsConcat(month, gap + (year + rest));
    WordsConcat(gap, year + rest);
    WordsConcat(year, rest);
    NoWords(gap);
    NoWords(year);
    assert Words(year + rest) == Words(rest);
    assert Words(gap + (year + rest)) == Words(rest);
  }

  lemma DatedIs(s: string, month: string) returns (gap: string, year: string)
    requires IsDated(s, month)
    ensures (forall i :: 0 <= i < |gap| ==> IsGap(gap[i])) && |year| == 4 && IsBuddhist(year)
    ensures s == month + (gap + (year + After(s, month)))
  {
    var t := s[|month|..];
    var w := GapBefore(t).value;
    gap, year := t[..w], t[w..][..4];
    assert t[w..] == year + After(s, month);
    assert t == gap + t[w..];
  }

  lemma ConvertedWords(s: string, month: string)
    requires IsDated(s, month)
    ensures Words(Converted(s, month)) == Words(month)
  {
    var y := ConvertedIs(s, month);
    ShiftedYear(y);
    NoWords(" " + Itoa(y));
    WordsConcat(month, " " + Itoa(y));
  }

  lemma DatedWords(s: string, month: string)
    requires IsDated(s, month)
    ensures Words(s) == Words(month) + Words(After(s, month))
  {
    var gap, year := DatedIs(s, month);
    WordsOfDated(month, gap, year, After(s, month));
  }

  /** The first pass changes digits and gaps only. */
  lemma {:induction false} YearsKeepWords(tb: seq<Month>, s: string)
    ensures Words(Years(tb, s)) == Words(s)
    decreases |s|
  {
    if s != "" {
      var k := DatedHere(tb, s);
      if k.None? {
        YearsKeepWords(tb, s[1..]);
        WordsConcat([s[0]], s[1..]);
        WordsConcat([s[0]], Years(tb, s[1..]));
        assert s == [s[0]] + s[1..];
      } else {
        var m := tb[k.value].thai;
        YearsKeepWords(tb, After(s, m));
        DatedWords(s, m);
        ConvertedWords(s, m);
        WordsConcat(Converted(s, m), Years(tb, After(s, m)));
      }
    }
  }

  // ----- A date in a sentence -----

  lemma {:induction false} PlainBefore(tb: seq<Month>, pre: string, s: string)
    requires Good(tb) && !HasThai(pre)
    ensures Years(tb, pre + s) == pre + Years(tb, s) && Months(tb, pre + s) == pre + Months(tb, s)
    decreases |pre|
  {
    if pre == "" {
      assert pre + s == s && pre + Years(tb, s) == Years(tb, s) && pre + Months(tb, s) == Months(tb, s);
    } else {
      var ps := pre + s;
      assert ps[0] == pre[0] && ps[1..] == pre[1..] + s;
      NotThaiNoMonth(tb, ps);
      PlainBefore(tb, pre[1..], s);
      Reassociate([pre[0]], pre[1..], Years(tb, s));
      Reassociate([pre[0]], pre[1..], Months(tb, s));
      assert pre == [pre[0]] + pre[1..];
    }
  }

  lemma PlainUnchanged(tb: seq<Month>, s: string)
    requires Good(tb) && !HasThai(s)
    ensures Years(tb, s) == s && Months(tb, s) == s
  {
    NoThaiNoMonth(tb, s);
    NoMonthUnchanged(tb, s);
  }

  lemma OneBeginsTheOther(s: string, a: string, b: string)
    requires HasPrefix(s, a) && HasPrefix(s, b)
    ensures HasPrefix(a, b) || HasPrefix(b, a)
  {
    if |b| <= |a| {
      assert s[..|b|] == a[..|b|];
    } else {
      assert s[..|a|] == b[..|a|];
    }
  }

  lemma OnlyThisMonth(tb: seq<Month>, k: nat, post: string)
    requires Good(tb) && k < |tb|
    ensures MonthHere(tb, tb[k].thai + post) == Some(k)
    ensures DatedHere(tb, tb[k].thai + post) == if GapBefore(post).Some? then Some(k) else None
  {
    var s := tb[k].thai + post;
    assert s[..|tb[k].thai|] == tb[k].thai && s[|tb[k].thai|..] == post;
    forall j | 0 <= j < |tb| && HasPrefix(s, tb[j].thai)
      ensures j == k
    {
      OneBeginsTheOther(s, tb[j].thai, tb[k].thai);
    }
  }

  lemma MonthAlone(tb: seq<Month>, k: nat, post: string)
    requires Good(tb) && k < |tb| && !HasThai(post)
    ensures Months(tb, tb[k].thai + post) == tb[k].english + post
  {
    assert GoodMonth(tb[k]);
    OnlyThisMonth(tb, k, post);
    assert (tb[k].thai + post)[|tb[k].thai|..] == post;
    PlainUnchanged(tb, post);
  }

  lemma YearIsPlain(y: nat, post: string)
    requires 1957 <= y <= 2056 && !HasThai(post)
    ensures !HasThai(" " + Itoa(y) + post)
  {
    ShiftedYear(y);
    var after := " " + Itoa(y) + post;
    forall i | 0 <= i < |after|
      ensures !IsThai(after[i])
    {
      if 1 <= i < 5 {
        assert after[i] == Itoa(y)[i - 1] && IsDigit(Itoa(y)[i - 1]);
      } else if i >= 5 {
        assert after[i] == post[i - 5];
      }
    }
  }

  lemma {:induction false} NoYearNoDate(tb: seq<Month>, u: string, post: string)
    requires Good(tb) && Pure(u) && !HasThai(post) && (post == "" || post[0] != '.') && GapBefore(post).None?
    ensures Years(tb, u + post) == u + post
    decreases |u|
  {
    if u == "" {
      assert u + post == post;
      PlainUnchanged(tb, post);
    } else {
      var s := u + post;
      forall k | 0 <= k < |tb|
        ensures !IsDated(s, tb[k].thai)
      {
        assert GoodMonth(tb[k]);
        NotDatedBefore(u, post, tb[k].thai);
      }
      assert s[1..] == u[1..] + post && s == [s[0]] + s[1..];
      NoYearNoDate(tb, u[1..], post);
    }
  }

  lemma MonthByItself(tb: seq<Month>, k: nat)
    requires Good(tb) && k < |tb|
    ensures Rewrite(tb, tb[k].thai) == tb[k].english
  {
    assert GoodMonth(tb[k]);
    var s := tb[k].thai;
    assert s + "" == s && tb[k].english + "" == tb[k].english;
    NoYearNoDate(tb, s, "");
    MonthAlone(tb, k, "");
  }
}
