/** The years of Dates as numbers: which four characters are a Buddhist-era year, and what they become. */
module DateYears {
  import opened Text
  import opened D = Dates

  // The number a text of digits spells.
  function Number(s: string): int {
    if s == "" then 0 else Number(s[..|s| - 1]) * 10 + (s[|s| - 1] as int - '0' as int)
  }

  lemma NumberOfFour(s: string)
    requires |s| == 4
    ensures Number(s) == (((s[0] as int - 48) * 10 + (s[1] as int - 48)) * 10 + (s[2] as int - 48)) * 10 + (s[3] as int - 48)
  {
    var a, b, c := s[..3], s[..2], s[..1];
    assert a[..2] == b && b[..1] == c && c[..0] == "";
    assert Number(c) == s[0] as int - 48;
    assert Number(b) == Number(c) * 10 + (s[1] as int - 48);
    assert Number(a) == Number(b) * 10 + (s[2] as int - 48);
  }

  /** A year begins here exactly when the next four characters are digits that spell a number from 2500 to 2599, and that
      is the year. */
  lemma YearIff(t: string)
    ensures IsBuddhist(t) <==> |t| >= 4 && (forall k :: 0 <= k < 4 ==> '0' <= t[k] <= '9') && 2500 <= Number(t[..4]) <= 2599
    ensures IsBuddhist(t) ==> YearOf(t) == Number(t[..4])
  {
    if |t| >= 4 {
      NumberOfFour(t[..4]);
      assert forall k :: 0 <= k < 4 ==> t[..4][k] == t[k];
    }
  }

  lemma FourDigits(n: nat)
    requires 1000 <= n < 10000
    ensures Itoa(n) == [Digit(n / 1000), Digit(n / 100 % 10), Digit(n / 10 % 10), Digit(n % 10)]
  {
    assert Itoa(n / 1000) == [Digit(n / 1000)];
    assert Itoa(n / 100) == Itoa(n / 1000) + [Digit(n / 100 % 10)];
    assert Itoa(n / 10) == Itoa(n / 100) + [Digit(n / 10 % 10)];
  }

  lemma FourDigitsSpell(n: nat, e: string)
    requires 1000 <= n < 10000 && e == Itoa(n)
    ensures |e| == 4 && (forall k :: 0 <= k < 4 ==> '0' <= e[k] <= '9') && Number(e) == n
  {
    FourDigits(n);
    NumberOfFour(e);
    var a, b := n / 100, n / 10;
    assert a / 10 == n / 1000 && b / 10 == a;
    assert n / 1000 * 10 + a % 10 == a && a * 10 + b % 10 == b && b * 10 + n % 10 == n;
  }

  /** It becomes four digits that spell the number less 543. */
  lemma YearConverts(t: string, e: string)
    requires IsBuddhist(t) && e == Itoa(YearOf(t) - 543)
    ensures |e| == 4 && (forall k :: 0 <= k < 4 ==> '0' <= e[k] <= '9') && Number(e) == Number(t[..4]) - 543
  {
    YearIff(t);
    FourDigitsSpell(YearOf(t) - 543, e);
  }

  /** The gap before it is any run of spaces, tabs, line feeds, form feeds and carriage returns. */
  lemma GapIff(t: string)
    ensures GapBefore(t).Some? <==>
      exists n: nat :: n <= |t| && IsBuddhist(t[n..]) && forall k :: 0 <= k < n ==> t[k] in {' ', '\t', '\n', '\U{000C}', '\r'}
    decreases |t|
  {
    if GapBefore(t).Some? {
      var n := GapBefore(t).value;
      assert forall k :: 0 <= k < n ==> IsGap(t[k]) ==> t[k] in {' ', '\t', '\n', '\U{000C}', '\r'};
    }
    if n: nat :| n <= |t| && IsBuddhist(t[n..]) && forall k :: 0 <= k < n ==> t[k] in {' ', '\t', '\n', '\U{000C}', '\r'} {
      GapFound(t, n);
    }
  }

  lemma {:induction false} GapFound(t: string, n: nat)
    requires n <= |t| && IsBuddhist(t[n..]) && forall k :: 0 <= k < n ==> t[k] in {' ', '\t', '\n', '\U{000C}', '\r'}
    ensures GapBefore(t).Some?
    decreases n
  {
    if n == 0 {
      assert t[0..] == t;
    } else {
      assert t[1..][n - 1..] == t[n..];
      assert forall k :: 0 <= k < n - 1 ==> t[1..][k] == t[k + 1];
      GapFound(t[1..], n - 1);
      assert t[0] in {' ', '\t', '\n', '\U{000C}', '\r'};
    }
  }
}
