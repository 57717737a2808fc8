/** What maskDigits is for: no long number is left in the text, and a text without one is not touched. */
module DigitLeaks {
  import opened Text
  import opened DigitMask

  // ----- Long numbers, spelled out -----

  predicate IsRunChar(c: char) {
    '0' <= c <= '9' || c == ' ' || c == '-'
  }

  predicate IsWordChar(c: char) {
    'a' <= c <= 'z' || 'A' <= c <= 'Z' || '0' <= c <= '9' || c == '_' || c == '-'
  }

  function DigitsIn(s: string, i: nat, e: nat): set<nat>
    requires i <= e <= |s|
  {
    set k | i <= k < e && '0' <= s[k] <= '9'
  }

  // Digits, spaces and dashes from a digit to a digit, ten digits or more, with no further digit to be reached over spaces
  // and dashes on either side, and with no letter, digit, underscore or dash right before or after.
  ghost predicate IsLongNumber(s: string, i: nat, e: nat) {
    && i < e <= |s| && '0' <= s[i] <= '9' && '0' <= s[e - 1] <= '9' && (forall k :: i <= k < e ==> IsRunChar(s[k]))
    && |DigitsIn(s, i, e)| >= 10
    && (forall j :: 0 <= j < i && '0' <= s[j] <= '9' ==> exists k :: j <= k < i && !IsRunChar(s[k]))
    && (forall j :: e <= j < |s| && '0' <= s[j] <= '9' ==> exists k :: e <= k < j && !IsRunChar(s[k]))
    && (i > 0 ==> !IsWordChar(s[i - 1])) && (e < |s| ==> !IsWordChar(s[e]))
  }

  lemma {:induction false} CountIs(s: string, i: nat, e: nat)
    requires i <= e <= |s|
    ensures DigitCount(s, i, e) == |DigitsIn(s, i, e)| <= e - i
    decreases e
  {
    if i < e {
      CountIs(s, i, e - 1);
      assert DigitsIn(s, i, e) == DigitsIn(s, i, e - 1) + (if IsDigit(s[e - 1]) then {e - 1} else {});
    }
  }

  lemma JoinedIff(s: string, j: nat, k: nat)
    requires j <= k <= |s|
    ensures Joined(s, j, k) <==> !exists x :: j <= x < k && !IsRunChar(s[x])
  {
    assert forall x :: j <= x < k ==> (InRun(s[x]) <==> IsRunChar(s[x]));
  }

  lemma SpanIff(s: string, i: nat, e: nat)
    ensures IsDigitSpan(s, i, e) <==>
      && i < e <= |s| && '0' <= s[i] <= '9' && '0' <= s[e - 1] <= '9' && (forall k :: i <= k < e ==> IsRunChar(s[k]))
      && (forall j :: 0 <= j < i && '0' <= s[j] <= '9' ==> exists k :: j <= k < i && !IsRunChar(s[k]))
      && (forall j :: e <= j < |s| && '0' <= s[j] <= '9' ==> exists k :: e <= k < j && !IsRunChar(s[k]))
  {
    if i < e <= |s| {
      JoinedIff(s, i, e);
      forall j | 0 <= j < i
        ensures Joined(s, j, i) <==> !exists k :: j <= k < i && !IsRunChar(s[k])
      {
        JoinedIff(s, j, i);
      }
      forall j | e <= j < |s|
        ensures Joined(s, e, j) <==> !exists k :: e <= k < j && !IsRunChar(s[k])
      {
        JoinedIff(s, e, j);
      }
    }
  }

  lemma LongNumberIff(s: string, i: nat, e: nat)
    ensures IsLeak(s, i, e) <==> IsLongNumber(s, i, e)
  {
    SpanIff(s, i, e);
    if i < e <= |s| {
      CountIs(s, i, e);
      assert i > 0 ==> (IsWord(s[i - 1]) <==> IsWordChar(s[i - 1]));
      assert e < |s| ==> (IsWord(s[e]) <==> IsWordChar(s[e]));
    }
  }

  // ----- A piece of the text between two masks -----

  // What the span before the piece and the span after it say about its ends.
  ghost predicate Apart(s: string, lo: nat, hi: nat) {
    && lo <= hi <= |s|
    && (lo > 0 ==> forall k :: lo <= k < |s| && IsDigit(s[k]) ==> !Joined(s, lo, k))
    && (hi < |s| ==> forall j :: 0 <= j < hi && IsDigit(s[j]) ==> !Joined(s, j, hi))
  }

  // `out` holds the piece from lo to hi at `off`, with nothing before or behind it that belongs to a number.
  ghost predicate Placed(s: string, lo: nat, hi: nat, out: string, off: nat) {
    && lo <= hi <= |s| && off + (hi - lo) <= |out| && out[off..off + (hi - lo)] == s[lo..hi]
    && (lo == 0 ==> off == 0) && (hi == |s| ==> off + (hi - lo) == |out|)
  }

  lemma PieceAt(s: string, lo: nat, hi: nat, out: string, off: nat, k: nat)
    requires Placed(s, lo, hi, out, off) && lo <= k < hi
    ensures s[k] == out[k - lo + off]
  {
    assert s[lo..hi][k - lo] == out[off..off + (hi - lo)][k - lo];
  }

  lemma JoinedInPiece(s: string, lo: nat, hi: nat, out: string, off: nat, j: nat, k: nat)
    requires Placed(s, lo, hi, out, off) && lo <= j <= k <= hi
    ensures Joined(s, j, k) <==> Joined(out, j - lo + off, k - lo + off)
  {
    var d := off - lo;
    if Joined(out, j + d, k + d) {
      forall x | j <= x < k
        ensures InRun(s[x])
      {
        PieceAt(s, lo, hi, out, off, x);
        assert InRun(out[x + d]);
      }
    }
    if Joined(s, j, k) {
      forall y | j + d <= y < k + d
        ensures InRun(out[y])
      {
        PieceAt(s, lo, hi, out, off, y - d);
      }
    }
  }

  lemma {:induction false} CountInPiece(s: string, lo: nat, hi: nat, out: string, off: nat, i: nat, e: nat)
    requires Placed(s, lo, hi, out, off) && lo <= i <= e <= hi
    ensures DigitCount(s, i, e) == DigitCount(out, i - lo + off, e - lo + off)
    decreases e
  {
    if i < e {
      CountInPiece(s, lo, hi, out, off, i, e - 1);
      PieceAt(s, lo, hi, out, off, e - 1);
    }
  }

  lemma NothingBefore(s: string, lo: nat, hi: nat, out: string, off: nat, i: nat, j: nat)
    requires Apart(s, lo, hi) && Placed(s, lo, hi, out, off) && lo <= i < hi && IsDigit(s[i]) && j < i && IsDigit(s[j])
    requires forall y :: 0 <= y < i - lo + off && IsDigit(out[y]) ==> !Joined(out, y, i - lo + off)
    ensures !Joined(s, j, i)
  {
    if lo <= j {
      PieceAt(s, lo, hi, out, off, j);
      JoinedInPiece(s, lo, hi, out, off, j, i);
    } else {
      assert !Joined(s, lo, i);
    }
  }

  lemma NothingAfter(s: string, lo: nat, hi: nat, out: string, off: nat, e: nat, k: nat)
    requires Apart(s, lo, hi) && Placed(s, lo, hi, out, off) && lo < e <= hi && IsDigit(s[e - 1]) && e <= k < |s| && IsDigit(s[k])
    requires forall y :: e - lo + off <= y < |out| && IsDigit(out[y]) ==> !Joined(out, e - lo + off, y)
    ensures !Joined(s, e, k)
  {
    if k < hi {
      PieceAt(s, lo, hi, out, off, k);
      JoinedInPiece(s, lo, hi, out, off, e, k);
    } else {
      assert !Joined(s, e - 1, hi);
    }
  }

  lemma SpanInPiece(s: string, lo: nat, hi: nat, out: string, off: nat, i: nat, e: nat)
    requires Apart(s, lo, hi) && Placed(s, lo, hi, out, off) && lo <= i < e <= hi
    requires IsDigitSpan(out, i - lo + off, e - lo + off)
    ensures IsDigitSpan(s, i, e)
  {
    PieceAt(s, lo, hi, out, off, i);
    PieceAt(s, lo, hi, out, off, e - 1);
    JoinedInPiece(s, lo, hi, out, off, i, e);
    forall j | 0 <= j < i && IsDigit(s[j])
      ensures !Joined(s, j, i)
    {
      NothingBefore(s, lo, hi, out, off, i, j);
    }
    forall k | e <= k < |s| && IsDigit(s[k])
      ensures !Joined(s, e, k)
    {
      NothingAfter(s, lo, hi, out, off, e, k);
    }
  }

  lemma LeakInPiece(s: string, lo: nat, hi: nat, out: string, off: nat, i: nat, e: nat)
    requires Apart(s, lo, hi) && Placed(s, lo, hi, out, off) && lo <= i < e <= hi
    requires IsLeak(out, i - lo + off, e - lo + off)
    ensures IsLeak(s, i, e)
  {
    SpanInPiece(s, lo, hi, out, off, i, e);
    CountInPiece(s, lo, hi, out, off, i, e);
    assert Joined(s, lo, lo) && Joined(s, e - 1, e);
    if i > lo {
      PieceAt(s, lo, hi, out, off, i - 1);
    }
    if e < hi {
      PieceAt(s, lo, hi, out, off, e);
    }
  }

  // ----- The whole text -----

  // All leaks from `last` on are among the spans, the spans are leaks, and `last` is where a leak ends.
  ghost predicate Listed(s: string, spans: seq<(nat, nat)>, last: nat) {
    && Ordered(s, spans, last)
    && (forall m :: m in spans ==> IsLeak(s, m.0, m.1))
    && (forall i: nat, e: nat :: IsLeak(s, i, e) && last <= i ==> (i, e) in spans)
    && (last > 0 ==> exists i: nat :: IsLeak(s, i, last))
  }

  lemma {:induction false} SpansFollow(s: string, spans: seq<(nat, nat)>, from: nat, m: (nat, nat))
    requires Ordered(s, spans, from) && m in spans
    ensures spans[0].0 <= m.0 && from <= m.0 && (m == spans[0] || spans[0].1 <= m.0)
    decreases |spans|
  {
    if m != spans[0] {
      assert m in spans[1..];
      SpansFollow(s, spans[1..], spans[0].1, m);
    }
  }

  lemma ListedRest(s: string, spans: seq<(nat, nat)>, last: nat)
    requires Listed(s, spans, last) && spans != []
    ensures Listed(s, spans[1..], spans[0].1)
  {
    var (i0, e0) := spans[0];
    assert spans[0] in spans && IsLeak(s, i0, e0);
    forall i: nat, e: nat | IsLeak(s, i, e) && e0 <= i
      ensures (i, e) in spans[1..]
    {
      assert (i, e) in spans && (i, e) != spans[0];
    }
  }

  lemma PieceIsApart(s: string, spans: seq<(nat, nat)>, last: nat, hi: nat)
    requires Listed(s, spans, last) && hi == if spans == [] then |s| else spans[0].0
    ensures Apart(s, last, hi)
  {
    OrderedInside(s, spans, last);
    if spans != [] {
      assert spans[0] in spans && IsLeak(s, spans[0].0, spans[0].1);
    }
  }

  lemma NoLeakInPiece(s: string, spans: seq<(nat, nat)>, last: nat, hi: nat, out: string, off: nat, i: nat, e: nat)
    requires Listed(s, spans, last) && hi == if spans == [] then |s| else spans[0].0
    requires Placed(s, last, hi, out, off) && off <= i < e <= off + (hi - last)
    ensures !IsLeak(out, i, e)
  {
    PieceIsApart(s, spans, last, hi);
    if IsLeak(out, i, e) {
      var j, f := i - off + last, e - off + last;
      LeakInPiece(s, last, hi, out, off, j, f);
      SpansFollow(s, spans, last, (j, f));
      assert false;
    }
  }

  lemma MaskHidesNothing(out: string, p: nat, mask: string, i: nat, e: nat)
    requires mask == MASK && p + |mask| <= |out| && out[p..p + |mask|] == mask && i < p + |mask| && p < e
    ensures !IsLeak(out, i, e)
  {
    if IsLeak(out, i, e) {
      assert out[p] == out[p..p + |mask|][0] == '[';
      assert Joined(out, i, e);
      assert i > p;
      assert out[i] == mask[i - p] && IsDigit(out[i]);
      NoDigitInMask(mask, i - p);
    }
  }

  lemma NoDigitInMask(mask: string, k: nat)
    requires mask == MASK && k < |mask|
    ensures !IsDigit(mask[k])
  {}

  // `out` is what comes before, the piece up to the first span, the mask, and the rest.
  ghost predicate Laid(s: string, span: (nat, nat), last: nat, pre: string, out: string, mask: string, rest: string) {
    last <= span.0 <= |s| && out == pre + s[last..span.0] + mask + rest
  }

  lemma SpliceLayout(s: string, spans: seq<(nat, nat)>, last: nat, pre: string, out: string, mask: string)
    requires Listed(s, spans, last) && spans != [] && out == pre + Splice(s, last, spans) && mask == MASK
    ensures Listed(s, spans[1..], spans[0].1) && 0 < spans[0].1
    ensures Laid(s, spans[0], last, pre, out, mask, Splice(s, spans[0].1, spans[1..]))
  {
    ListedRest(s, spans, last);
    OrderedInside(s, spans, last);
    var piece, rest := s[last..spans[0].0], Splice(s, spans[0].1, spans[1..]);
    assert Splice(s, last, spans) == piece + mask + rest;
    assert pre + (piece + mask + rest) == pre + piece + mask + rest;
  }

  lemma NoLeakInLastPiece(s: string, last: nat, pre: string, out: string, i: nat, e: nat)
    requires Listed(s, [], last) && out == pre + s[last..] && (last == 0 ==> pre == "") && |pre| <= i < e <= |out|
    ensures !IsLeak(out, i, e)
  {
    assert out[|pre|..|pre| + (|s| - last)] == s[last..|s|];
    NoLeakInPiece(s, [], last, |s|, out, |pre|, i, e);
  }

  lemma NoLeakInFirstPiece(s: string, spans: seq<(nat, nat)>, last: nat, pre: string, out: string, mask: string, rest: string, i: nat, e: nat)
    requires Listed(s, spans, last) && spans != [] && (last == 0 ==> pre == "")
    requires Laid(s, spans[0], last, pre, out, mask, rest) && |pre| <= i < e <= |pre| + (spans[0].0 - last)
    ensures !IsLeak(out, i, e)
  {
    var piece := s[last..spans[0].0];
    assert out == pre + piece + (mask + rest);
    assert out[|pre|..|pre| + |piece|] == piece;
    assert spans[0] in spans && IsLeak(s, spans[0].0, spans[0].1);
    NoLeakInPiece(s, spans, last, spans[0].0, out, |pre|, i, e);
  }

  lemma NoLeakAtMask(s: string, span: (nat, nat), last: nat, pre: string, out: string, mask: string, rest: string, i: nat, e: nat)
    requires Laid(s, span, last, pre, out, mask, rest) && mask == MASK
    requires |pre| + (span.0 - last) < e <= |out| && i < |pre| + (span.0 - last) + |mask|
    ensures !IsLeak(out, i, e)
  {
    var p := |pre| + (span.0 - last);
    assert |pre + s[last..span.0]| == p;
    assert out[p..p + |mask|] == mask;
    MaskHidesNothing(out, p, mask, i, e);
  }

  lemma {:induction false} NoLeakBehind(s: string, spans: seq<(nat, nat)>, last: nat, pre: string, out: string, mask: string, i: nat, e: nat)
    requires Listed(s, spans, last) && out == pre + Splice(s, last, spans) && mask == MASK
    requires (last == 0 ==> pre == "") && |pre| <= i < e <= |out|
    ensures !IsLeak(out, i, e)
    decreases |spans|
  {
    if spans == [] {
      NoLeakInLastPiece(s, last, pre, out, i, e);
    } else {
      SpliceLayout(s, spans, last, pre, out, mask);
      var rest := Splice(s, spans[0].1, spans[1..]);
      var before := pre + s[last..spans[0].0] + mask;
      if e <= |pre| + (spans[0].0 - last) {
        NoLeakInFirstPiece(s, spans, last, pre, out, mask, rest, i, e);
      } else if i < |before| {
        NoLeakAtMask(s, spans[0], last, pre, out, mask, rest, i, e);
      } else {
        NoLeakBehind(s, spans[1..], spans[0].1, before, out, mask, i, e);
      }
    }
  }

  lemma AllListed(s: string)
    ensures Listed(s, Hidden(s, FindAll(s, 0)), 0)
  {
    var spans := Hidden(s, FindAll(s, 0));
    FindAllOrdered(s, 0);
    HiddenOrdered(s, FindAll(s, 0), 0, 0);
    forall m | m in spans
      ensures IsLeak(s, m.0, m.1)
    {
      ExactlyLeaksAreMasked(s, m.0, m.1);
    }
    forall i: nat, e: nat | IsLeak(s, i, e)
      ensures (i, e) in spans
    {
      ExactlyLeaksAreMasked(s, i, e);
    }
  }

  /** After masking there is no long number left anywhere in the text. */
  lemma NoLongNumberLeft(s: string, i: nat, e: nat)
    ensures !IsLongNumber(Masked(s), i, e)
  {
    AllListed(s);
    assert Masked(s) == "" + Splice(s, 0, Hidden(s, FindAll(s, 0)));
    if i < e <= |Masked(s)| {
      NoLeakBehind(s, Hidden(s, FindAll(s, 0)), 0, "", Masked(s), MASK, i, e);
    }
    LongNumberIff(Masked(s), i, e);
  }

  /** A text is left as it is exactly when it holds no long number; so masking twice is masking once. */
  lemma UntouchedIff(s: string)
    ensures Masked(s) == s <==> !exists i: nat, e: nat :: IsLongNumber(s, i, e)
    ensures Masked(Masked(s)) == Masked(s)
  {
    forall t: string, i: nat, e: nat
      ensures !IsLongNumber(Masked(t), i, e)
    {
      NoLongNumberLeft(t, i, e);
    }
    forall t: string | !exists i: nat, e: nat :: IsLongNumber(t, i, e)
      ensures Masked(t) == t
    {
      NothingListed(t);
    }
  }

  lemma NothingListed(s: string)
    requires forall i: nat, e: nat :: !IsLongNumber(s, i, e)
    ensures Masked(s) == s
  {
    AllListed(s);
    var spans := Hidden(s, FindAll(s, 0));
    if spans != [] {
      assert spans[0] in spans;
      LongNumberIff(s, spans[0].0, spans[0].1);
      assert false;
    }
    assert s[0..] == s;
  }
}
