/** What the lines of wrapThai begin and end with, character by character. */
module LineEdges {
  import opened Options
  import opened WrapThai

  // Sara a, mai han akat, sara am, the vowels above and below, mai yamok, the tone and other marks; and what closes a
  // bracket, a quotation, a clause or a sentence.
  predicate MayNotBegin(c: char) {
    || c in {'\U{0E30}', '\U{0E31}', '\U{0E33}', '\U{0E34}', '\U{0E35}', '\U{0E36}', '\U{0E37}', '\U{0E38}', '\U{0E39}', '\U{0E3A}'}
    || c in {'\U{0E45}', '\U{0E46}', '\U{0E47}', '\U{0E48}', '\U{0E49}', '\U{0E4A}', '\U{0E4B}', '\U{0E4C}', '\U{0E4D}', '\U{0E4E}'}
    || c in {')', ']', '}', '\U{201D}', '\U{2019}', '.', ',', ':', ';', '!', '?'}
  }

  // The vowels written before their consonant, and what opens a bracket or a quotation.
  predicate MayNotEnd(c: char) {
    c in {'\U{0E40}', '\U{0E41}', '\U{0E42}', '\U{0E43}', '\U{0E44}', '(', '[', '{', '\U{201C}', '\U{2018}'}
  }

  lemma BreaksBetween(a: char, b: char)
    ensures BreakAllowed(a, b) <==> !MayNotEnd(a) && !MayNotBegin(b)
  {}

  lemma {:induction false} StartsAfterSpaces(spans: seq<Span>, start: nat, end: nat, k: nat)
    requires Chained(spans, start, end) && k < |spans|
    ensures spans[k].start == if k == 0 then start else spans[k - 1].next
    decreases |spans|
  {
    if k > 0 {
      StartsAfterSpaces(spans[1..], spans[0].next, end, k - 1);
    }
  }

  lemma CutIsClean(measure: Measure, r: string, w: real, span: Span)
    requires GoodSpan(measure, r, w, span) && span.cut < |r|
    ensures !MayNotEnd(r[span.cut - 1]) && !MayNotBegin(r[span.cut])
  {
    BreaksBetween(r[span.cut - 1], r[span.cut]);
  }

  // The line that begins at `start` may begin there.
  ghost predicate BeginClean(r: string, start: nat) {
    0 < start < |r| && (r[start - 1] != ' ' ==> !MayNotBegin(r[start]))
  }

  // The line that begins at `start`, `line` when printed, may end where it does.
  ghost predicate EndClean(r: string, start: nat, line: string) {
    && start < |r| && line <= r[start..]
    && (line != "" && start + |line| < |r| && r[start + |line|] != ' ' ==> !MayNotEnd(line[|line| - 1]))
  }

  lemma LineWithin(r: string, start: nat, cut: nat, line: string)
    requires start <= cut <= |r| && line <= r[start..cut] && OnlySpaces(r[start..cut][|line|..])
    ensures line <= r[start..] && (start + |line| < cut ==> r[start + |line|] == ' ')
    ensures line != "" ==> line[|line| - 1] == r[start + |line| - 1]
  {
    assert r[start..cut] == r[start..][..cut - start];
    if start + |line| < cut {
      assert r[start + |line|] == r[start..cut][|line|..][0];
    }
  }

  lemma SpacesBefore(r: string, cut: nat, start: nat)
    requires cut < start <= |r| && OnlySpaces(r[cut..start])
    ensures r[start - 1] == ' '
  {
    assert r[cut..start][start - 1 - cut] == r[start - 1];
  }

  lemma BeginsWell(measure: Measure, r: string, w: real, before: Span)
    requires GoodSpan(measure, r, w, before)
    ensures before.next < |r| ==> BeginClean(r, before.next)
  {
    if before.cut < before.next {
      SpacesBefore(r, before.cut, before.next);
    } else if before.next < |r| {
      CutIsClean(measure, r, w, before);
    }
  }

  lemma EndsWell(measure: Measure, r: string, w: real, span: Span, line: string)
    requires GoodSpan(measure, r, w, span) && line == TrimRight(r[span.start..span.cut])
    ensures EndClean(r, span.start, line)
  {
    LineWithin(r, span.start, span.cut, line);
    if span.cut < |r| {
      CutIsClean(measure, r, w, span);
    }
  }

  lemma SpanOfLine(measure: Measure, r: string, w: real, k: nat, spans: seq<Span>, lines: seq<string>)
    requires spans == Spans(measure, r, w, 0) && lines == Lines(measure, r, w, 0) && k < |lines|
    ensures |spans| == |lines| && GoodSpan(measure, r, w, spans[k]) && lines[k] == TrimRight(r[spans[k].start..spans[k].cut])
    ensures spans[k].start == if k == 0 then 0 else spans[k - 1].next
  {
    EveryLineIsGood(measure, r, w, 0);
    StartsAfterSpaces(spans, 0, |r|, k);
  }

  lemma LineEndsWell(measure: Measure, r: string, w: real, k: nat, spans: seq<Span>, lines: seq<string>)
    requires spans == Spans(measure, r, w, 0) && lines == Lines(measure, r, w, 0) && k < |lines|
    ensures |spans| == |lines| && EndClean(r, spans[k].start, lines[k])
  {
    SpanOfLine(measure, r, w, k, spans, lines);
    EndsWell(measure, r, w, spans[k], lines[k]);
  }

  lemma SpanStarts(measure: Measure, r: string, w: real, k: nat, spans: seq<Span>, lines: seq<string>)
    requires spans == Spans(measure, r, w, 0) && lines == Lines(measure, r, w, 0) && 0 < k < |lines|
    ensures |spans| == |lines| && spans[k].start < |r| && spans[k].start == spans[k - 1].next
  {
    SpanOfLine(measure, r, w, k, spans, lines);
  }

  lemma NextBeginsWell(measure: Measure, r: string, w: real, k: nat, spans: seq<Span>, lines: seq<string>)
    requires spans == Spans(measure, r, w, 0) && lines == Lines(measure, r, w, 0) && k < |lines|
    ensures |spans| == |lines| && (spans[k].next < |r| ==> BeginClean(r, spans[k].next))
  {
    SpanOfLine(measure, r, w, k, spans, lines);
    BeginsWell(measure, r, w, spans[k]);
  }

  lemma LineBeginsWell(measure: Measure, r: string, w: real, k: nat, spans: seq<Span>, lines: seq<string>)
    requires spans == Spans(measure, r, w, 0) && lines == Lines(measure, r, w, 0) && 0 < k < |lines|
    ensures |spans| == |lines| && BeginClean(r, spans[k].start)
  {
    SpanStarts(measure, r, w, k, spans, lines);
    NextBeginsWell(measure, r, w, k - 1, spans, lines);
  }

  /** No printed line after the first begins with a mark or closing sign, and none before the last ends with a leading
      vowel or opening sign, unless the text itself has a space there. */
  lemma LinesBeginAndEndWell(measure: Measure, r: string, w: real, k: nat)
    requires k < |Lines(measure, r, w, 0)|
    ensures k < |Spans(measure, r, w, 0)|
    ensures var start := Spans(measure, r, w, 0)[k].start;
      EndClean(r, start, Lines(measure, r, w, 0)[k]) && (k > 0 ==> BeginClean(r, start))
  {
    var spans, lines := Spans(measure, r, w, 0), Lines(measure, r, w, 0);
    LineEndsWell(measure, r, w, k, spans, lines);
    if k > 0 {
      LineBeginsWell(measure, r, w, k, spans, lines);
    }
  }

  /** The comments promise more than the code keeps. Of the signs written after a consonant, sara aa and paiyannoi are
      not in the list, and a line may begin with them wherever it may begin with a consonant. */
  lemma SaraAaBreaksLikeAConsonant(a: char, sign: char)
    requires sign in {'\U{0E32}', '\U{0E2F}'}
    ensures BreakAllowed(a, sign) <==> BreakAllowed(a, '\U{0E01}')
  {
    BreaksBetween(a, sign);
    BreaksBetween(a, '\U{0E01}');
  }

  lemma OneClusterEach(measure: Measure, r: string, w: real)
    requires |r| == 2 && BreakAllowed(r[0], r[1]) && r[1] != ' ' && TooWide(measure, r, w, 0, 2)
    ensures CutAt(measure, r, w, 0) == 1 && CutAt(measure, r, w, 1) == 2
  {
    assert ClusterEnd(r, 0) == 1 && ClusterEnd(r, 1) == 2;
    assert Fill(measure, r, w, 0, 1, -1) == (1, -1);
    assert Fill(measure, r, w, 1, 2, -1) == (2, -1);
  }

  /** So a syllable of a consonant and sara aa is torn apart where it is too wide for its line. */
  lemma SaraAaIsTornOff(measure: Measure, r: string, w: real)
    requires r == "\U{0E01}\U{0E32}" && TooWide(measure, r, w, 0, 2)
    ensures Lines(measure, r, w, 0) == [r[..1], r[1..]]
  {
    BreaksBetween(r[0], r[1]);
    OneClusterEach(measure, r, w);
    assert SkipSpaces(r, 1) == 1 && SkipSpaces(r, 2) == 2;
    assert r[0..1] == r[..1] && r[1..2] == r[1..];
    assert TrimRight(r[..1]) == r[..1] && TrimRight(r[1..]) == r[1..];
    assert Lines(measure, r, w, 2) == [];
    assert Lines(measure, r, w, 1) == [r[1..]];
  }
}
