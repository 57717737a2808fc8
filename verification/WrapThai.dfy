/** wrapThai: lines filled cluster by cluster, cut at the end of the line or, if that keeps at least 60% of
    the width, at the last space. */
module WrapThai {
  import opened Options

  // The width of a text in the current font; measuring may fail.
  type Measure = string -> Option<real>

  predicate IsThaiTrailing(r: char) {
    || r == '\U{0E30}' || r == '\U{0E31}' || r == '\U{0E33}'
    || '\U{0E34}' <= r <= '\U{0E3A}'
    || '\U{0E45}' <= r <= '\U{0E4E}'
  }

  const OPENERS := "([{\U{201C}\U{2018}"
  const CLOSERS := ")]}\U{201D}\U{2019}.,:;!?"

  predicate BreakAllowed(a: char, b: char) {
    && !IsThaiTrailing(b)
    && !('\U{0E40}' <= a <= '\U{0E44}' || a in OPENERS)
    && b !in CLOSERS
  }

  // A line may end before position c.
  predicate IsBreak(r: string, c: nat) {
    c == |r| || (0 < c < |r| && BreakAllowed(r[c - 1], r[c]))
  }

  // The end of the cluster that starts at `from`: the first break after it.
  function ClusterEnd(r: string, from: nat): (next: nat)
    requires from < |r|
    ensures from < next <= |r| && IsBreak(r, next) && forall c :: from < c < next ==> !IsBreak(r, c)
  {
    GlueFrom(r, from, from + 1)
  }

  function GlueFrom(r: string, from: nat, at: nat): (next: nat)
    requires from < at <= |r|
    requires forall c :: from < c < at ==> !IsBreak(r, c)
    ensures at <= next <= |r| && IsBreak(r, next) && forall c :: from < c < next ==> !IsBreak(r, c)
    decreases |r| - at
  {
    if at < |r| && !BreakAllowed(r[at - 1], r[at]) then GlueFrom(r, from, at + 1) else at
  }

  predicate TooWide(measure: Measure, r: string, w: real, start: nat, end: nat)
    requires start <= end <= |r|
  {
    var tw := measure(r[start..end]);
    tw.Some? && tw.value > w
  }

  // The inner loop: where a line started at `start` is full, and the last space break in it (-1 if none).
  function Fill(measure: Measure, r: string, w: real, start: nat, end: nat, lastSpace: int): (f: (nat, int))
    requires start <= end <= |r|
    decreases |r| - end
  {
    if end == |r| then
      (end, lastSpace)
    else
      var next := ClusterEnd(r, end);
      if TooWide(measure, r, w, start, next) && end > start then
        (end, lastSpace)
      else
        Fill(measure, r, w, start, next, if next < |r| && r[next] == ' ' then next else lastSpace)
  }

  // What is known of a line from `start` whose clusters up to `end` were accepted.
  ghost predicate Accepted(measure: Measure, r: string, w: real, start: nat, end: nat) {
    && start < end <= |r| && IsBreak(r, end)
    && (!TooWide(measure, r, w, start, end) || end == ClusterEnd(r, start))
  }

  ghost predicate SpaceBreak(measure: Measure, r: string, w: real, start: nat, c: int) {
    start < c < |r| && r[c] == ' ' && Accepted(measure, r, w, start, c)
  }

  // `lastSpace` is the last space break of the line up to `end`, or -1.
  ghost predicate IsLastSpace(measure: Measure, r: string, w: real, start: nat, end: nat, lastSpace: int) {
    && (lastSpace == -1 || (SpaceBreak(measure, r, w, start, lastSpace) && lastSpace <= end))
    && forall c: nat :: start < c <= end && lastSpace < c < |r| && r[c] == ' ' ==> !IsBreak(r, c)
  }

  lemma {:induction false} FillIsGreedy(measure: Measure, r: string, w: real, start: nat, end: nat, lastSpace: int)
    requires start <= end <= |r| && start < |r|
    requires end == start || Accepted(measure, r, w, start, end)
    requires IsLastSpace(measure, r, w, start, end, lastSpace)
    ensures var (full, space) := Fill(measure, r, w, start, end, lastSpace);
      && end <= full && Accepted(measure, r, w, start, full)
      && (full < |r| ==> TooWide(measure, r, w, start, ClusterEnd(r, full)))
      && IsLastSpace(measure, r, w, start, full, space)
    decreases |r| - end
  {
    if end < |r| {
      var next := ClusterEnd(r, end);
      if !(TooWide(measure, r, w, start, next) && end > start) {
        var space := if next < |r| && r[next] == ' ' then next else lastSpace;
        FillIsGreedy(measure, r, w, start, next, space);
      }
    }
  }

  function FullAt(measure: Measure, r: string, w: real, start: nat): nat
    requires start < |r|
  {
    Fill(measure, r, w, start, start, -1).0
  }

  // Where the line that starts at `start` is cut.
  function CutAt(measure: Measure, r: string, w: real, start: nat): (cut: nat)
    requires start < |r|
    ensures start < cut <= |r|
  {
    FillIsGreedy(measure, r, w, start, start, -1);
    var (end, lastSpace) := Fill(measure, r, w, start, start, -1);
    if end < |r| && lastSpace > start && WideEnough(measure, r, w, start, lastSpace) then lastSpace else end
  }

  predicate WideEnough(measure: Measure, r: string, w: real, start: nat, end: nat)
    requires start <= end <= |r|
  {
    var sw := measure(r[start..end]);
    sw.Some? && sw.value >= 0.6 * w
  }

  function SkipSpaces(r: string, i: nat): (j: nat)
    requires i <= |r|
    ensures i <= j <= |r| && OnlySpaces(r[i..j]) && (j < |r| ==> r[j] != ' ')
    decreases |r| - i
  {
    if i < |r| && r[i] == ' ' then
      var j := SkipSpaces(r, i + 1);
      assert r[i..j] == [' '] + r[i + 1..j];
      j
    else i
  }

  predicate OnlySpaces(s: string) {
    forall k :: 0 <= k < |s| ==> s[k] == ' '
  }

  function TrimRight(s: string): (t: string)
    ensures t <= s && OnlySpaces(s[|t|..]) && (t != [] ==> t[|t| - 1] != ' ')
  {
    if s != [] && s[|s| - 1] == ' ' then
      var t := TrimRight(s[..|s| - 1]);
      assert s[|t|..] == s[..|s| - 1][|t|..] + [' '];
      t
    else s
  }

  // One line: where it starts, where it is cut, and where the next one starts.
  datatype Span = Span(start: nat, cut: nat, next: nat)

  function Spans(measure: Measure, r: string, w: real, start: nat): seq<Span>
    requires start <= |r|
    decreases |r| - start
  {
    if start == |r| then []
    else
      var cut := CutAt(measure, r, w, start);
      var next := SkipSpaces(r, cut);
      [Span(start, cut, next)] + Spans(measure, r, w, next)
  }

  function Lines(measure: Measure, r: string, w: real, start: nat): seq<string>
    requires start <= |r|
    decreases |r| - start
  {
    if start == |r| then []
    else
      var cut := CutAt(measure, r, w, start);
      [TrimRight(r[start..cut])] + Lines(measure, r, w, SkipSpaces(r, cut))
  }

  /** wrapThai's outer loop. */
  method Wrap(measure: Measure, r: string, w: real) returns (lines: seq<string>)
    ensures lines == Lines(measure, r, w, 0)
  {
    lines := [];
    var start := 0;
    while start < |r|
      invariant start <= |r|
      invariant lines + Lines(measure, r, w, start) == Lines(measure, r, w, 0)
      decreases |r| - start
    {
      var cut := FindCut(measure, r, w, start);
      LinesStep(measure, r, w, start, lines);
      lines := lines + [TrimRight(r[start..cut])];
      start := cut;
      while start < |r| && r[start] == ' '
        invariant cut <= start <= |r| && SkipSpaces(r, start) == SkipSpaces(r, cut)
      {
        start := start + 1;
      }
    }
  }

  lemma LinesStep(measure: Measure, r: string, w: real, start: nat, lines: seq<string>)
    requires start < |r|
    ensures var cut := CutAt(measure, r, w, start);
      lines + Lines(measure, r, w, start) == lines + [TrimRight(r[start..cut])] + Lines(measure, r, w, SkipSpaces(r, cut))
  {}

  /** The innermost loop: the end of the cluster after `end`. */
  method GlueCluster(r: string, end: nat) returns (next: nat)
    requires end < |r|
    ensures next == ClusterEnd(r, end)
  {
    next := end + 1;
    while next < |r| && !BreakAllowed(r[next - 1], r[next])
      invariant end < next <= |r|
      invariant forall c :: end < c < next ==> !IsBreak(r, c)
    {
      next := next + 1;
    }
    assert IsBreak(r, next) && IsBreak(r, ClusterEnd(r, end));
  }

  /** The loop over clusters of one line, and the choice of its cut. */
  method FindCut(measure: Measure, r: string, w: real, start: nat) returns (cut: nat)
    requires start < |r|
    ensures cut == CutAt(measure, r, w, start)
  {
    var end, lastSpace := start, -1;
    while end < |r|
      invariant start <= end <= |r| && (lastSpace == -1 || start < lastSpace <= end)
      invariant Fill(measure, r, w, start, end, lastSpace) == Fill(measure, r, w, start, start, -1)
      decreases |r| - end
    {
      var next := GlueCluster(r, end);
      var tw := measure(r[start..next]);
      if tw.Some? && tw.value > w && end > start {
        break;
      }
      end := next;
      if end < |r| && r[end] == ' ' {
        lastSpace := end;
      }
    }
    cut := end;
    if end < |r| && lastSpace > start {
      var sw := measure(r[start..lastSpace]);
      if sw.Some? && sw.value >= 0.6 * w {
        cut := lastSpace;
      }
    }
  }

  // ----- Nothing but spaces is lost -----

  // The spaces between each line and the next (or the end).
  function Gaps(measure: Measure, r: string, w: real, start: nat): seq<string>
    requires start <= |r|
    decreases |r| - start
  {
    if start == |r| then []
    else
      var cut := CutAt(measure, r, w, start);
      [GapAfter(r, start, cut)] + Gaps(measure, r, w, SkipSpaces(r, cut))
  }

  function GapAfter(r: string, start: nat, cut: nat): (gap: string)
    requires start <= cut <= |r|
    ensures OnlySpaces(gap) && r[start..] == TrimRight(r[start..cut]) + gap + r[SkipSpaces(r, cut)..]
  {
    var line, next := TrimRight(r[start..cut]), SkipSpaces(r, cut);
    assert line == r[start..start + |line|];
    assert r[start + |line|..next] == r[start..cut][|line|..] + r[cut..next];
    assert r[start..] == r[start..start + |line|] + r[start + |line|..next] + r[next..];
    r[start + |line|..next]
  }

  function Weave(lines: seq<string>, gaps: seq<string>): string
    requires |lines| == |gaps|
  {
    if lines == [] then "" else lines[0] + gaps[0] + Weave(lines[1..], gaps[1..])
  }

  /** The input is its lines, in order, with runs of spaces and nothing else in between. */
  lemma {:induction false} LinesKeepTheText(measure: Measure, r: string, w: real, start: nat)
    requires start <= |r|
    ensures |Lines(measure, r, w, start)| == |Gaps(measure, r, w, start)|
    ensures Weave(Lines(measure, r, w, start), Gaps(measure, r, w, start)) == r[start..]
    ensures forall gap :: gap in Gaps(measure, r, w, start) ==> OnlySpaces(gap)
    decreases |r| - start
  {
    if start < |r| {
      var cut := CutAt(measure, r, w, start);
      var next := SkipSpaces(r, cut);
      var lines, gaps := Lines(measure, r, w, next), Gaps(measure, r, w, next);
      LinesKeepTheText(measure, r, w, next);
      WeaveCons(TrimRight(r[start..cut]), GapAfter(r, start, cut), lines, gaps);
    }
  }

  lemma WeaveCons(line: string, gap: string, lines: seq<string>, gaps: seq<string>)
    requires |lines| == |gaps|
    ensures Weave([line] + lines, [gap] + gaps) == line + gap + Weave(lines, gaps)
  {
    assert ([line] + lines)[1..] == lines && ([gap] + gaps)[1..] == gaps;
  }

  // ----- Every line is cut where it may be, and as late as it can be -----

  // The cut is the last position that fits ...
  ghost predicate CutWhereFull(measure: Measure, r: string, w: real, start: nat, cut: nat)
    requires start < cut <= |r|
  {
    cut == FullAt(measure, r, w, start) && (cut < |r| ==> TooWide(measure, r, w, start, ClusterEnd(r, cut)))
  }

  // ... or the last space before it, at 60% of the width or more.
  ghost predicate CutAtSpace(measure: Measure, r: string, w: real, start: nat, cut: nat)
    requires start < cut <= |r|
  {
    var full := FullAt(measure, r, w, start);
    && cut <= full < |r| && r[cut] == ' ' && WideEnough(measure, r, w, start, cut)
    && forall c: nat :: cut < c <= full && r[c] == ' ' ==> !IsBreak(r, c)
  }

  ghost predicate GoodSpan(measure: Measure, r: string, w: real, span: Span) {
    && span.start < span.cut <= |r| && IsBreak(r, span.cut)
    // the line fits, or is one unbreakable cluster (or could not be measured)
    && (!TooWide(measure, r, w, span.start, span.cut) || span.cut == ClusterEnd(r, span.start))
    && (CutWhereFull(measure, r, w, span.start, span.cut) || CutAtSpace(measure, r, w, span.start, span.cut))
    && span.next == SkipSpaces(r, span.cut)
  }

  lemma CutIsGood(measure: Measure, r: string, w: real, start: nat)
    requires start < |r|
    ensures var cut := CutAt(measure, r, w, start); GoodSpan(measure, r, w, Span(start, cut, SkipSpaces(r, cut)))
  {
    FillIsGreedy(measure, r, w, start, start, -1);
  }

  // Each span starts where the one before says, and the last one ends the text.
  ghost predicate Chained(spans: seq<Span>, start: nat, end: nat) {
    if spans == [] then start == end else spans[0].start == start && Chained(spans[1..], spans[0].next, end)
  }

  /** For any text, width and font: every line starts right after the spaces that follow the previous cut, is
      cut where a break is allowed, and is as long as the rules let it be. */
  lemma {:induction false} EveryLineIsGood(measure: Measure, r: string, w: real, start: nat)
    requires start <= |r|
    ensures var spans := Spans(measure, r, w, start); var lines := Lines(measure, r, w, start);
      && |spans| == |lines| && Chained(spans, start, |r|)
      && forall k :: 0 <= k < |spans| ==>
           GoodSpan(measure, r, w, spans[k]) && lines[k] == TrimRight(r[spans[k].start..spans[k].cut])
    decreases |r| - start
  {
    if start < |r| {
      var cut := CutAt(measure, r, w, start);
      var next := SkipSpaces(r, cut);
      CutIsGood(measure, r, w, start);
      EveryLineIsGood(measure, r, w, next);
      assert Spans(measure, r, w, start)[1..] == Spans(measure, r, w, next);
    }
  }

  // ----- Widths that add up -----

  function Width(advance: char -> real, s: string): real {
    if s == [] then 0.0 else advance(s[0]) + Width(advance, s[1..])
  }

  lemma {:induction false} PrefixIsNarrower(advance: char -> real, s: string, t: string)
    requires (forall c :: advance(c) >= 0.0) && t <= s
    ensures 0.0 <= Width(advance, t) <= Width(advance, s)
    decreases |s|
  {
    if t != [] {
      PrefixIsNarrower(advance, s[1..], t[1..]);
    } else if s != [] {
      PrefixIsNarrower(advance, s[1..], []);
    }
  }

  /** When widths are sums of non-negative rune widths, every printed line fits, or is a single cluster. */
  lemma EveryPrintedLineFits(advance: char -> real, r: string, w: real, k: nat)
    requires forall c :: advance(c) >= 0.0
    requires k < |Lines(s => Some(Width(advance, s)), r, w, 0)|
    ensures var measure: Measure := s => Some(Width(advance, s)); var line := Lines(measure, r, w, 0)[k];
      Width(advance, line) <= w ||
      (k < |Spans(measure, r, w, 0)| &&
       var start := Spans(measure, r, w, 0)[k].start; start < |r| && line == TrimRight(r[start..ClusterEnd(r, start)]))
  {
    var measure: Measure := s => Some(Width(advance, s));
    EveryLineIsGood(measure, r, w, 0);
    var Span(start, cut, next) := Spans(measure, r, w, 0)[k];
    assert GoodSpan(measure, r, w, Spans(measure, r, w, 0)[k]);
    PrefixIsNarrower(advance, r[start..cut], TrimRight(r[start..cut]));
  }
}
