/** Full-text queries and the highlighting of what they find (src/tui/search.rs, src/tui/mod.rs). */
module Highlight {
  import opened Wrappers
  import opened Text

  datatype Range = Range(start: nat, end: nat)

  datatype Span = Span(text: string, highlighted: bool)

  /** A query is plain text, or a pattern behind "re:". */
  datatype FullTextMatcher = Plain(query: string) | Regex(pattern: string)

  function ParseMatcher(query: string): (r: Option<FullTextMatcher>)
    ensures r.None? <==> Trim(query) == ""
    ensures r.Some? && r.value.Plain? ==> r.value.query == Trim(query) && !("re:" <= Trim(query))
    ensures r.Some? && r.value.Regex? ==> Trim(query) == "re:" + r.value.pattern
  {
    var q := Trim(query);
    if q == "" then None
    else if "re:" <= q then Some(Regex(q[3..]))
    else Some(Plain(q))
  }

  // ----- searching a line

  /** The start of the i-th gap between ranges, before the i-th range. */
  function GapStart(ranges: seq<Range>, i: nat): nat
    requires i <= |ranges|
  {
    if i == 0 then 0 else ranges[i - 1].end
  }

  predicate IsInGap(ranges: seq<Range>, i: nat, k: nat)
    requires i <= |ranges|
  {
    GapStart(ranges, i) <= k && (i < |ranges| ==> k < ranges[i].start)
  }

  predicate FollowsGap(ranges: seq<Range>, i: nat)
    requires i < |ranges|
  {
    GapStart(ranges, i) <= ranges[i].start < ranges[i].end
  }

  /** Ordered, disjoint and non-empty pieces of a line. */
  predicate AreRanges(line: string, ranges: seq<Range>) {
    && (forall i :: 0 <= i < |ranges| ==> FollowsGap(ranges, i))
    && GapStart(ranges, |ranges|) <= |line|
  }

  lemma {:induction false} GapsGrow(ranges: seq<Range>, i: nat, j: nat)
    requires forall k :: 0 <= k < |ranges| ==> FollowsGap(ranges, k)
    requires i <= j <= |ranges|
    ensures GapStart(ranges, i) <= GapStart(ranges, j)
  {
    if i < j {
      GapsGrow(ranges, i, j - 1);
      assert FollowsGap(ranges, j - 1);
    }
  }

  predicate IsInRange(ranges: seq<Range>, k: nat) {
    exists i :: 0 <= i < |ranges| && ranges[i].start <= k < ranges[i].end
  }

  /** Where the query occurs. */
  ghost function Hits(line: string, query: string): set<nat> {
    set j | 0 <= j <= |line| && OccursAt(line, query, j)
  }

  ghost predicate IsTaken(hits: set<nat>, width: nat, ranges: seq<Range>, i: nat)
    requires i < |ranges|
  {
    FollowsGap(ranges, i) && ranges[i].start in hits && ranges[i].end == ranges[i].start + width
  }

  /** Hits taken from the left without overlap: no hit begins in a gap. */
  ghost predicate TakesHits(hits: set<nat>, width: nat, ranges: seq<Range>) {
    && (forall i :: 0 <= i < |ranges| ==> IsTaken(hits, width, ranges, i))
    && (forall i, j :: 0 <= i <= |ranges| && j in hits ==> !IsInGap(ranges, i, j))
  }

  ghost predicate IsScan(line: string, query: string, ranges: seq<Range>) {
    TakesHits(Hits(line, query), |query|, ranges)
  }

  method FindAllInLine(line: string, query: string) returns (ranges: seq<Range>)
    ensures query == "" ==> ranges == []
    ensures query != "" ==> IsScan(line, query, ranges)
  {
    if query == "" {
      return [];
    }
    ghost var hits := Hits(line, query);
    ranges := [];
    var offset := 0;
    while true
      invariant offset <= |line| && TakesUpTo(hits, |query|, ranges, offset)
      decreases |line| - offset
    {
      SearchFrom(line, query, offset);
      var found := Find(line[offset..], query);
      if found.None? {
        return;
      }
      var start, end := offset + found.value, offset + found.value + |query|;
      TakeNext(hits, |query|, ranges, offset, start);
      ranges := ranges + [Range(start, end)];
      offset := end;
    }
  }

  /** All hits up to the end of the last range have been dealt with. */
  ghost predicate TakesUpTo(hits: set<nat>, width: nat, ranges: seq<Range>, offset: nat) {
    && offset == GapStart(ranges, |ranges|)
    && (forall i :: 0 <= i < |ranges| ==> IsTaken(hits, width, ranges, i))
    && (forall i, j :: 0 <= i < |ranges| && j in hits ==> !IsInGap(ranges, i, j))
  }

  lemma TakeNext(hits: set<nat>, width: nat, ranges: seq<Range>, offset: nat, start: nat)
    requires width > 0
    requires TakesUpTo(hits, width, ranges, offset) && offset <= start && start in hits
    requires forall j :: offset <= j < start ==> j !in hits
    ensures TakesUpTo(hits, width, ranges + [Range(start, start + width)], start + width)
  {
    var more := ranges + [Range(start, start + width)];
    forall i | 0 <= i < |more| ensures IsTaken(hits, width, more, i) {
      if i < |ranges| {
        assert IsTaken(hits, width, ranges, i);
      }
    }
    forall i, j | 0 <= i < |more| && j in hits ensures !IsInGap(more, i, j) {
      if i < |ranges| {
        assert !IsInGap(ranges, i, j);
      }
    }
  }

  /** Searching the rest of a line is searching the line from there. */
  lemma SearchFrom(line: string, query: string, offset: nat)
    requires offset <= |line|
    ensures
      var found := Find(line[offset..], query);
      && (found.Some? ==> offset + found.value + |query| <= |line| && offset + found.value in Hits(line, query))
      && forall j :: offset <= j && (found.Some? ==> j < offset + found.value) ==> j !in Hits(line, query)
  {
    var found := Find(line[offset..], query);
    assert line == line[..offset] + line[offset..];
    forall j | offset <= j ensures OccursAt(line, query, j) <==> OccursAt(line[offset..], query, j - offset) {
      OccursInTail(line[..offset], line[offset..], query, j - offset);
    }
  }

  /** The scan of a line is unique. */
  lemma {:induction false} ScanIsUnique(hits: set<nat>, width: nat, a: seq<Range>, b: seq<Range>)
    requires TakesHits(hits, width, a) && TakesHits(hits, width, b)
    ensures a == b
  {
    SameScanUpTo(hits, width, a, b, if |a| <= |b| then |a| else |b|);
    if |a| < |b| {
      NextIsCovered(hits, width, b, a, |a|);
    } else if |b| < |a| {
      NextIsCovered(hits, width, a, b, |b|);
    }
  }

  lemma {:induction false} SameScanUpTo(hits: set<nat>, width: nat, a: seq<Range>, b: seq<Range>, n: nat)
    requires TakesHits(hits, width, a) && TakesHits(hits, width, b)
    requires n <= |a| && n <= |b|
    ensures forall i :: 0 <= i < n ==> a[i] == b[i]
  {
    if n > 0 {
      SameScanUpTo(hits, width, a, b, n - 1);
      NextIsCovered(hits, width, a, b, n - 1);
      NextIsCovered(hits, width, b, a, n - 1);
    }
  }

  lemma NextIsCovered(hits: set<nat>, width: nat, a: seq<Range>, b: seq<Range>, i: nat)
    requires TakesHits(hits, width, a) && TakesHits(hits, width, b)
    requires i < |a| && i <= |b| && forall k :: 0 <= k < i ==> a[k] == b[k]
    ensures i < |b| && b[i].start <= a[i].start
    ensures b[i].end == b[i].start + width && a[i].end == a[i].start + width
  {
    assert IsTaken(hits, width, a, i);
    assert !IsInGap(b, i, a[i].start);
    assert i < |b| ==> IsTaken(hits, width, b, i);
  }

  /** A place that is in no range is in a gap. */
  lemma {:induction false} RangeOrGap(ranges: seq<Range>, k: nat, n: nat) returns (i: nat)
    requires n <= |ranges| && (n < |ranges| ==> k < ranges[n].start)
    ensures IsInRange(ranges, k) || (i <= |ranges| && IsInGap(ranges, i, k))
  {
    i := n;
    if GapStart(ranges, n) > k && k < ranges[n - 1].start {
      i := RangeOrGap(ranges, k, n - 1);
    }
  }

  // ----- spans

  function TextOf(spans: seq<Span>): string {
    if spans == [] then "" else TextOf(spans[..|spans| - 1]) + spans[|spans| - 1].text
  }

  function Repeat(b: bool, n: nat): (r: seq<bool>)
    ensures |r| == n && forall k :: 0 <= k < n ==> r[k] == b
  {
    seq(n, _ => b)
  }

  /** Which characters are highlighted. */
  function FlagsOf(spans: seq<Span>): (r: seq<bool>)
    ensures |r| == |TextOf(spans)|
  {
    if spans == [] then []
    else
      var last := spans[|spans| - 1];
      FlagsOf(spans[..|spans| - 1]) + Repeat(last.highlighted, |last.text|)
  }

  lemma SpanAdded(spans: seq<Span>, text: string, highlighted: bool)
    ensures TextOf(spans + [Span(text, highlighted)]) == TextOf(spans) + text
    ensures FlagsOf(spans + [Span(text, highlighted)]) == FlagsOf(spans) + Repeat(highlighted, |text|)
  {
    assert (spans + [Span(text, highlighted)])[..|spans|] == spans;
  }

  lemma OneSpan(text: string, highlighted: bool)
    ensures TextOf([Span(text, highlighted)]) == text
    ensures FlagsOf([Span(text, highlighted)]) == Repeat(highlighted, |text|)
  {
    SpanAdded([], text, highlighted);
    assert [] + [Span(text, highlighted)] == [Span(text, highlighted)];
    assert [] + Repeat(highlighted, |text|) == Repeat(highlighted, |text|);
  }

  lemma NoSpans()
    ensures TextOf([]) == "" && FlagsOf([]) == []
  {
  }

  lemma {:induction false} SpansConcat(a: seq<Span>, b: seq<Span>)
    ensures TextOf(a + b) == TextOf(a) + TextOf(b)
    ensures FlagsOf(a + b) == FlagsOf(a) + FlagsOf(b)
  {
    hide TextOf, FlagsOf;
    if b == [] {
      NoSpans();
      assert a + b == a;
    } else {
      var init, last := b[..|b| - 1], b[|b| - 1];
      SpansConcat(a, init);
      assert a + b == a + init + [last];
      LastSpan(a, init, last);
      assert b == init + [last];
    }
  }

  lemma LastSpan(a: seq<Span>, init: seq<Span>, last: Span)
    requires TextOf(a + init) == TextOf(a) + TextOf(init) && FlagsOf(a + init) == FlagsOf(a) + FlagsOf(init)
    ensures TextOf(a + init + [last]) == TextOf(a) + TextOf(init + [last])
    ensures FlagsOf(a + init + [last]) == FlagsOf(a) + FlagsOf(init + [last])
  {
    SpanAdded(a + init, last.text, last.highlighted);
    SpanAdded(init, last.text, last.highlighted);
    SeqAssoc(TextOf(a), TextOf(init), last.text);
    SeqAssoc(FlagsOf(a), FlagsOf(init), Repeat(last.highlighted, |last.text|));
  }

  /** The first characters of a line are flagged if they lie in a range. */
  ghost predicate IsFlagged(flags: seq<bool>, ranges: seq<Range>, n: nat) {
    |flags| == n && forall k :: 0 <= k < n ==> (flags[k] <==> IsInRange(ranges, k))
  }

  lemma FlagMore(flags: seq<bool>, ranges: seq<Range>, from: nat, to: nat, highlighted: bool)
    requires IsFlagged(flags, ranges, from) && from <= to
    requires forall k :: from <= k < to ==> (IsInRange(ranges, k) <==> highlighted)
    ensures IsFlagged(flags + Repeat(highlighted, to - from), ranges, to)
  {
  }

  /** Cuts a line along the ranges; nothing is lost, and exactly the ranges are highlighted. */
  method HighlightLine(line: string, ranges: seq<Range>) returns (spans: seq<Span>)
    requires AreRanges(line, ranges)
    ensures TextOf(spans) == line
    ensures IsFlagged(FlagsOf(spans), ranges, |line|)
  {
    if ranges == [] {
      OneSpan(line, false);
      return [Span(line, false)];
    }
    spans := [];
    var cursor := 0;
    for i := 0 to |ranges|
      invariant cursor == GapStart(ranges, i) <= |line| && IsCut(line, ranges, spans, cursor)
    {
      var range := ranges[i];
      GapAndRange(line, ranges, i);
      if cursor < range.start {
        CutMore(line, ranges, spans, cursor, range.start, false);
        spans := spans + [Span(line[cursor..range.start], false)];
      }
      CutMore(line, ranges, spans, range.start, range.end, true);
      spans := spans + [Span(line[range.start..range.end], true)];
      cursor := range.end;
    }
    if cursor < |line| {
      NothingBehind(line, ranges);
      CutMore(line, ranges, spans, cursor, |line|, false);
      assert line[cursor..|line|] == line[cursor..];
      spans := spans + [Span(line[cursor..], false)];
    }
    assert line[..|line|] == line;
  }

  ghost predicate IsCut(line: string, ranges: seq<Range>, spans: seq<Span>, n: nat) {
    n <= |line| && TextOf(spans) == line[..n] && IsFlagged(FlagsOf(spans), ranges, n)
  }

  lemma CutMore(line: string, ranges: seq<Range>, spans: seq<Span>, from: nat, to: nat, highlighted: bool)
    requires from <= to <= |line| && IsCut(line, ranges, spans, from)
    requires forall k :: from <= k < to ==> (IsInRange(ranges, k) <==> highlighted)
    ensures IsCut(line, ranges, spans + [Span(line[from..to], highlighted)], to)
  {
    FlagMore(FlagsOf(spans), ranges, from, to, highlighted);
    SpanAdded(spans, line[from..to], highlighted);
    assert line[..from] + line[from..to] == line[..to];
  }

  lemma GapAndRange(line: string, ranges: seq<Range>, i: nat)
    requires AreRanges(line, ranges) && i < |ranges|
    ensures GapStart(ranges, i) <= ranges[i].start < ranges[i].end <= |line|
    ensures forall k :: GapStart(ranges, i) <= k < ranges[i].start ==> !IsInRange(ranges, k)
    ensures forall k :: ranges[i].start <= k < ranges[i].end ==> IsInRange(ranges, k)
  {
    assert FollowsGap(ranges, i);
    GapsGrow(ranges, i + 1, |ranges|);
    forall k | GapStart(ranges, i) <= k < ranges[i].start ensures !IsInRange(ranges, k) {
      forall j | 0 <= j < |ranges| ensures !(ranges[j].start <= k < ranges[j].end) {
        assert FollowsGap(ranges, j);
        if j < i {
          GapsGrow(ranges, j + 1, i);
        } else if j > i {
          GapsGrow(ranges, i + 1, j);
        }
      }
    }
  }

  lemma NothingBehind(line: string, ranges: seq<Range>)
    requires AreRanges(line, ranges)
    ensures forall k :: GapStart(ranges, |ranges|) <= k ==> !IsInRange(ranges, k)
  {
    forall j | 0 <= j < |ranges| ensures ranges[j].end <= GapStart(ranges, |ranges|) {
      GapsGrow(ranges, j + 1, |ranges|);
    }
  }

  // ----- the whole text

  /** Every occurrence of a query begins highlighted, and what is highlighted belongs to whole
      highlighted occurrences. A query with a line feed is never found. */
  ghost predicate IsHighlighting(text: string, query: string, flags: seq<bool>) {
    && |flags| == |text|
    && (forall p: nat :: '\n' !in query && OccursAt(text, query, p) && p < |text| ==> flags[p])
    && (forall p :: 0 <= p < |text| && flags[p] ==> '\n' !in query && IsInsideHit(text, query, flags, p))
  }

  ghost predicate IsInsideHit(text: string, query: string, flags: seq<bool>, p: nat)
    requires |flags| == |text|
  {
    exists q: nat :: q <= p < q + |query| && OccursAt(text, query, q) && forall k :: q <= k < q + |query| ==> flags[k]
  }

  /** On the two sides of a line feed, text is highlighted independently. */
  lemma HighlightingConcat(a: string, b: string, query: string, f: seq<bool>, g: seq<bool>)
    requires query != "" && (a == "" || a[|a| - 1] == '\n' || (b != "" && b[0] == '\n'))
    requires IsHighlighting(a, query, f) && IsHighlighting(b, query, g)
    ensures IsHighlighting(a + b, query, f + g)
  {
    var text, flags := a + b, f + g;
    forall p: nat | '\n' !in query && OccursAt(text, query, p) && p < |text| ensures flags[p] {
      HitIsOnOneSide(a, b, query, p);
    }
    forall p | 0 <= p < |text| && flags[p] ensures '\n' !in query && IsInsideHit(text, query, flags, p) {
      if p < |a| {
        HitStaysLeft(a, b, query, f, g, p);
      } else {
        HitMovesRight(a, b, query, f, g, p - |a|);
      }
    }
  }

  lemma HitStaysLeft(a: string, b: string, query: string, f: seq<bool>, g: seq<bool>, p: nat)
    requires |f| == |a| && |g| == |b| && IsInsideHit(a, query, f, p)
    ensures IsInsideHit(a + b, query, f + g, p)
  {
    var q: nat :| q <= p < q + |query| && OccursAt(a, query, q) && forall k :: q <= k < q + |query| ==> f[k];
    assert (a + b)[q..q + |query|] == a[q..q + |query|];
    assert OccursAt(a + b, query, q);
  }

  lemma HitMovesRight(a: string, b: string, query: string, f: seq<bool>, g: seq<bool>, p: nat)
    requires |f| == |a| && |g| == |b| && IsInsideHit(b, query, g, p)
    ensures IsInsideHit(a + b, query, f + g, |a| + p)
  {
    var q: nat :| q <= p < q + |query| && OccursAt(b, query, q) && forall k :: q <= k < q + |query| ==> g[k];
    OccursInTail(a, b, query, q);
    assert OccursAt(a + b, query, |a| + q);
  }

  lemma HitIsOnOneSide(a: string, b: string, query: string, p: nat)
    requires query != "" && '\n' !in query && OccursAt(a + b, query, p)
    requires a == "" || a[|a| - 1] == '\n' || (b != "" && b[0] == '\n')
    ensures p + |query| <= |a| ==> OccursAt(a, query, p)
    ensures p + |query| > |a| ==> p >= |a| && OccursAt(b, query, p - |a|)
  {
    var text := a + b;
    forall k | p <= k < p + |query| ensures text[k] != '\n' {
      OccursMeans(text, query, p, k - p);
    }
    if p + |query| <= |a| {
      assert text[p..p + |query|] == a[p..p + |query|];
    } else {
      assert a != "" && a[|a| - 1] == '\n' ==> text[|a| - 1] == '\n';
      assert b != "" ==> text[|a|] == b[0];
      if p >= |a| {
        OccursInTail(a, b, query, p - |a|);
      }
    }
  }

  /** A line with its scan highlighted. */
  lemma ScanHighlights(line: string, query: string, ranges: seq<Range>, flags: seq<bool>)
    requires '\n' !in line && query != "" && IsScan(line, query, ranges)
    requires IsFlagged(flags, ranges, |line|)
    ensures IsHighlighting(line, query, flags)
  {
    forall p: nat | '\n' !in query && OccursAt(line, query, p) && p < |line| ensures flags[p] {
      assert p in Hits(line, query);
      var i := RangeOrGap(ranges, p, |ranges|);
      assert i <= |ranges| ==> !IsInGap(ranges, i, p);
    }
    forall p | 0 <= p < |line| && flags[p] ensures '\n' !in query && IsInsideHit(line, query, flags, p) {
      var i :| 0 <= i < |ranges| && ranges[i].start <= p < ranges[i].end;
      var q := ranges[i].start;
      assert IsTaken(Hits(line, query), |query|, ranges, i);
      HitIsInLine(line, query, q);
      assert forall k :: q <= k < q + |query| ==> IsInRange(ranges, k);
    }
  }

  lemma HitIsInLine(line: string, query: string, q: nat)
    requires OccursAt(line, query, q) && '\n' !in line
    ensures '\n' !in query && q + |query| <= |line|
  {
    forall k | 0 <= k < |query| ensures query[k] != '\n' {
      OccursMeans(line, query, q, k);
    }
  }

  lemma ScanIsInLine(line: string, query: string, ranges: seq<Range>)
    requires query != "" && IsScan(line, query, ranges)
    ensures AreRanges(line, ranges)
  {
    forall i | 0 <= i < |ranges| ensures FollowsGap(ranges, i) && ranges[i].end <= |line| {
      assert IsTaken(Hits(line, query), |query|, ranges, i);
    }
  }

  lemma LineFeedIsPlain(query: string)
    requires query != ""
    ensures IsHighlighting("\n", query, [false])
  {
    forall p: nat ensures !('\n' !in query && OccursAt("\n", query, p) && p < 1) {
      if OccursAt("\n", query, p) {
        OccursMeans("\n", query, p, 0);
        assert query[0] == '\n';
      }
    }
  }

  /** Highlights the part of a line before its line feed. */
  method HighlightMatches(line: string, matcher: FullTextMatcher, regex: (string, string) -> seq<Range>)
    returns (spans: seq<Span>)
    requires '\n' !in line && (matcher.Plain? ==> matcher.query != "")
    requires forall pattern, line :: AreRanges(line, regex(pattern, line))
    ensures TextOf(spans) == line
    ensures matcher.Plain? ==> IsHighlighting(line, matcher.query, FlagsOf(spans))
    ensures matcher.Regex? ==> IsFlagged(FlagsOf(spans), regex(matcher.pattern, line), |line|)
  {
    var ranges: seq<Range>;
    match matcher {
      case Plain(query) =>
        ranges := FindAllInLine(line, query);
        ScanIsInLine(line, query, ranges);
      case Regex(pattern) =>
        ranges := regex(pattern, line);
    }
    spans := HighlightLine(line, ranges);
    if matcher.Plain? {
      ScanHighlights(line, matcher.query, ranges, FlagsOf(spans));
    }
  }

  /** Goes through the pieces of `split_inclusive`, each of which but perhaps the last ends with a line
      feed. `regex` stands for what the regular expression library finds. */
  method HighlightDetailText(text: string, query: string, regex: (string, string) -> seq<Range>)
    returns (spans: seq<Span>)
    requires forall pattern, line :: AreRanges(line, regex(pattern, line))
    ensures TextOf(spans) == text
    ensures Trim(query) == "" ==> spans == [Span(text, false)]
    ensures Trim(query) != "" && !("re:" <= Trim(query)) ==> IsHighlighting(text, Trim(query), FlagsOf(spans))
  {
    var matcher := ParseMatcher(query);
    if matcher.None? {
      OneSpan(text, false);
      return [Span(text, false)];
    }
    spans := [];
    var done := 0;
    while done < |text|
      invariant done <= |text| && IsShownUpTo(text, done, matcher.value, spans)
      invariant 0 < done < |text| ==> text[done - 1] == '\n'
    {
      var feed := IndexFrom(text, '\n', done);
      var end := feed.GetOr(|text|);
      var piece := HighlightMatches(text[done..end], matcher.value, regex);
      AddPiece(text, done, end, matcher.value, spans, piece);
      spans := spans + piece;
      done := end;
      if feed.Some? {
        AddLineFeed(text, end, matcher.value, spans);
        spans := spans + [Span("\n", false)];
        done := end + 1;
      }
    }
    assert text[..done] == text;
  }

  /** The text so far has its spans, and a plain query is highlighted in it. */
  ghost predicate IsShownUpTo(text: string, done: nat, matcher: FullTextMatcher, spans: seq<Span>)
    requires done <= |text|
  {
    && (matcher.Plain? ==> matcher.query != "")
    && TextOf(spans) == text[..done]
    && (matcher.Plain? ==> IsHighlighting(text[..done], matcher.query, FlagsOf(spans)))
  }

  lemma AddPiece(text: string, done: nat, end: nat, matcher: FullTextMatcher, spans: seq<Span>, piece: seq<Span>)
    requires done <= end <= |text| && IsShownUpTo(text, done, matcher, spans) && TextOf(piece) == text[done..end]
    requires done == 0 || text[done - 1] == '\n' || (done < end && text[done] == '\n')
    requires matcher.Plain? ==> IsHighlighting(text[done..end], matcher.query, FlagsOf(piece))
    ensures IsShownUpTo(text, end, matcher, spans + piece)
  {
    SpansConcat(spans, piece);
    assert text[..done] + text[done..end] == text[..end];
    if matcher.Plain? {
      HighlightingConcat(text[..done], text[done..end], matcher.query, FlagsOf(spans), FlagsOf(piece));
    }
  }

  lemma AddLineFeed(text: string, end: nat, matcher: FullTextMatcher, spans: seq<Span>)
    requires end < |text| && text[end] == '\n' && IsShownUpTo(text, end, matcher, spans)
    ensures IsShownUpTo(text, end + 1, matcher, spans + [Span("\n", false)])
  {
    OneSpan("\n", false);
    assert Repeat(false, 1) == [false];
    if matcher.Plain? {
      LineFeedIsPlain(matcher.query);
    }
    assert text[end..end + 1] == "\n";
    AddPiece(text, end, end + 1, matcher, spans, [Span("\n", false)]);
  }
}
