/** The time of a trace on 3840 pixels (build_trace_json, src/api_analysis.cpp): overlapping spans of a leaf group are
    merged, projected onto pixels with a floor and a ceiling, and merged again. */
module TracePixels {
  import opened Common

  const PIXELS := 3840
  const WORD := 0x1_0000_0000_0000_0000

  /** Microseconds; nothing says that a span finishes after it starts. */
  datatype Span = Span(start: nat, finish: nat)
  /** The pixels from `first` to before `end`. */
  datatype Segment = Segment(first: nat, end: nat)
  datatype Timeline = Timeline(origin: nat, duration: nat)

  // ---- the timeline of a trace ----

  /** The earliest start that is set, or 0. */
  function Origin(rows: seq<Span>): nat {
    if rows == [] then 0
    else
      var before, start := Origin(rows[..|rows| - 1]), rows[|rows| - 1].start;
      if start == 0 then before else if before == 0 || start < before then start else before
  }

  function Finish(rows: seq<Span>): nat {
    if rows == [] then 0 else Max(Finish(rows[..|rows| - 1]), rows[|rows| - 1].finish)
  }

  function TimelineOf(rows: seq<Span>): (t: Timeline)
    ensures t.duration > 0
  {
    var origin, finish := Origin(rows), Finish(rows);
    Timeline(origin, if finish > origin then finish - origin else 1)
  }

  /** The least start that is not 0, or 0 when there is none. */
  ghost predicate IsOrigin(rows: seq<Span>, origin: nat) {
    && (forall r | r in rows && r.start != 0 :: 0 < origin <= r.start)
    && (origin != 0 ==> exists r | r in rows :: r.start == origin)
  }

  /** The greatest finish, or 0 when there is no span. */
  ghost predicate IsFinish(rows: seq<Span>, finish: nat) {
    && (forall r | r in rows :: r.finish <= finish)
    && (finish != 0 ==> exists r | r in rows :: r.finish == finish)
  }

  /** From the origin to the last finish, at least one microsecond. */
  ghost predicate IsTimeline(rows: seq<Span>, t: Timeline) {
    IsOrigin(rows, t.origin) && exists finish: nat :: IsFinish(rows, finish) && t.duration == Max(1, finish - t.origin)
  }

  lemma {:induction false} OriginAndFinish(rows: seq<Span>)
    ensures IsOrigin(rows, Origin(rows)) && IsFinish(rows, Finish(rows))
  {
    if rows != [] {
      var last := |rows| - 1;
      OriginAndFinish(rows[..last]);
      assert forall r :: r in rows <==> r in rows[..last] || r == rows[last];
    }
  }

  lemma TimelineMeaning(rows: seq<Span>)
    ensures IsTimeline(rows, TimelineOf(rows))
  {
    hide Origin, Finish, IsOrigin, IsFinish;
    OriginAndFinish(rows);
  }

  method MakeTimeline(rows: seq<Span>) returns (t: Timeline)
    ensures t == TimelineOf(rows) && IsTimeline(rows, t)
  {
    hide IsTimeline;
    TimelineMeaning(rows);
    var origin, finish := 0, 0;
    for i := 0 to |rows|
      invariant origin == Origin(rows[..i]) && finish == Finish(rows[..i])
    {
      assert rows[..i + 1][..i] == rows[..i];
      if rows[i].start != 0 && (origin == 0 || rows[i].start < origin) {
        origin := rows[i].start;
      }
      finish := Max(finish, rows[i].finish);
    }
    assert rows[..|rows|] == rows;
    t := Timeline(origin, if finish > origin then finish - origin else 1);
  }

  // ---- floor and ceiling ----

  function Offset(t: Timeline, x: nat): nat {
    if x > t.origin then x - t.origin else 0
  }

  /** The 128-bit quotient, cut to 64 bits. */
  function BucketFloor(offset: nat, duration: nat): nat {
    if duration == 0 then 0 else (offset * PIXELS / duration) % WORD
  }

  function BucketCeil(offset: nat, duration: nat): nat {
    if duration == 0 then 0 else ((offset * PIXELS + duration - 1) / duration) % WORD
  }

  function Projected(t: Timeline, s: Span): Segment {
    var start := Min(PIXELS - 1, BucketFloor(Offset(t, s.start), t.duration));
    var finish := Min(PIXELS, BucketCeil(Offset(t, s.finish), t.duration));
    Segment(start, if finish <= start then Min(PIXELS, start + 1) else finish)
  }

  predicate Covers(g: Segment, p: nat) {
    g.first <= p < g.end
  }

  /** A time is not so far behind the end of the trace that the quotient needs more than 64 bits. */
  predicate NoWrap(t: Timeline, x: nat) {
    t.duration > 0 && Offset(t, x) * PIXELS <= (WORD - 1) * t.duration
  }

  /** The pixel that holds a time. */
  function Lo(t: Timeline, x: nat): nat
    requires t.duration > 0
  {
    Min(PIXELS - 1, Offset(t, x) * PIXELS / t.duration)
  }

  /** The first pixel that begins at a time or after it. */
  function Hi(t: Timeline, x: nat): nat
    requires t.duration > 0
  {
    Min(PIXELS, (Offset(t, x) * PIXELS + t.duration - 1) / t.duration)
  }

  lemma {:induction false} TimesMonotone(a: int, b: int, d: int)
    requires d >= 0 && a <= b
    ensures a * d <= b * d
  {
    assert (b - a) * d >= 0;
  }

  lemma FloorIs(k: int, x: nat, d: nat)
    requires d > 0
    ensures k <= x / d <==> k * d <= x
  {
    var q := x / d;
    assert q * d <= x < (q + 1) * d;
    if k <= q {
      TimesMonotone(k, q, d);
    } else {
      TimesMonotone(q + 1, k, d);
    }
  }

  lemma CeilIs(k: int, x: nat, d: nat)
    requires d > 0
    ensures (x + d - 1) / d <= k <==> x <= k * d
  {
    FloorIs(k + 1, x + d - 1, d);
  }

  lemma LoIs(t: Timeline, x: nat, k: int)
    requires t.duration > 0
    ensures k <= Lo(t, x) <==> k <= 3839 && k * t.duration <= (Max(x, t.origin) - t.origin) * 3840
  {
    FloorIs(k, Offset(t, x) * PIXELS, t.duration);
  }

  lemma HiIs(t: Timeline, x: nat, k: int)
    requires t.duration > 0
    ensures Hi(t, x) <= k <==> 3840 <= k || (Max(x, t.origin) - t.origin) * 3840 <= k * t.duration
  {
    CeilIs(k, Offset(t, x) * PIXELS, t.duration);
  }

  lemma LoNotAboveHi(t: Timeline, x: nat)
    requires t.duration > 0
    ensures Lo(t, x) <= Hi(t, x)
  {
    hide Lo, Hi;
    var hi: int, d := Hi(t, x), t.duration;
    LoIs(t, x, hi + 1);
    HiIs(t, x, hi);
    NextTimes(hi, d);
  }

  lemma HiInNextPixel(t: Timeline, x: nat)
    requires t.duration > 0
    ensures Hi(t, x) <= Lo(t, x) + 1
  {
    hide Lo, Hi;
    var lo: int := Lo(t, x);
    LoIs(t, x, lo + 1);
    HiIs(t, x, lo + 1);
  }

  lemma NextTimes(k: int, d: int)
    ensures (k + 1) * d == k * d + d
  {
  }

  /** Both ends of a projection lie in one pixel. */
  lemma LoNearHi(t: Timeline, x: nat)
    requires t.duration > 0
    ensures Lo(t, x) <= Hi(t, x) <= Lo(t, x) + 1 && Hi(t, x) <= PIXELS && Lo(t, x) < PIXELS
  {
    LoNotAboveHi(t, x);
    HiInNextPixel(t, x);
  }

  /** They go up with the time. */
  lemma LoHiMonotone(t: Timeline, x: nat, y: nat)
    requires t.duration > 0 && x <= y
    ensures Lo(t, x) <= Lo(t, y) && Hi(t, x) <= Hi(t, y)
  {
    hide Lo, Hi;
    LoIs(t, x, Lo(t, x));
    LoIs(t, y, Lo(t, x));
    HiIs(t, x, Hi(t, y));
    HiIs(t, y, Hi(t, y));
  }

  lemma LoBelowHi(t: Timeline, x: nat, y: nat)
    requires t.duration > 0 && t.origin < y && x < y
    ensures Lo(t, x) < Hi(t, y)
  {
    hide Lo, Hi;
    var lo := Lo(t, x);
    LoIs(t, x, lo);
    LoIs(t, x, PIXELS);
    HiIs(t, y, lo);
  }

  /** A time that begins a pixel is apart from every other time: an earlier one lies in an earlier pixel, and a later
      one reaches a later pixel. */
  lemma Edge(t: Timeline, x: nat, y: nat)
    requires t.duration > 0 && 0 < Lo(t, x) == Hi(t, x)
    ensures y < x ==> Lo(t, y) < Lo(t, x)
    ensures y > x ==> Hi(t, y) > Hi(t, x)
    ensures x > t.origin
  {
    hide Lo, Hi;
    var p := Lo(t, x);
    LoNearHi(t, x);
    LoIs(t, x, p);
    HiIs(t, x, p);
    LoIs(t, y, p);
    HiIs(t, y, p);
  }

  lemma ProjectedIs(t: Timeline, s: Span)
    requires NoWrap(t, s.start) && NoWrap(t, s.finish)
    ensures Projected(t, s) == Segment(Lo(t, s.start), Max(Hi(t, s.finish), Lo(t, s.start) + 1))
  {
    var x, y, d := Offset(t, s.start) * PIXELS, Offset(t, s.finish) * PIXELS, t.duration;
    FloorIs(WORD, x, d);
    CeilIs(WORD - 1, y, d);
    assert x / d % WORD == x / d;
    assert (y + d - 1) / d % WORD == (y + d - 1) / d;
  }

  /** Every projection has a pixel and lies on the timeline, whatever the span is. */
  lemma ProjectedInRange(t: Timeline, s: Span)
    ensures Projected(t, s).first < Projected(t, s).end <= PIXELS
  {
  }

  // ---- merging ----

  predicate SortedSpans(spans: seq<Span>) {
    forall i, j | 0 <= i < j < |spans| ::
      spans[i].start < spans[j].start || (spans[i].start == spans[j].start && spans[i].finish <= spans[j].finish)
  }

  /** The exact overlap merge. */
  function Merged(spans: seq<Span>): seq<Span> {
    if spans == [] then []
    else MergeOne(Merged(spans[..|spans| - 1]), spans[|spans| - 1])
  }

  function MergeOne(merged: seq<Span>, s: Span): seq<Span> {
    if merged == [] || s.start > merged[|merged| - 1].finish then merged + [s]
    else
      var back := merged[|merged| - 1];
      merged[..|merged| - 1] + [Span(back.start, Max(back.finish, s.finish))]
  }

  /** The merge of segments that touch on the pixels. */
  function Compacted(segments: seq<Segment>): seq<Segment> {
    if segments == [] then []
    else CompactOne(Compacted(segments[..|segments| - 1]), segments[|segments| - 1])
  }

  function CompactOne(buckets: seq<Segment>, g: Segment): seq<Segment> {
    if buckets == [] || g.first > buckets[|buckets| - 1].end then buckets + [g]
    else
      var back := buckets[|buckets| - 1];
      buckets[..|buckets| - 1] + [Segment(back.first, Max(back.end, g.end))]
  }

  function ProjectedAll(t: Timeline, spans: seq<Span>): seq<Segment> {
    seq(|spans|, i requires 0 <= i < |spans| => Projected(t, spans[i]))
  }

  /** The segments of a leaf group, from its spans in their order. */
  function Pixels(t: Timeline, spans: seq<Span>): seq<Segment> {
    Compacted(ProjectedAll(t, Merged(spans)))
  }

  method MergeSpans(spans: seq<Span>) returns (merged: seq<Span>)
    ensures merged == Merged(spans)
  {
    hide Merged;
    merged := [];
    MergedStep(spans);
    for i := 0 to |spans|
      invariant merged == Merged(spans[..i])
    {
      assert spans[..i + 1][..i] == spans[..i];
      MergedStep(spans[..i + 1]);
      var s, back := spans[i], |merged| - 1;
      if merged == [] || s.start > merged[back].finish {
        merged := merged + [s];
      } else {
        merged := merged[back := merged[back].(finish := Max(merged[back].finish, s.finish))];
      }
    }
    assert spans[..|spans|] == spans;
  }

  lemma MergedStep(spans: seq<Span>)
    ensures Merged([]) == []
    ensures spans != [] ==> Merged(spans) == MergeOne(Merged(spans[..|spans| - 1]), spans[|spans| - 1])
  {
  }

  lemma CompactedStep(segments: seq<Segment>)
    ensures Compacted([]) == []
    ensures segments != [] ==>
              Compacted(segments) == CompactOne(Compacted(segments[..|segments| - 1]), segments[|segments| - 1])
  {
  }

  method ProjectSpans(t: Timeline, spans: seq<Span>) returns (buckets: seq<Segment>)
    ensures buckets == Compacted(ProjectedAll(t, spans))
  {
    hide Projected, Compacted;
    ghost var all := ProjectedAll(t, spans);
    buckets := [];
    CompactedStep(all);
    for i := 0 to |spans|
      invariant buckets == Compacted(all[..i])
    {
      assert all[..i + 1][..i] == all[..i];
      CompactedStep(all[..i + 1]);
      var g, back := Projected(t, spans[i]), |buckets| - 1;
      if buckets != [] && g.first <= buckets[back].end {
        buckets := buckets[back := buckets[back].(end := Max(buckets[back].end, g.end))];
      } else {
        buckets := buckets + [g];
      }
    }
    assert all[..|spans|] == all;
  }

  /** The segments of a leaf group whose spans std::sort has put in order. */
  method LeafPixels(t: Timeline, spans: seq<Span>) returns (buckets: seq<Segment>)
    ensures buckets == Pixels(t, spans)
  {
    hide Merged, Compacted;
    var merged := spans;
    if |spans| >= 2 {
      merged := MergeSpans(spans);
    } else {
      FewSpans(spans);
    }
    buckets := ProjectSpans(t, merged);
  }

  lemma FewSpans(spans: seq<Span>)
    requires |spans| < 2
    ensures Merged(spans) == spans
  {
    if |spans| == 1 {
      assert spans[..0] == [] && [] + [spans[0]] == spans;
    }
  }

  // ---- the shape of the result ----

  predicate OnTimeline(g: Segment) {
    g.first < g.end <= PIXELS
  }

  predicate Separated(buckets: seq<Segment>) {
    && (forall i | 0 <= i < |buckets| :: OnTimeline(buckets[i]))
    && (forall i, j | 0 <= i < j < |buckets| :: buckets[i].end < buckets[j].first)
  }

  lemma {:induction false} CompactedSeparated(segments: seq<Segment>)
    requires forall i | 0 <= i < |segments| :: OnTimeline(segments[i])
    ensures Separated(Compacted(segments))
  {
    hide Compacted;
    CompactedStep(segments);
    if segments != [] {
      CompactedSeparated(segments[..|segments| - 1]);
      CompactOneSeparated(Compacted(segments[..|segments| - 1]), segments[|segments| - 1]);
    }
  }

  lemma CompactOneSeparated(buckets: seq<Segment>, g: Segment)
    requires Separated(buckets) && OnTimeline(g)
    ensures Separated(CompactOne(buckets, g))
  {
    if buckets != [] {
      var back := buckets[|buckets| - 1];
      assert forall i | 0 <= i < |buckets| - 1 :: buckets[i].end < back.first;
    }
  }

  /** Whatever the spans are, the segments of a leaf group are not empty, on the timeline, in order, and apart by at
      least one pixel. */
  lemma PixelsAreSeparated(t: Timeline, spans: seq<Span>)
    ensures Separated(Pixels(t, spans))
  {
    hide Projected, Compacted;
    var merged := Merged(spans);
    forall i | 0 <= i < |merged| ensures OnTimeline(ProjectedAll(t, merged)[i]) {
      ProjectedInRange(t, merged[i]);
    }
    CompactedSeparated(ProjectedAll(t, merged));
  }

  // ---- what the segments cover ----

  predicate CoversAny(segments: seq<Segment>, p: nat) {
    exists i | 0 <= i < |segments| :: Covers(segments[i], p)
  }

  predicate InOrder(segments: seq<Segment>) {
    forall i, j | 0 <= i < j < |segments| :: segments[i].first <= segments[j].first
  }

  lemma CompactOneCovers(buckets: seq<Segment>, g: Segment, p: nat)
    requires buckets != [] ==>
               buckets[|buckets| - 1].first <= g.first && buckets[|buckets| - 1].first < buckets[|buckets| - 1].end
    requires g.first < g.end
    ensures CoversAny(CompactOne(buckets, g), p) <==> CoversAny(buckets, p) || Covers(g, p)
  {
    var after := CompactOne(buckets, g);
    var last := |after| - 1;
    if CoversAny(buckets, p) {
      var i :| 0 <= i < |buckets| && Covers(buckets[i], p);
      assert Covers(after[i], p);
    }
    if Covers(g, p) {
      assert Covers(after[last], p);
    }
    if CoversAny(after, p) {
      var i :| 0 <= i < |after| && Covers(after[i], p);
      assert i < last ==> Covers(buckets[i], p);
      assert i == last && last < |buckets| ==> Covers(buckets[last], p) || Covers(g, p);
    }
  }

  /** The second merge keeps every pixel, and adds none. */
  lemma {:induction false} CompactedCovers(segments: seq<Segment>, p: nat)
    requires InOrder(segments) && forall i | 0 <= i < |segments| :: segments[i].first < segments[i].end
    ensures CoversAny(Compacted(segments), p) <==> CoversAny(segments, p)
    ensures segments != [] ==>
              Compacted(segments) != [] && LastBefore(Compacted(segments), segments[|segments| - 1].first)
  {
    hide Compacted;
    CompactedStep(segments);
    if segments != [] {
      var last := |segments| - 1;
      var before, g := segments[..last], segments[last];
      CompactedCovers(before, p);
      CompactedStep(before);
      CompactOneCovers(Compacted(before), g, p);
      assert segments == before + [g];
      CoversAnyAppend(before, g, p);
    }
  }

  predicate LastBefore(buckets: seq<Segment>, first: nat)
    requires buckets != []
  {
    var back := buckets[|buckets| - 1];
    back.first <= first && back.first < back.end
  }

  lemma CoversAnyAppend(segments: seq<Segment>, g: Segment, p: nat)
    ensures CoversAny(segments + [g], p) <==> CoversAny(segments, p) || Covers(g, p)
  {
    var all := segments + [g];
    if CoversAny(segments, p) {
      var i :| 0 <= i < |segments| && Covers(segments[i], p);
      assert all[i] == segments[i];
    }
    assert all[|segments|] == g;
  }
}
