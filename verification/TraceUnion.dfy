/** What the segments of a leaf group cover: the union of the projections of its spans, but for the pixel of a span
    without a length that touches the end of an earlier one at the very start of a pixel. */
module TraceUnion {
  import opened Common
  import opened TracePixels

  predicate AllFit(t: Timeline, spans: seq<Span>) {
    t.duration > 0 && forall s | s in spans :: NoWrap(t, s.start) && NoWrap(t, s.finish)
  }

  // ---- what the exact merge makes ----

  predicate Apart(merged: seq<Span>) {
    forall i, j | 0 <= i < j < |merged| ::
      merged[i].finish < merged[j].start && merged[i].start <= merged[j].start
  }

  /** The span lies in the merged one, and starts it or starts before its end. */
  predicate Within(m: Span, s: Span) {
    m.start <= s.start && s.finish <= m.finish && (s.start == m.start || s.start <= m.finish)
  }

  predicate InsideSome(merged: seq<Span>, s: Span) {
    exists i | 0 <= i < |merged| :: Within(merged[i], s)
  }

  predicate StartsAt(spans: seq<Span>, x: nat) {
    exists s | s in spans :: s.start == x
  }

  /** A span goes over the instant from x to x + 1. */
  predicate Spanned(spans: seq<Span>, x: nat) {
    exists s | s in spans :: s.start <= x < s.finish
  }

  predicate Connected(spans: seq<Span>, m: Span) {
    StartsAt(spans, m.start) && forall x: nat | m.start <= x < m.finish :: Spanned(spans, x)
  }

  predicate MergeOf(spans: seq<Span>, merged: seq<Span>) {
    && Apart(merged)
    && (forall s | s in spans :: InsideSome(merged, s))
    && (forall i | 0 <= i < |merged| :: Connected(spans, merged[i]))
    && (spans != [] ==> merged != [] && merged[|merged| - 1].start <= spans[|spans| - 1].start)
  }

  lemma ConnectedMore(spans: seq<Span>, s: Span, m: Span)
    requires Connected(spans, m)
    ensures Connected(spans + [s], m)
  {
    assert forall o | o in spans :: o in spans + [s];
    forall x: nat | m.start <= x < m.finish ensures Spanned(spans + [s], x) {
      assert Spanned(spans, x);
    }
  }

  lemma ConnectedExtended(spans: seq<Span>, s: Span, m: Span)
    requires Connected(spans, m) && m.start <= s.start <= m.finish
    ensures Connected(spans + [s], Span(m.start, Max(m.finish, s.finish)))
  {
    ConnectedMore(spans, s, m);
    var after := Span(m.start, Max(m.finish, s.finish));
    forall x: nat | after.start <= x < after.finish ensures Spanned(spans + [s], x) {
      if x >= m.finish {
        assert s in spans + [s] && s.start <= x < s.finish;
      }
    }
  }

  lemma InsideAfter(merged: seq<Span>, s: Span, o: Span)
    requires merged == [] || merged[|merged| - 1].start <= s.start
    requires InsideSome(merged, o) || o == s
    ensures InsideSome(MergeOne(merged, s), o)
  {
    var after := MergeOne(merged, s);
    if InsideSome(merged, o) {
      var i :| 0 <= i < |merged| && Within(merged[i], o);
      assert Within(after[i], o);
    } else {
      assert Within(after[|after| - 1], s);
    }
  }

  lemma ApartAfter(merged: seq<Span>, s: Span)
    requires Apart(merged) && (merged != [] ==> merged[|merged| - 1].start <= s.start)
    ensures Apart(MergeOne(merged, s))
    ensures var after := MergeOne(merged, s); after != [] && after[|after| - 1].start <= s.start
  {
    if merged != [] {
      var back := merged[|merged| - 1];
      assert forall i | 0 <= i < |merged| - 1 :: merged[i].finish < back.start && merged[i].start <= back.start;
    }
  }

  lemma ConnectedAfter(spans: seq<Span>, merged: seq<Span>, s: Span)
    requires forall i | 0 <= i < |merged| :: Connected(spans, merged[i])
    requires merged != [] ==> merged[|merged| - 1].start <= s.start
    ensures forall i | 0 <= i < |MergeOne(merged, s)| :: Connected(spans + [s], MergeOne(merged, s)[i])
  {
    hide Connected;
    var after := MergeOne(merged, s);
    forall i | 0 <= i < |after| ensures Connected(spans + [s], after[i]) {
      if i < |merged| && after[i] == merged[i] {
        ConnectedMore(spans, s, merged[i]);
      } else if i < |merged| {
        ConnectedExtended(spans, s, merged[i]);
      } else {
        OneConnected(spans, s);
      }
    }
  }

  lemma OneConnected(spans: seq<Span>, s: Span)
    ensures Connected(spans + [s], s)
  {
    assert s in spans + [s];
  }

  lemma {:induction false} MergedIsMerge(spans: seq<Span>)
    requires SortedSpans(spans)
    ensures MergeOf(spans, Merged(spans))
  {
    hide Merged, MergeOne, Apart, InsideSome, Connected;
    MergedStep(spans);
    if spans == [] {
      NothingApart();
    } else {
      var last := |spans| - 1;
      var before, s := spans[..last], spans[last];
      MergedIsMerge(before);
      var merged := Merged(before);
      NothingMerged();
      assert before + [s] == spans;
      ApartAfter(merged, s);
      ConnectedAfter(before, merged, s);
      forall o | o in spans ensures InsideSome(Merged(spans), o) {
        assert o in before || o == s;
        InsideAfter(merged, s, o);
      }
    }
  }

  lemma NothingApart()
    ensures Apart([])
  {
  }

  lemma NothingMerged()
    ensures Merged([]) == []
  {
  }

  lemma RunOf(spans: seq<Span>, merged: seq<Span>, s: Span) returns (j: nat)
    requires MergeOf(spans, merged) && s in spans
    ensures j < |merged| && Within(merged[j], s)
  {
    hide Within, Apart, Connected;
    assert InsideSome(merged, s);
    j :| 0 <= j < |merged| && Within(merged[j], s);
  }

  lemma RunIsConnected(spans: seq<Span>, merged: seq<Span>, i: nat)
    requires MergeOf(spans, merged) && i < |merged|
    ensures Connected(spans, merged[i])
  {
    hide Connected, InsideSome, Apart;
  }

  lemma RunsApart(spans: seq<Span>, merged: seq<Span>)
    requires MergeOf(spans, merged)
    ensures Apart(merged)
  {
    hide Connected, InsideSome;
  }

  // ---- the lost pixels ----

  predicate TouchingPoint(spans: seq<Span>, c: nat) {
    && (exists s | s in spans :: s.start == c && s.finish <= c)
    && (exists s | s in spans :: s.start < c && s.finish == c)
  }

  /** The pixel that begins at c: a span without a length starts there, an earlier span ends there, none goes over
      c, and nothing else starts in the pixel. */
  predicate LostAt(t: Timeline, spans: seq<Span>, p: nat, c: nat)
    requires t.duration > 0
  {
    && 0 < p == Lo(t, c) == Hi(t, c)
    && TouchingPoint(spans, c)
    && (forall s | s in spans :: s.start <= c ==> s.finish <= c)
    && (forall s | s in spans :: Lo(t, s.start) == p ==> s.start == c)
  }

  ghost predicate Lost(t: Timeline, spans: seq<Span>, p: nat)
    requires t.duration > 0
  {
    exists c: nat :: LostAt(t, spans, p, c)
  }

  /** A merged span and a span of the group that meet in time are the same run. */
  lemma SameRun(merged: seq<Span>, i: nat, j: nat, x: nat)
    requires Apart(merged) && i < |merged| && j < |merged|
    requires merged[i].start <= x <= merged[i].finish && merged[j].start <= x <= merged[j].finish
    ensures i == j
  {
  }

  /** No merged span covers a lost pixel. */
  lemma LostIsNotCovered(t: Timeline, spans: seq<Span>, merged: seq<Span>, p: nat, c: nat, i: nat)
    requires t.duration > 0 && MergeOf(spans, merged) && LostAt(t, spans, p, c) && i < |merged|
    ensures !CoversTime(t, merged[i], p)
  {
    hide Lo, Hi, MergeOf, LostAt;
    NoRunStartsThere(t, spans, merged, p, c, i);
    NoRunGoesOver(t, spans, merged, p, c, i);
  }

  lemma NoRunStartsThere(t: Timeline, spans: seq<Span>, merged: seq<Span>, p: nat, c: nat, i: nat)
    requires t.duration > 0 && MergeOf(spans, merged) && LostAt(t, spans, p, c) && i < |merged|
    ensures Lo(t, merged[i].start) != p
  {
    hide Lo, Hi, MergeOf, Spanned;
    RunIsConnected(spans, merged, i);
    RunsApart(spans, merged);
    var s :| s in spans && s.start == merged[i].start;
    var o :| o in spans && o.start < c && o.finish == c;
    var j := RunOf(spans, merged, o);
    assert merged[j].start < c <= merged[j].finish;
    assert merged[i].start != c;
  }

  lemma NoRunGoesOver(t: Timeline, spans: seq<Span>, merged: seq<Span>, p: nat, c: nat, i: nat)
    requires t.duration > 0 && MergeOf(spans, merged) && LostAt(t, spans, p, c) && i < |merged|
    ensures !(Lo(t, merged[i].start) < p < Hi(t, merged[i].finish))
  {
    hide Lo, Hi, MergeOf, StartsAt, TouchingPoint;
    RunIsConnected(spans, merged, i);
    var m := merged[i];
    assert !Spanned(spans, c);
    assert !(m.start <= c < m.finish);
    if c <= m.start {
      LoHiMonotone(t, c, m.start);
    } else {
      LoHiMonotone(t, m.finish, c);
    }
  }

  /** A pixel that a span of the group covers is covered by the merged spans, or it is lost. */
  lemma CoveredOrLost(t: Timeline, spans: seq<Span>, merged: seq<Span>, s: Span, p: nat)
    requires t.duration > 0 && MergeOf(spans, merged) && s in spans && CoversTime(t, s, p)
    ensures RunCovers(t, merged, p) || Lost(t, spans, p)
  {
    hide Lo, Hi, MergeOf, Lost;
    var i := RunOf(spans, merged, s);
    var m, c := merged[i], s.start;
    LoHiMonotone(t, m.start, c);
    LoHiMonotone(t, s.finish, m.finish);
    if !CoversTime(t, m, p) {
      LoHiMonotone(t, c, m.finish);
      LoNearHi(t, c);
      Edge(t, c, m.finish);
      assert m.finish == c && p == Lo(t, c) == Hi(t, c);
      LostHere(t, spans, merged, p, c, i);
    }
  }

  predicate CoversTime(t: Timeline, m: Span, p: nat)
    requires t.duration > 0
  {
    Lo(t, m.start) <= p < Max(Hi(t, m.finish), Lo(t, m.start) + 1)
  }

  predicate RunCovers(t: Timeline, merged: seq<Span>, p: nat)
    requires t.duration > 0
  {
    exists i | 0 <= i < |merged| :: CoversTime(t, merged[i], p)
  }

  /** A run that ends at c, where a span without a length starts. */
  lemma LostHere(t: Timeline, spans: seq<Span>, merged: seq<Span>, p: nat, c: nat, i: nat)
    requires t.duration > 0 && MergeOf(spans, merged) && i < |merged|
    requires 0 < p == Lo(t, c) == Hi(t, c) && merged[i].start < c == merged[i].finish
    requires exists s | s in spans :: s.start == c && s.finish <= c
    ensures RunCovers(t, merged, p) || Lost(t, spans, p)
  {
    hide Lo, Hi, MergeOf, RunCovers;
    EndsWithASpan(spans, merged, i);
    forall s | s in spans ensures s.start <= c ==> s.finish <= c {
      NoneGoesOver(spans, merged, i, s);
    }
    forall s | s in spans ensures RunCovers(t, merged, p) || (Lo(t, s.start) == p ==> s.start == c) {
      NoneStartsInside(t, spans, merged, i, s, p);
    }
    assert TouchingPoint(spans, c);
    assert RunCovers(t, merged, p) || LostAt(t, spans, p, c);
  }

  lemma EndsWithASpan(spans: seq<Span>, merged: seq<Span>, i: nat)
    requires MergeOf(spans, merged) && i < |merged| && merged[i].start < merged[i].finish
    ensures exists s | s in spans :: s.start < merged[i].finish && s.finish == merged[i].finish
  {
    hide MergeOf, Apart, StartsAt;
    var c := merged[i].finish;
    RunIsConnected(spans, merged, i);
    RunsApart(spans, merged);
    assert Spanned(spans, c - 1);
    var s :| s in spans && s.start <= c - 1 < s.finish;
    var j := RunOf(spans, merged, s);
    SameRun(merged, i, j, Max(s.start, merged[i].start));
  }

  lemma NoneGoesOver(spans: seq<Span>, merged: seq<Span>, i: nat, s: Span)
    requires MergeOf(spans, merged) && i < |merged| && s in spans && merged[i].start <= merged[i].finish
    ensures s.start <= merged[i].finish ==> s.finish <= merged[i].finish
  {
    hide MergeOf;
    RunsApart(spans, merged);
    var j := RunOf(spans, merged, s);
  }

  lemma NoneStartsInside(t: Timeline, spans: seq<Span>, merged: seq<Span>, i: nat, s: Span, p: nat)
    requires t.duration > 0 && MergeOf(spans, merged) && i < |merged| && s in spans
    requires merged[i].start < merged[i].finish
    requires 0 < p == Lo(t, merged[i].finish) == Hi(t, merged[i].finish)
    ensures Lo(t, s.start) == p ==> s.start == merged[i].finish || RunCovers(t, merged, p)
  {
    hide Lo, Hi, MergeOf;
    RunsApart(spans, merged);
    var c := merged[i].finish;
    Edge(t, c, s.start);
    if Lo(t, s.start) == p && s.start > c {
      var j := RunOf(spans, merged, s);
      LoHiMonotone(t, merged[j].start, s.start);
      LoHiMonotone(t, c, merged[j].start);
      assert CoversTime(t, merged[j], p);
    }
  }

  // ---- each covered pixel comes from a span ----

  lemma {:induction false} FirstPixelOrOver(t: Timeline, spans: seq<Span>, m: Span, p: nat, x: nat)
    requires t.duration > 0 && Connected(spans, m) && m.start <= x < m.finish
    requires Lo(t, x) <= p < Hi(t, m.finish)
    ensures exists s | s in spans :: CoversTime(t, s, p)
    decreases m.finish - x
  {
    hide Lo, Hi;
    assert Spanned(spans, x);
    var s :| s in spans && s.start <= x < s.finish;
    LoHiMonotone(t, s.start, x);
    LoHiMonotone(t, x + 1, s.finish);
    if p < Hi(t, x + 1) {
      assert CoversTime(t, s, p);
    } else {
      LoNearHi(t, x + 1);
      FirstPixelOrOver(t, spans, m, p, x + 1);
    }
  }

  lemma RunPixelHasASpan(t: Timeline, spans: seq<Span>, m: Span, p: nat)
    requires t.duration > 0 && Connected(spans, m) && CoversTime(t, m, p)
    ensures exists s | s in spans :: CoversTime(t, s, p)
  {
    hide Lo, Hi, Spanned;
    if p == Lo(t, m.start) {
      var s :| s in spans && s.start == m.start;
      assert CoversTime(t, s, p);
    } else {
      if m.finish <= m.start {
        LoHiMonotone(t, m.finish, m.start);
        LoNearHi(t, m.start);
      }
      FirstPixelOrOver(t, spans, m, p, m.start);
    }
  }

  // ---- the union ----

  lemma ProjectedCovers(t: Timeline, spans: seq<Span>, p: nat)
    requires AllFit(t, spans)
    ensures CoversAny(ProjectedAll(t, spans), p) <==> RunCovers(t, spans, p)
    ensures RunCovers(t, spans, p) <==> exists s | s in spans :: CoversTime(t, s, p)
  {
    hide Projected, NoWrap, Lo, Hi;
    var all := ProjectedAll(t, spans);
    forall i | 0 <= i < |spans| ensures Covers(all[i], p) <==> CoversTime(t, spans[i], p) {
      assert spans[i] in spans;
      ProjectedIs(t, spans[i]);
    }
    if CoversAny(all, p) {
      var i :| 0 <= i < |all| && Covers(all[i], p);
      assert CoversTime(t, spans[i], p);
    }
    if RunCovers(t, spans, p) {
      var i :| 0 <= i < |spans| && CoversTime(t, spans[i], p);
      assert Covers(all[i], p) && spans[i] in spans;
    }
    if exists s | s in spans :: CoversTime(t, s, p) {
      var s :| s in spans && CoversTime(t, s, p);
      var i :| 0 <= i < |spans| && spans[i] == s;
      assert CoversTime(t, spans[i], p);
    }
  }

  /** A merged end is an end of the group, or the start of a run that ends before it starts. */
  lemma MergedFit(t: Timeline, spans: seq<Span>)
    requires SortedSpans(spans) && AllFit(t, spans)
    ensures AllFit(t, Merged(spans))
  {
    hide NoWrap, Merged;
    MergedFitFrom(t, spans);
  }

  lemma {:induction false} MergedFitFrom(t: Timeline, spans: seq<Span>)
    requires AllFit(t, spans)
    ensures AllFit(t, Merged(spans))
  {
    hide NoWrap, Merged;
    MergedStep(spans);
    if spans != [] {
      var last := |spans| - 1;
      assert forall s | s in spans[..last] :: s in spans;
      MergedFitFrom(t, spans[..last]);
      assert spans[last] in spans;
      var merged := Merged(spans[..last]);
      if merged != [] {
        assert merged[|merged| - 1] in merged;
      }
    }
  }

  lemma MergedInOrder(t: Timeline, spans: seq<Span>)
    requires SortedSpans(spans) && AllFit(t, spans)
    ensures InOrder(ProjectedAll(t, Merged(spans)))
    ensures forall i | 0 <= i < |Merged(spans)| ::
              var g := ProjectedAll(t, Merged(spans))[i]; g.first < g.end
  {
    hide Projected, NoWrap, Merged, Lo, Hi, MergeOf, SortedSpans;
    MergedIsMerge(spans);
    RunsApart(spans, Merged(spans));
    MergedFit(t, spans);
    var merged := Merged(spans);
    forall i | 0 <= i < |merged|
      ensures var g := Projected(t, merged[i]); g.first < g.end && g.first == Lo(t, merged[i].start)
    {
      assert merged[i] in merged;
      ProjectedIs(t, merged[i]);
      ProjectedInRange(t, merged[i]);
    }
    forall i, j | 0 <= i < j < |merged| ensures Lo(t, merged[i].start) <= Lo(t, merged[j].start) {
      LoHiMonotone(t, merged[i].start, merged[j].start);
    }
  }

  lemma MergedCovers(t: Timeline, spans: seq<Span>, p: nat)
    requires SortedSpans(spans) && t.duration > 0
    ensures RunCovers(t, Merged(spans), p) <==> (exists s | s in spans :: CoversTime(t, s, p)) && !Lost(t, spans, p)
  {
    hide Lo, Hi, Merged, MergeOf, LostAt, Connected;
    var merged := Merged(spans);
    MergedIsMerge(spans);
    if RunCovers(t, merged, p) {
      var i :| 0 <= i < |merged| && CoversTime(t, merged[i], p);
      RunIsConnected(spans, merged, i);
      RunPixelHasASpan(t, spans, merged[i], p);
      if Lost(t, spans, p) {
        var c: nat :| LostAt(t, spans, p, c);
        LostIsNotCovered(t, spans, merged, p, c, i);
      }
    }
    if exists s | s in spans :: CoversTime(t, s, p) {
      var s :| s in spans && CoversTime(t, s, p);
      CoveredOrLost(t, spans, merged, s, p);
    }
  }

  /** The pixels of a leaf group are exactly the pixels of its spans, one by one, without the lost ones. */
  lemma PixelsAreTheUnion(t: Timeline, spans: seq<Span>, p: nat)
    requires SortedSpans(spans) && AllFit(t, spans)
    ensures CoversAny(Pixels(t, spans), p) <==> CoversAny(ProjectedAll(t, spans), p) && !Lost(t, spans, p)
  {
    hide Lost, Merged, Compacted, NoWrap, CoversAny, RunCovers;
    MergedInOrder(t, spans);
    CompactedCovers(ProjectedAll(t, Merged(spans)), p);
    MergedFit(t, spans);
    ProjectedCovers(t, Merged(spans), p);
    ProjectedCovers(t, spans, p);
    MergedCovers(t, spans, p);
  }

  lemma LostIsProjected(t: Timeline, spans: seq<Span>, p: nat, c: nat)
    requires AllFit(t, spans) && LostAt(t, spans, p, c)
    ensures CoversAny(ProjectedAll(t, spans), p)
  {
    hide Lo, Hi, NoWrap, CoversAny;
    var s :| s in spans && s.start == c && s.finish <= c;
    assert CoversTime(t, s, p);
    ProjectedCovers(t, spans, p);
  }

  /** So the two unions are the same exactly when no pixel is lost. */
  lemma SameUnionExactlyWhenNoneIsLost(t: Timeline, spans: seq<Span>)
    requires SortedSpans(spans) && AllFit(t, spans)
    ensures (forall p: nat :: CoversAny(Pixels(t, spans), p) <==> CoversAny(ProjectedAll(t, spans), p)) <==>
            forall p: nat :: !Lost(t, spans, p)
  {
    hide CoversAny, Pixels, NoWrap, SortedSpans, LostAt;
    forall p: nat
      ensures (CoversAny(Pixels(t, spans), p) <==> CoversAny(ProjectedAll(t, spans), p)) <==> !Lost(t, spans, p)
    {
      PixelsAreTheUnion(t, spans, p);
      if Lost(t, spans, p) {
        var c: nat :| LostAt(t, spans, p, c);
        LostIsProjected(t, spans, p, c);
      }
    }
  }

  /** Every instant inside a span falls in a covered pixel. */
  lemma InstantsAreCovered(t: Timeline, spans: seq<Span>, s: Span, x: nat)
    requires SortedSpans(spans) && AllFit(t, spans) && s in spans && s.start <= x < s.finish
    ensures CoversAny(Pixels(t, spans), Lo(t, x))
  {
    hide Merged, Compacted, NoWrap, CoversAny, Lo, Hi, MergeOf, SortedSpans, InOrder;
    MergedIsMerge(spans);
    var merged, p := Merged(spans), Lo(t, x);
    var i := RunOf(spans, merged, s);
    InstantInRun(t, merged[i], s, x);
    assert RunCovers(t, merged, p);
    MergedInOrder(t, spans);
    CompactedCovers(ProjectedAll(t, merged), p);
    MergedFit(t, spans);
    ProjectedCovers(t, merged, p);
  }

  lemma InstantInRun(t: Timeline, m: Span, s: Span, x: nat)
    requires t.duration > 0 && Within(m, s) && s.start <= x < s.finish
    ensures CoversTime(t, m, Lo(t, x))
  {
    hide Lo, Hi;
    LoHiMonotone(t, m.start, x);
    LoHiMonotone(t, s.finish, m.finish);
    InstantPixel(t, s, x);
  }

  /** The pixel of an instant is the first pixel of the span or lies before its end. */
  lemma InstantPixel(t: Timeline, s: Span, x: nat)
    requires t.duration > 0 && s.start <= x < s.finish
    ensures Lo(t, x) < Hi(t, s.finish) || Lo(t, x) == 0
  {
    if t.origin < s.finish {
      LoBelowHi(t, x, s.finish);
    }
  }

  // ---- the spans of a trace ----

  lemma {:induction false} FinishIsLatest(rows: seq<Span>)
    ensures forall s | s in rows :: s.finish <= Finish(rows)
  {
    if rows != [] {
      FinishIsLatest(rows[..|rows| - 1]);
      assert rows == rows[..|rows| - 1] + [rows[|rows| - 1]];
    }
  }

  /** Spans that do not start after they finish need no more than 64 bits. */
  lemma WellFormedFit(rows: seq<Span>, group: seq<Span>)
    requires forall s | s in group :: s in rows && s.start <= s.finish
    ensures AllFit(TimelineOf(rows), group)
  {
    var t := TimelineOf(rows);
    FinishIsLatest(rows);
    forall s | s in group ensures NoWrap(t, s.start) && NoWrap(t, s.finish) {
      assert s.finish <= Finish(rows);
      TimesMonotone(PIXELS, WORD - 1, t.duration);
      assert Offset(t, s.finish) <= t.duration && Offset(t, s.start) <= t.duration;
    }
  }

  /** A trace of one microsecond for each pixel: a span from 1 to 11, a point at 11, and a span to the end of the trace.
      The point alone is drawn in pixel 10; in one group with the first span it is not. */
  lemma TouchingPointIsLost()
    ensures var rows := [Span(1, 11), Span(11, 11), Span(1, 3841)];
            var t, spans := TimelineOf(rows), rows[..2];
            && AllFit(t, spans) && SortedSpans(spans)
            && CoversAny(ProjectedAll(t, spans), 10)
            && !CoversAny(Pixels(t, spans), 10)
  {
    hide *;
    var rows := [Span(1, 11), Span(11, 11), Span(1, 3841)];
    var t, spans := Timeline(1, 3840), [Span(1, 11), Span(11, 11)];
    assert rows[..2] == spans;
    TimelineOfThree(Span(1, 11), Span(11, 11), Span(1, 3841));
    assert Min(1, Min(11, 1)) == 1 && Max(11, Max(11, 3841)) == 3841 by { LeastAndMost(); }
    ThePointIsLost(t, spans);
    PixelsAreTheUnion(t, spans, 10);
    LostIsProjected(t, spans, 10, 11);
  }

  lemma LeastAndMost()
    ensures Min(1, Min(11, 1)) == 1 && Max(11, Max(11, 3841)) == 3841
  {
  }

  lemma ThePointIsLost(t: Timeline, spans: seq<Span>)
    requires t == Timeline(1, 3840) && spans == [Span(1, 11), Span(11, 11)]
    ensures AllFit(t, spans) && SortedSpans(spans) && LostAt(t, spans, 10, 11) && Lost(t, spans, 10)
  {
    assert spans[0] == Span(1, 11) && spans[1] == Span(11, 11);
    assert LostAt(t, spans, 10, 11);
  }

  lemma TimelineOfThree(a: Span, b: Span, c: Span)
    requires a.start > 0 && b.start > 0 && c.start > 0
    ensures var origin, finish := Min(a.start, Min(b.start, c.start)), Max(a.finish, Max(b.finish, c.finish));
            TimelineOf([a, b, c]) == Timeline(origin, if finish > origin then finish - origin else 1)
  {
    var ab := [a, b];
    assert [a, b, c][..2] == ab && ab[..1] == [a] && [a][..0] == [];
    assert Origin([a]) == a.start && Finish([a]) == a.finish;
    assert Origin(ab) == Min(a.start, b.start) && Finish(ab) == Max(a.finish, b.finish);
    assert Origin([a, b, c]) == Min(Origin(ab), c.start) && Finish([a, b, c]) == Max(Finish(ab), c.finish);
  }

  /** The order in which the spans come does not matter. */
  lemma SortingKeepsTheUnion(t: Timeline, rows: seq<Span>, sorted: seq<Span>, p: nat)
    requires AllFit(t, rows) && multiset(rows) == multiset(sorted)
    ensures AllFit(t, sorted)
    ensures CoversAny(ProjectedAll(t, rows), p) <==> CoversAny(ProjectedAll(t, sorted), p)
  {
    hide NoWrap, CoversAny, RunCovers;
    forall s ensures s in rows <==> s in sorted {
      assert s in multiset(rows) <==> s in multiset(sorted);
    }
    ProjectedCovers(t, rows, p);
    ProjectedCovers(t, sorted, p);
  }
}
