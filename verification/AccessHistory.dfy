/** What the history of the PDP client says of a call of Decide (src/access_pdp.cpp): which requests were sent, what
    they asked, when they stopped, and that nothing is allowed without a true answer in it. */
module AccessHistory {
  import opened Common
  import opened PdpModel
  import opened PdpPlan
  import opened PdpCache
  import opened PdpCall
  import opened PdpReading
  import opened AccessPdp

  /** The requests that a call added to the history. */
  function News(before: Trail, after: Trail): seq<Request>
    requires before.sent <= after.sent
  {
    after.sent[|before.sent|..]
  }

  /** The answers that a call added to the log. */
  function NewAnswers(before: Trail, after: Trail): seq<Event>
    requires before.log <= after.log
  {
    after.log[|before.log|..]
  }

  function RequestAt(subject: string, batches: seq<seq<Question>>, steps: seq<Step>, slots: seq<Slot>, c: nat): Request
    requires |batches| == |steps| == |slots| && c < |steps| && steps[c].Sent?
  {
    Request(false, subject, batches[c], steps[c].timeout, slots[c].started, slots[c].http, slots[c].elapsed)
  }

  /** Once a request is not sent, no later one is. */
  predicate NoGap(steps: seq<Step>) {
    forall i, j | 0 <= i < j < |steps| && steps[i].NotSent? :: steps[j].NotSent?
  }

  /** The history has one request for each of the first steps, and the others sent nothing. */
  predicate FirstOnes(added: seq<Request>, subject: string, batches: seq<seq<Question>>, steps: seq<Step>,
                      slots: seq<Slot>)
    requires |batches| == |steps| == |slots|
  {
    && |added| <= |steps|
    && (forall c | 0 <= c < |added| :: steps[c].Sent? && added[c] == RequestAt(subject, batches, steps, slots, c))
    && (forall c | |added| <= c < |steps| :: steps[c].NotSent?)
  }

  lemma FirstOnesNext(added: seq<Request>, more: seq<Request>, subject: string, batches: seq<seq<Question>>,
                      steps: seq<Step>, slots: seq<Slot>)
    requires |batches| == |steps| == |slots| && steps != [] && NoGap(steps)
    requires var last := |steps| - 1;
             && FirstOnes(added, subject, batches[..last], steps[..last], slots[..last])
             && more == added + if steps[last].Sent? then [RequestAt(subject, batches, steps, slots, last)] else []
    ensures FirstOnes(more, subject, batches, steps, slots)
  {
    var last := |steps| - 1;
    assert |added| < last ==> steps[..last][|added|] == steps[|added|];
    forall c | 0 <= c < |added| ensures steps[c].Sent? && more[c] == RequestAt(subject, batches, steps, slots, c) {
      assert steps[..last][c] == steps[c] && added[c] == more[c];
    }
    forall c | |added| <= c < last ensures steps[c].NotSent? {
      assert steps[..last][c] == steps[c];
    }
  }

  lemma {:induction false} TrailSent(b: Bounds, t: Trail, subject: string, batches: seq<seq<Question>>,
                                     steps: seq<Step>, slots: seq<Slot>)
    requires |batches| == |steps| == |slots| && NoGap(steps)
    ensures var after := TrailOf(b, t, subject, batches, steps, slots);
            && t.sent <= after.sent && t.log <= after.log && after.metadata == t.metadata
            && FirstOnes(News(t, after), subject, batches, steps, slots)
  {
    if steps != [] {
      hide Taken, FirstOnes;
      var last := |steps| - 1;
      var was := TrailOf(b, t, subject, batches[..last], steps[..last], slots[..last]);
      TrailSent(b, t, subject, batches[..last], steps[..last], slots[..last]);
      var after := TrailOf(b, t, subject, batches, steps, slots);
      TrailGrows(b, was, subject, batches[last], steps[last], slots[last]);
      TakenSends(b, was, subject, batches[last], steps[last], slots[last]);
      var one := if steps[last].Sent? then [RequestAt(subject, batches, steps, slots, last)] else [];
      assert News(t, after) == News(t, was) + one;
      FirstOnesNext(News(t, was), News(t, after), subject, batches, steps, slots);
    } else {
      assert News(t, t) == [];
    }
  }

  lemma TakenSends(b: Bounds, t: Trail, subject: string, asked: seq<Question>, s: Step, slot: Slot)
    ensures Taken(b, t, subject, asked, s, slot).sent == t.sent +
              if s.Sent? then [Request(false, subject, asked, s.timeout, slot.started, slot.http, slot.elapsed)] else []
  {
  }

  lemma RunHasNoGap(t: Terms, counts: seq<nat>, slots: seq<Slot>)
    requires |counts| == |slots|
    ensures NoGap(Run(t, counts, slots).steps)
  {
    hide Run;
    var steps := Run(t, counts, slots).steps;
    forall i, j | 0 <= i < j < |steps| && steps[i].NotSent? ensures steps[j].NotSent? {
      NothingAfterAGap(t, counts, slots, i, j);
    }
  }

  /** The request keeps the option of the client and both published maxima, the bytes from two questions on. */
  predicate KeepsThePublished(req: Request, quote: Quote, most: nat, published: Published) {
    && 1 <= |req.asked| <= Max(most, 1)
    && (published.items.Some? ==> |req.asked| <= published.items.value)
    && (published.bytes.Some? && |req.asked| >= 2 ==>
          |BatchBody(quote, req.subject, req.asked)| <= published.bytes.value)
  }

  /** A request of the history that asked the questions of this chunk, within the time of one request. */
  predicate AsksChunk(req: Request, subject: string, questions: seq<Question>, chunk: Chunk, timeout: nat) {
    && InBatch(chunk, questions)
    && !req.use && req.subject == subject && req.asked == Asked(questions, chunk) && req.timeout <= timeout
  }

  /** The requests of a call in the history. Each asks one chunk of the plan, in the order of the plan; only the last
      one may have no answer in time; and none waits past the deadline of a split call. */
  predicate OfTheCall(added: seq<Request>, subject: string, questions: seq<Question>, r: CallRecord)
    requires |r.slots| == |r.chunks|
  {
    && |added| <= |r.chunks|
    && (forall c | 0 <= c < |added| :: AsksChunk(added[c], subject, questions, r.chunks[c], r.terms.timeout))
    && (forall c | 0 <= c < |added| - 1 :: !ReplyTo(added[c], r.terms.maxAnswerBytes).Silent?)
    && (r.terms.split ==> forall c | 0 <= c < |added| :: r.slots[c].before + added[c].timeout <= r.terms.deadline)
  }

  /** Why a call stops before its last chunk: its last request had no answer in time, or its deadline had passed when
      the next one was due. */
  predicate StoppedFor(added: seq<Request>, r: CallRecord)
    requires |added| < |r.chunks| == |r.slots|
  {
    || (added != [] && ReplyTo(added[|added| - 1], r.terms.maxAnswerBytes).Silent?)
    || (r.terms.split && r.slots[|added|].before >= r.terms.deadline)
  }

  /** The requests are the sent steps of the run: the first ones, each with its chunk and its own reply. */
  ghost predicate SentAs(added: seq<Request>, subject: string, questions: seq<Question>, r: CallRecord) {
    && |added| <= |r.chunks| == |r.slots| && AllInBatch(r.chunks, questions)
    && var steps := Run(r.terms, Counts(r.chunks), r.slots).steps;
       && (forall c | 0 <= c < |added| ::
             && steps[c] == Sent(added[c].timeout, ReplyTo(added[c], r.terms.maxAnswerBytes))
             && !added[c].use && added[c].subject == subject && added[c].asked == Asked(questions, r.chunks[c]))
       && (forall c | |added| <= c < |r.chunks| :: steps[c].NotSent?)
  }

  lemma SentAsRun(b: Bounds, before: Trail, after: Trail, subject: string, questions: seq<Question>, r: CallRecord)
    requires Left(b, before, after, subject, questions, r)
    ensures before.sent <= after.sent && before.log <= after.log
    ensures SentAs(News(before, after), subject, questions, r)
    ensures after.metadata == before.metadata + if r.ask == [] then [] else [r.published]
  {
    hide Run, TrailOf, ReplyOf;
    var counts, batches := Counts(r.chunks), Batches(questions, r.chunks);
    var steps := Run(r.terms, counts, r.slots).steps;
    RunHasNoGap(r.terms, counts, r.slots);
    TrailSent(b, Looked(before, r.ask != [], r.published), subject, batches, steps, r.slots);
    var added := News(before, after);
    forall c | 0 <= c < |added|
      ensures steps[c] == Sent(added[c].timeout, ReplyTo(added[c], r.terms.maxAnswerBytes))
    {
      SentWith(r.terms, counts, r.slots, c);
      assert added[c] == RequestAt(subject, batches, steps, r.slots, c);
      assert |added[c].asked| == counts[c];
    }
  }

  lemma WhyItStopped(t: Terms, counts: seq<nat>, slots: seq<Slot>, n: nat)
    requires |counts| == |slots| && n < |slots|
    requires var steps := Run(t, counts, slots).steps;
             steps[n].NotSent? && forall c | 0 <= c < n :: steps[c].Sent?
    ensures var steps := Run(t, counts, slots).steps;
            || (n > 0 && steps[n - 1].reply.Silent?)
            || (t.split && slots[n].before >= t.deadline)
  {
    hide ReplyOf;
    var steps, q := Run(t, counts, slots).steps, Run(t, counts[..n], slots[..n]);
    RunPrefix(t, counts, slots, n);
    StepAt(t, counts, slots, n);
    FlagsMean(t, counts[..n], slots[..n]);
    forall c | 0 <= c < n ensures q.steps[c] == steps[c] {
      assert steps[..n][c] == steps[c];
    }
    forall c | 0 <= c < n && steps[c].reply.Silent? ensures c == n - 1 {
      if c < n - 1 {
        NothingAfterSilence(t, counts, slots, c, n - 1);
      }
    }
  }

  lemma RequestsOfTheRun(added: seq<Request>, subject: string, questions: seq<Question>, r: CallRecord)
    requires SentAs(added, subject, questions, r)
    ensures OfTheCall(added, subject, questions, r)
    ensures |added| < |r.chunks| ==> StoppedFor(added, r)
  {
    hide Run, ReplyOf, InBatch, Asked;
    var counts := Counts(r.chunks);
    forall c | 0 <= c < |added|
      ensures added[c].timeout <= r.terms.timeout
      ensures r.terms.split ==> r.slots[c].before + added[c].timeout <= r.terms.deadline
    {
      NoWaitPastTheDeadline(r.terms, counts, r.slots, c);
    }
    forall c | 0 <= c < |added| - 1 ensures !ReplyTo(added[c], r.terms.maxAnswerBytes).Silent? {
      if ReplyTo(added[c], r.terms.maxAnswerBytes).Silent? {
        NothingAfterSilence(r.terms, counts, r.slots, c, c + 1);
      }
    }
    if |added| < |r.chunks| {
      WhyItStopped(r.terms, counts, r.slots, |added|);
    }
  }

  lemma RequestsKeepThePublished(quote: Quote, most: nat, added: seq<Request>, subject: string,
                                 questions: seq<Question>, r: CallRecord)
    requires Planned(r, quote, most, subject, questions) && SentAs(added, subject, questions, r)
    ensures added != [] ==> r.published.Some? && r.ask != []
    ensures forall req | req in added :: KeepsThePublished(req, quote, most, r.published.value)
  {
    hide Run, ReplyOf, BatchBody, Asked;
    forall req | req in added ensures KeepsThePublished(req, quote, most, r.published.value) {
      var c :| 0 <= c < |added| && added[c] == req;
      assert r.chunks[c] in r.chunks;
    }
  }

  /** What the history says of one call: the requests of the first chunks of the plan, and no request is left out
      without its reason. */
  lemma HistoryOfACall(b: Bounds, quote: Quote, most: nat, before: Trail, after: Trail, subject: string,
                       questions: seq<Question>, r: CallRecord)
    requires Planned(r, quote, most, subject, questions) && Left(b, before, after, subject, questions, r)
    ensures before.sent <= after.sent && before.log <= after.log
    ensures OfTheCall(News(before, after), subject, questions, r)
    ensures |News(before, after)| < |r.chunks| ==> StoppedFor(News(before, after), r)
    ensures News(before, after) != [] ==>
              r.published.Some? && after.metadata == before.metadata + [r.published]
    ensures forall req | req in News(before, after) :: KeepsThePublished(req, quote, most, r.published.value)
  {
    hide Planned, Left, OfTheCall, KeepsThePublished, Run, ReplyOf, AllInBatch;
    SentAsRun(b, before, after, subject, questions, r);
    RequestsOfTheRun(News(before, after), subject, questions, r);
    RequestsKeepThePublished(quote, most, News(before, after), subject, questions, r);
  }

  /** Question i is question k of request c of the history. */
  predicate AskedAs(added: seq<Request>, chunks: seq<Chunk>, c: int, k: int, i: nat) {
    0 <= c < |added| && c < |chunks| && 0 <= k < |chunks[c]| && chunks[c][k] == i
  }

  /** The reply to this request is read: it came in time, with status 200, within its bytes, and is readable. */
  ghost predicate GoodReply(req: Request, maxAnswerBytes: nat) {
    && Delivered(req.http, req.elapsed, req.timeout, maxAnswerBytes)
    && ReadableBody(req.http.body, |req.asked|)
  }

  /** The history has a true answer to question i on the wire: a reply in time, with status 200 and within its bytes, to
      the request that asked it, with the decision true in the item at the place of the question. */
  ghost predicate AnsweredTrue(added: seq<Request>, chunks: seq<Chunk>, maxAnswerBytes: nat, i: nat) {
    exists c, k :: AskedAs(added, chunks, c, k, i) && TrueOnTheWire(added[c], k, maxAnswerBytes)
  }

  /** A decision of a call allows exactly when the call was not cut and the kept answer, or else the answer of the
      history at the question's own place, is true. */
  lemma AllowedExactlyByAnAnswer(b: Bounds, quote: Quote, most: nat, before: Trail, after: Trail, subject: string,
                                 questions: seq<Question>, r: CallRecord, out: seq<Decision>, i: nat)
    requires Planned(r, quote, most, subject, questions) && DecidedBy(r, out) && i < |questions|
    requires Left(b, before, after, subject, questions, r)
    ensures before.sent <= after.sent
    ensures out[i].allowed <==>
              && !Run(r.terms, Counts(r.chunks), r.slots).expired
              && (if r.cached[i].Some? then r.cached[i].value.decision
                  else AnsweredTrue(News(before, after), r.chunks, r.terms.maxAnswerBytes, i))
  {
    hide PublishedPlan, Run, ReplyOf, TrailOf, Batches, TrueOnTheWire;
    SentAsRun(b, before, after, subject, questions, r);
    var p, added := Run(r.terms, Counts(r.chunks), r.slots), News(before, after);
    if !p.expired && r.cached[i].None? {
      if r.published.Some? {
        PlanFlattens(quote, subject, questions, most, r.published.value, r.ask, r.chunks);
        var c, k := FlattenHas(r.chunks, i);
        assert out[r.chunks[c][k]] == StepDecision(p.steps[c], k);
        forall d, j | AskedAs(added, r.chunks, d, j, i) ensures
          out[i].allowed <==> TrueOnTheWire(added[d], j, r.terms.maxAnswerBytes) {
          TrueOnTheWireMeaning(added[d], j, r.terms.maxAnswerBytes);
          assert out[r.chunks[d][j]] == StepDecision(p.steps[d], j);
        }
        assert c < |added| ==> AskedAs(added, r.chunks, c, k, i);
      }
    }
  }

  /** Each decision of a call, field by field. A call that was cut gives failures. A kept answer gives its decision. Any
      other question has the decision of its own item in a reply that is read, and without such a reply a failure. */
  lemma WhatADecisionSays(b: Bounds, quote: Quote, most: nat, before: Trail, after: Trail, subject: string,
                          questions: seq<Question>, r: CallRecord, out: seq<Decision>, i: nat)
    requires Planned(r, quote, most, subject, questions) && DecidedBy(r, out) && i < |questions|
    requires Left(b, before, after, subject, questions, r)
    ensures before.sent <= after.sent
    ensures SaysAsAsked(News(before, after), r, i, out[i])
  {
    hide Planned, DecidedBy, Left, SentAs, SaysAsAsked;
    SentAsRun(b, before, after, subject, questions, r);
    DecisionOfTheRequests(News(before, after), quote, most, subject, questions, r, out, i);
  }

  ghost predicate SaysAsAsked(added: seq<Request>, r: CallRecord, i: nat, d: Decision)
    requires |r.slots| == |r.chunks| && i < |r.cached|
  {
    if Run(r.terms, Counts(r.chunks), r.slots).expired then IsFailure(d)
    else if r.cached[i].Some? then Says(d, r.cached[i].value, FromCache)
    else SaysItsItem(added, r.chunks, r.terms.maxAnswerBytes, i, d)
  }

  lemma DecisionOfTheRequests(added: seq<Request>, quote: Quote, most: nat, subject: string, questions: seq<Question>,
                              r: CallRecord, out: seq<Decision>, i: nat)
    requires Planned(r, quote, most, subject, questions) && DecidedBy(r, out) && i < |questions|
    requires SentAs(added, subject, questions, r)
    ensures SaysAsAsked(added, r, i, out[i])
  {
    hide PublishedPlan, Run, ReplyOf, SaysItsItem;
    var p := Run(r.terms, Counts(r.chunks), r.slots);
    if !p.expired && r.cached[i].None? {
      if r.published.Some? {
        PlanFlattens(quote, subject, questions, most, r.published.value, r.ask, r.chunks);
        var c, k := FlattenHas(r.chunks, i);
        forall d, j | 0 <= d < |r.chunks| && 0 <= j < |r.chunks[d]| && r.chunks[d][j] == i
          ensures out[i] == StepDecision(p.steps[d], j)
        {
        }
        ItemOfTheStep(added, subject, questions, r, i, c, k, out[i]);
      } else {
        NoRequestSays(added, r.chunks, r.terms.maxAnswerBytes, i, out[i]);
      }
    }
  }

  /** The decision is what the item of the question says, in a reply that is read, or a failure without one. */
  ghost predicate SaysItsItem(added: seq<Request>, chunks: seq<Chunk>, maxAnswerBytes: nat, i: nat, d: Decision) {
    if exists c, k :: AskedAs(added, chunks, c, k, i) && GoodReply(added[c], maxAnswerBytes) then
      exists c, k, a :: AskedAs(added, chunks, c, k, i) && GoodReply(added[c], maxAnswerBytes)
        && ItemCarries(added[c].http.body, |added[c].asked|, k, a) && Says(d, a, FromPdp)
    else IsFailure(d)
  }

  lemma NoRequestSays(added: seq<Request>, chunks: seq<Chunk>, maxAnswerBytes: nat, i: nat, d: Decision)
    requires d == FAILED && chunks == []
    ensures SaysItsItem(added, chunks, maxAnswerBytes, i, d)
  {
  }

  lemma ItemOfTheStep(added: seq<Request>, subject: string, questions: seq<Question>, r: CallRecord, i: nat, c: nat,
                      k: nat, d: Decision)
    requires SentAs(added, subject, questions, r) && c < |r.chunks| && k < |r.chunks[c]| && r.chunks[c][k] == i
    requires forall e, j | 0 <= e < |r.chunks| && 0 <= j < |r.chunks[e]| && r.chunks[e][j] == i ::
               d == StepDecision(Run(r.terms, Counts(r.chunks), r.slots).steps[e], j)
    ensures SaysItsItem(added, r.chunks, r.terms.maxAnswerBytes, i, d)
  {
    hide Run, ReplyOf, ReadableBody, Delivered, ItemCarries;
    var most := r.terms.maxAnswerBytes;
    forall e, j | AskedAs(added, r.chunks, e, j, i)
      ensures GoodReply(added[e], most) <==> ReplyTo(added[e], most).Answers?
      ensures GoodReply(added[e], most) ==>
                exists a :: ItemCarries(added[e].http.body, |added[e].asked|, j, a) && Says(d, a, FromPdp)
      ensures !GoodReply(added[e], most) ==> IsFailure(d)
    {
      var req := added[e];
      ReplyMeaning(req.http, req.elapsed, req.timeout, most, |req.asked|);
      var reply := ReplyTo(req, most);
      if reply.Answers? {
        assert ItemCarries(req.http.body, |req.asked|, j, reply.answers[j]) && Says(d, reply.answers[j], FromPdp);
      }
    }
    if c < |added| {
      assert AskedAs(added, r.chunks, c, k, i);
    } else {
      assert IsFailure(d);
    }
  }

  predicate IsTrueTo(ev: Event, use: bool, subject: string, q: Question) {
    ev.use == use && ev.subject == subject && ev.question == q && ev.answer.decision
  }

  /** A request that is answered puts its answers in the log. */
  lemma {:induction false} TrailLogs(b: Bounds, t: Trail, subject: string, batches: seq<seq<Question>>,
                                     steps: seq<Step>, slots: seq<Slot>, c: nat, k: nat)
    requires |batches| == |steps| == |slots| && c < |steps| && k < |batches[c]|
    requires steps[c].Sent? && steps[c].reply.Answers? && |steps[c].reply.answers| == |batches[c]|
    ensures var after := TrailOf(b, t, subject, batches, steps, slots);
            && t.log <= after.log
            && Event(false, subject, batches[c][k], steps[c].reply.answers[k], slots[c].read) in NewAnswers(t, after)
  {
    hide StoredAll;
    var last := |steps| - 1;
    var was := TrailOf(b, t, subject, batches[..last], steps[..last], slots[..last]);
    LogGrows(b, t, subject, batches[..last], steps[..last], slots[..last]);
    var after := Taken(b, was, subject, batches[last], steps[last], slots[last]);
    TrailGrows(b, was, subject, batches[last], steps[last], slots[last]);
    var ev := Event(false, subject, batches[c][k], steps[c].reply.answers[k], slots[c].read);
    if c == last {
      var events := EventsOf(subject, batches[c], steps[c].reply.answers, slots[c].read);
      assert after.log == was.log + events && events[k] == ev;
      assert after.log[|was.log| + k] == ev;
    } else {
      TrailLogs(b, t, subject, batches[..last], steps[..last], slots[..last], c, k);
      var j :| 0 <= j < |NewAnswers(t, was)| && NewAnswers(t, was)[j] == ev;
      assert NewAnswers(t, after)[j] == ev;
    }
  }

  lemma {:induction false} LogGrows(b: Bounds, t: Trail, subject: string, batches: seq<seq<Question>>,
                                    steps: seq<Step>, slots: seq<Slot>)
    requires |batches| == |steps| == |slots|
    ensures t.log <= TrailOf(b, t, subject, batches, steps, slots).log
  {
    if steps != [] {
      hide Taken;
      var last := |steps| - 1;
      LogGrows(b, t, subject, batches[..last], steps[..last], slots[..last]);
      var was := TrailOf(b, t, subject, batches[..last], steps[..last], slots[..last]);
      TrailGrows(b, was, subject, batches[last], steps[last], slots[last]);
    }
  }

  /** An allowed decision has a true answer to this very question: one that came in this call, or one that came before
      and is still good at the time of the call. */
  ghost predicate AllowedBy(log: seq<Event>, added: seq<Event>, ttl: nat, subject: string, q: Question, now: nat) {
    || (exists ev | ev in added :: IsTrueTo(ev, false, subject, q))
    || (exists ev | ev in log :: IsTrueTo(ev, false, subject, q) && StillGood(ev, ttl, false, subject, q, now))
  }

  /** A request of the history asked this question, and the item at its place has the decision true, in a reply that
      came in time, with status 200 and within its bytes. */
  ghost predicate AskedAndTrue(sent: seq<Request>, use: bool, subject: string, q: Question, maxAnswerBytes: nat) {
    exists req, k | req in sent && 0 <= k < |req.asked| ::
      && req.use == use && req.subject == subject && req.asked[k] == q
      && TrueOnTheWire(req, k, maxAnswerBytes)
  }

  /** A true answer of the log was on the wire. */
  lemma TrueAnswersWereSent(sent: seq<Request>, log: seq<Event>, ev: Event, maxAnswerBytes: nat)
    requires Sourced(sent, log, maxAnswerBytes) && ev in log && ev.answer.decision
    ensures AskedAndTrue(sent, ev.use, ev.subject, ev.question, maxAnswerBytes)
  {
    hide ReplyOf, TrueOnTheWire;
    assert Given(sent, ev, maxAnswerBytes);
    var req :| req in sent && Gave(req, ev, maxAnswerBytes);
    var k :| 0 <= k < |req.asked| && req.asked[k] == ev.question
             && ReplyTo(req, maxAnswerBytes).answers[k] == ev.answer;
    TrueOnTheWireMeaning(req, k, maxAnswerBytes);
  }

  /** Nothing is allowed without a true answer to this very question in the log, and none is in the log without a
      request that asked it and a reply that says true. */
  lemma NothingAllowedUnasked(b: Bounds, quote: Quote, most: nat, before: Trail, after: Trail, subject: string,
                              questions: seq<Question>, r: CallRecord, out: seq<Decision>, i: nat)
    requires Planned(r, quote, most, subject, questions) && DecidedBy(r, out) && i < |questions|
    requires Left(b, before, after, subject, questions, r)
    requires r.cached[i].Some? ==>
               FromEarlierAnswer(before.log, b.ttl, false, subject, questions[i], r.cached[i].value, r.now)
    requires out[i].allowed
    ensures before.log <= after.log
    ensures AllowedBy(before.log, NewAnswers(before, after), b.ttl, subject, questions[i], r.now)
    ensures Sourced(after.sent, after.log, r.terms.maxAnswerBytes) ==>
              AskedAndTrue(after.sent, false, subject, questions[i], r.terms.maxAnswerBytes)
  {
    hide PublishedPlan, Run, ReplyOf, TrailOf, StillGood, TrueOnTheWire, Sourced, AskedAndTrue;
    SentAsRun(b, before, after, subject, questions, r);
    AllowedExactlyByAnAnswer(b, quote, most, before, after, subject, questions, r, out, i);
    if r.cached[i].Some? {
      AllowedByKept(before.log, NewAnswers(before, after), b.ttl, subject, questions[i], r.cached[i].value, r.now);
    } else {
      AllowedByReply(b, before, after, subject, questions, r, i);
    }
    if Sourced(after.sent, after.log, r.terms.maxAnswerBytes) {
      AllowedWasSent(before, after, b.ttl, subject, questions[i], r.now, r.terms.maxAnswerBytes);
    }
  }

  lemma AllowedWasSent(before: Trail, after: Trail, ttl: nat, subject: string, q: Question, now: nat,
                       maxAnswerBytes: nat)
    requires before.log <= after.log && AllowedBy(before.log, NewAnswers(before, after), ttl, subject, q, now)
    requires Sourced(after.sent, after.log, maxAnswerBytes)
    ensures AskedAndTrue(after.sent, false, subject, q, maxAnswerBytes)
  {
    hide StillGood, Sourced, AskedAndTrue;
    var added := NewAnswers(before, after);
    if ev :| ev in added && IsTrueTo(ev, false, subject, q) {
      assert ev in after.log;
      TrueAnswersWereSent(after.sent, after.log, ev, maxAnswerBytes);
    } else {
      var ev :| ev in before.log && IsTrueTo(ev, false, subject, q);
      assert ev in after.log;
      TrueAnswersWereSent(after.sent, after.log, ev, maxAnswerBytes);
    }
  }

  lemma AllowedByReply(b: Bounds, before: Trail, after: Trail, subject: string, questions: seq<Question>,
                       r: CallRecord, i: nat)
    requires Left(b, before, after, subject, questions, r) && i < |questions|
    requires before.sent <= after.sent && SentAs(News(before, after), subject, questions, r)
    requires AnsweredTrue(News(before, after), r.chunks, r.terms.maxAnswerBytes, i)
    ensures before.log <= after.log
    ensures exists ev | ev in NewAnswers(before, after) :: IsTrueTo(ev, false, subject, questions[i])
  {
    hide Run, ReplyOf, TrailOf, TrueOnTheWire;
    var added, counts := News(before, after), Counts(r.chunks);
    var steps := Run(r.terms, counts, r.slots).steps;
    var c, k :| AskedAs(added, r.chunks, c, k, i) && TrueOnTheWire(added[c], k, r.terms.maxAnswerBytes);
    TrueOnTheWireMeaning(added[c], k, r.terms.maxAnswerBytes);
    AnswersMatchTheQuestions(r.terms, counts, r.slots, c);
    var batches := Batches(questions, r.chunks);
    TrailLogs(b, Looked(before, r.ask != [], r.published), subject, batches, steps, r.slots, c, k);
    var ev := Event(false, subject, batches[c][k], steps[c].reply.answers[k], r.slots[c].read);
    assert IsTrueTo(ev, false, subject, questions[i]);
  }

  lemma AllowedByKept(log: seq<Event>, added: seq<Event>, ttl: nat, subject: string, q: Question, answer: Answer,
                      now: nat)
    requires FromEarlierAnswer(log, ttl, false, subject, q, answer, now) && answer.decision
    ensures AllowedBy(log, added, ttl, subject, q, now)
  {
    var ev :| ev in log && ev.answer == answer && StillGood(ev, ttl, false, subject, q, now);
    assert IsTrueTo(ev, false, subject, q);
  }
}
