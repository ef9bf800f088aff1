/** The use of a run of SQL (access_run_use, src/access_ceilings.cpp; access_decide and access_decide_use,
    src/server_access.cpp): which of the two run actions pays for the run, over the PDP client. */
module AccessRun {
  import opened Common
  import opened AccessResource
  import opened PdpModel
  import opened PdpPlan
  import opened PdpCache
  import opened PdpCall
  import opened AccessHistory
  import opened AccessPdp
  import opened AccessCeilings

  /** What the question of a use met: a kept answer, no usable metadata and so nothing sent, or a request with the reply
      of the PDP. */
  datatype UseReply = FromKept(decision: Decision) | Unsent | Replied(request: Request, reply: Reply)

  /** One question of a run, when it was asked, what the client said and the final decision. `pdpTrue` is what the PDP
      itself decided; the call of a plain question has its record and its requests. */
  datatype Asked = UseAsked(action: string, now: nat, reply: UseReply, published: Option<Published>, pdpTrue: bool,
                            decision: Decision)
                 | PlainAsked(action: string, now: nat, call: CallRecord, requests: seq<Request>, heard: Decision,
                              decision: Decision)

  /** Who asks about which resource, what this server can apply, and the client that it asks. */
  datatype Context = Context(subject: string, resource: Resource, features: Features, options: Options, quote: Quote)

    function Heard(r: UseReply): Decision {
    match r
    case FromKept(d) => d
    case Unsent => FAILED
    case Replied(_, reply) => UseDecision(reply)
  }

  /** A kept answer is true with no units, or an exceeded budget; a reply holds one answer of the protocol. */
  predicate Possible(r: UseReply) {
    match r
    case FromKept(d) =>
      !d.failed && if d.allowed then d.usageUnits == Some(0) else d.reason == BudgetExceeded && d.retryAfter.Some?
    case Unsent => true
    case Replied(_, reply) => reply.Answers? ==> |reply.answers| == 1 && ProtocolAnswer(reply.answers[0])
  }

  /** The PDP may have taken a unit for this request: it is the question of a use, and its reply is not a false
      answer. */
  predicate MayTakeUnit(req: Request, maxAnswerBytes: nat) {
    var reply := ReplyTo(req, maxAnswerBytes);
    req.use && !(reply.Answers? && reply.answers != [] && !reply.answers[0].decision)
  }

  /** The request is this one question, alone. */
  predicate AsksOne(req: Request, use: bool, ctx: Context, action: string) {
    req.use == use && req.subject == ctx.subject && req.asked == [Question(action, ctx.resource, OnNode)]
  }

  /** The requests of a question. */
  function RequestsOfOne(a: Asked): seq<Request> {
    match a
    case UseAsked(_, _, reply, _, _, _) => if reply.Replied? then [reply.request] else []
    case PlainAsked(_, _, _, requests, _, _) => requests
  }

  /** What the look at the metadata for a question gave: none for a kept answer. */
  function LooksOfOne(a: Asked): seq<Option<Published>> {
    match a
    case UseAsked(_, _, reply, published, _, _) => if reply.FromKept? then [] else [published]
    case PlainAsked(_, _, call, _, _, _) => if call.ask == [] then [] else [call.published]
  }

  function LooksOf(trace: seq<Asked>): seq<Option<Published>> {
    if trace == [] then [] else LooksOf(trace[..|trace| - 1]) + LooksOfOne(trace[|trace| - 1])
  }

  /** The requests of all questions of a run, in their order. */
  function RequestsOf(trace: seq<Asked>): seq<Request> {
    if trace == [] then [] else RequestsOf(trace[..|trace| - 1]) + RequestsOfOne(trace[|trace| - 1])
  }

  /** The question, what the PDP client said to it, and the ceilings applied to that. Nothing is sent for a use only
      without usable metadata; a plain question has the decision of its call. */
  ghost predicate WellAsked(a: Asked, ctx: Context) {
    var q := Question(a.action, ctx.resource, OnNode);
    match a
    case UseAsked(action, _, reply, published, pdpTrue, decision) =>
      && Possible(reply)
      && pdpTrue == Heard(reply).allowed
      && Enforced(q, Heard(reply), ctx.features, true, decision)
      && (reply.Unsent? ==> published.None?)
      && (reply.Replied? ==>
            && AsksOne(reply.request, true, ctx, action)
            && reply.reply == ReplyTo(reply.request, ctx.options.maxAnswerBytes))
    case PlainAsked(action, now, call, requests, heard, decision) =>
      && (heard.failed ==> !heard.allowed)
      && Enforced(q, heard, ctx.features, true, decision)
      && CallOf(call, now, requests, heard, ctx, q)
      && forall req | req in requests :: AsksOne(req, false, ctx, action)
  }

  /** The decision comes from a call about this one question, and the requests are those of the call. */
  ghost predicate CallOf(r: CallRecord, now: nat, requests: seq<Request>, heard: Decision, ctx: Context, q: Question) {
    && Planned(r, ctx.quote, ctx.options.maxEvaluations, ctx.subject, [q])
    && DecidedBy(r, [heard]) && SentAs(requests, ctx.subject, [q], r)
    && r.now == now && r.terms.timeout == ctx.options.timeout && r.terms.maxAnswerBytes == ctx.options.maxAnswerBytes
  }

  /** The PDP gave a true answer to this question, with its units when it is the question of a use. */
  predicate SaidTrue(log: seq<Event>, use: bool, ctx: Context, action: string) {
    exists ev | ev in log ::
      IsTrueTo(ev, use, ctx.subject, Question(action, ctx.resource, OnNode)) && (use ==> ev.answer.usageUnits.Some?)
  }

  /** What the client said rests on the log: a true decision on a true answer to this very question, and a kept one on
      the answer that was kept and is still good when the question is asked. */
  ghost predicate Founded(a: Asked, log: seq<Event>, ctx: Context) {
    var q := Question(a.action, ctx.resource, OnNode);
    match a
    case UseAsked(action, now, reply, _, pdpTrue, _) =>
      && (pdpTrue ==> SaidTrue(log, true, ctx, action))
      && (reply.FromKept? ==> KeptIn(log, ctx, q, reply.decision, now))
    case PlainAsked(action, now, call, _, heard, _) =>
      && (heard.allowed ==> SaidTrue(log, false, ctx, action))
      && (forall kept | kept in call.cached && kept.Some? ::
            FromEarlierAnswer(log, ctx.options.bounds.ttl, false, ctx.subject, q, kept.value, now))
  }

  predicate KeptIn(log: seq<Event>, ctx: Context, q: Question, d: Decision, now: nat) {
    exists ev | ev in log :: KeptUse(ev, ctx.options.bounds.ttl, ctx.subject, q, d, now)
  }

  lemma StillFounded(a: Asked, log: seq<Event>, more: seq<Event>, ctx: Context)
    requires Founded(a, log, ctx) && log <= more
    ensures Founded(a, more, ctx)
  {
    hide KeptUse, IsTrueTo, StillGood;
    assert forall ev | ev in log :: ev in more;
  }

  /** A false decision after which the other action may be asked. */
  predicate PlainFalse(a: Asked)
    requires a.UseAsked?
  {
    && !a.decision.allowed && !a.decision.failed && !a.decision.usageInvalid && !a.pdpTrue
    && a.decision.reason != BudgetExceeded
  }

  /** A plain false is a false answer that the PDP gave to this very question, so it took nothing. */
  lemma PlainFalseTookNothing(a: Asked, ctx: Context)
    requires a.UseAsked? && WellAsked(a, ctx) && PlainFalse(a)
    ensures a.reply.Replied? && a.reply.reply.Answers? && !a.reply.reply.answers[0].decision
    ensures !MayTakeUnit(a.reply.request, ctx.options.maxAnswerBytes)
    ensures a.decision == Heard(a.reply) && OutcomeOf(a.decision) == Denied
  {
    hide ReplyTo, CallOf;
  }

  /** A true answer with units 0 comes from the cache; a fresh true decision has its units. */
  lemma AllowedUseHasUnits(a: Asked, ctx: Context)
    requires a.UseAsked? && WellAsked(a, ctx) && a.decision.allowed
    ensures a.pdpTrue && a.decision == Heard(a.reply) && a.decision.usageUnits.Some?
    ensures forall l | l in a.decision.limits :: CanApply(l, a.action, ctx.features)
  {
    hide ReplyTo;
  }

  /** What one question leaves: its requests and its look at the metadata, and it is asked within the call. */
  ghost predicate LeftBy(a: Asked, before: Trail, from: nat, after: Trail, to: nat) {
    && from <= a.now <= to && before.log <= after.log
    && after.sent == before.sent + RequestsOfOne(a)
    && after.metadata == before.metadata + LooksOfOne(a)
  }

  /** The action of the use, with the question of the use (access_decide_use). */
  method AskUse(pdp: PdpClient, subject: string, action: string, resource: Resource, features: Features)
    returns (decision: Decision, pdpTrue: bool, ghost asked: Asked)
    requires pdp.Valid() && Clean(subject, Question(action, resource, OnNode))
    modifies pdp
    ensures pdp.Valid()
    ensures asked.UseAsked? && asked.action == action && asked.decision == decision && asked.pdpTrue == pdpTrue
    ensures LeftBy(asked, old(pdp.State()), old(pdp.clock), pdp.State(), pdp.clock)
    ensures var ctx := Context(subject, resource, features, pdp.options, pdp.quote);
            WellAsked(asked, ctx) && Founded(asked, pdp.log, ctx)
  {
    hide PdpClient.Valid, Enforced, UseLeft, HasKept, KeptUse, KeyOf, Clean, WellAsked, Founded, Heard;
    var q := Question(action, resource, OnNode);
    ghost var before, ctx := pdp.State(), Context(subject, resource, features, pdp.options, pdp.quote);
    var heard;
    ghost var now, published;
    heard, now, published := pdp.DecideUse(subject, q);
    ghost var kept := HasKept(pdp.options.bounds.ttl, old(pdp.index), KeyOf(true, subject, q), now);
    ghost var reply := HeardUse(before, pdp.State(), ctx, action, heard, kept, published, now);
    pdpTrue := heard.allowed;
    decision := EnforceOne(q, heard, features, true);
    asked := UseAsked(action, now, reply, published, pdpTrue, decision);
    UseIsWellAsked(asked, pdp.log, ctx);
    UseIsFounded(asked, pdp.log, ctx);
  }

  /** The case of the question of a use, from what it left. */
  lemma HeardUse(before: Trail, after: Trail, ctx: Context, action: string, out: Decision, kept: bool,
                 published: Option<Published>, now: nat)
    returns (reply: UseReply)
    requires UseLeft(ctx.options, Looked(before, !kept, published), after, ctx.subject,
                     Question(action, ctx.resource, OnNode), out, if kept then None else published)
    requires if kept then KeptIn(before.log, ctx, Question(action, ctx.resource, OnNode), out, now)
             else after.sent == before.sent ==> out == FAILED
    ensures Heard(reply) == out && HeardFrom(reply, ctx, action, after.log, now)
    ensures before.log <= after.log
    ensures after.sent == before.sent + if reply.Replied? then [reply.request] else []
    ensures after.metadata == before.metadata + if reply.FromKept? then [] else [published]
    ensures reply.Unsent? ==> published.None?
  {
    hide ReplyTo, KeptUse, UseNoted, DecisionFrom, ProtocolAnswer;
    var q := Question(action, ctx.resource, OnNode);
    if kept {
      reply := FromKept(out);
      var ev :| ev in before.log && KeptUse(ev, ctx.options.bounds.ttl, ctx.subject, q, out, now);
      KeptIsFounded(before.log, ev, ctx, action, out, now);
    } else if published.Some? {
      var req := after.sent[|before.sent|];
      reply := Replied(req, ReplyTo(req, ctx.options.maxAnswerBytes));
      if reply.reply.Answers? {
        var at: nat :| UseNoted(ctx.options.bounds, before.log, before.order, after.log, after.order, ctx.subject, q,
                                reply.reply.answers[0], at);
        ReplyIsFounded(ctx.options.bounds, before, after, ctx, action, reply, at);
      }
    } else {
      reply := Unsent;
    }
  }

  /** What the reply to a use rests on. */
  predicate HeardFrom(r: UseReply, ctx: Context, action: string, log: seq<Event>, now: nat) {
    && Possible(r)
    && (Heard(r).allowed ==> SaidTrue(log, true, ctx, action))
    && (r.FromKept? ==> KeptIn(log, ctx, Question(action, ctx.resource, OnNode), r.decision, now))
    && (r.Replied? ==>
          && AsksOne(r.request, true, ctx, action)
          && r.reply == ReplyTo(r.request, ctx.options.maxAnswerBytes))
  }

  lemma KeptIsFounded(log: seq<Event>, ev: Event, ctx: Context, action: string, out: Decision, now: nat)
    requires ev in log
    requires KeptUse(ev, ctx.options.bounds.ttl, ctx.subject, Question(action, ctx.resource, OnNode), out, now)
    ensures Possible(FromKept(out))
    ensures out.allowed ==> SaidTrue(log, true, ctx, action)
  {
    assert out.allowed ==> IsTrueTo(ev, true, ctx.subject, Question(action, ctx.resource, OnNode));
  }

  lemma ReplyIsFounded(b: Bounds, before: Trail, after: Trail, ctx: Context, action: string, r: UseReply, at: nat)
    requires r.Replied? && r.reply.Answers? && |r.reply.answers| == 1
    requires UseNoted(b, before.log, before.order, after.log, after.order, ctx.subject,
                      Question(action, ctx.resource, OnNode), r.reply.answers[0], at)
    ensures before.log <= after.log
    ensures Heard(r).allowed ==> SaidTrue(after.log, true, ctx, action)
  {
    hide Stored;
    var q := Question(action, ctx.resource, OnNode);
    var ev := Event(true, ctx.subject, q, r.reply.answers[0], at);
    assert after.log[|before.log|] == ev;
    assert Heard(r).allowed ==> IsTrueTo(ev, true, ctx.subject, q);
  }

  lemma UseIsWellAsked(a: Asked, log: seq<Event>, ctx: Context)
    requires a.UseAsked? && a.pdpTrue == Heard(a.reply).allowed && (a.reply.Unsent? ==> a.published.None?)
    requires HeardFrom(a.reply, ctx, a.action, log, a.now)
    requires Enforced(Question(a.action, ctx.resource, OnNode), Heard(a.reply), ctx.features, true, a.decision)
    ensures WellAsked(a, ctx)
  {
    hide Enforced, Heard, Possible, ReplyTo, SaidTrue, KeptIn;
  }

  lemma UseIsFounded(a: Asked, log: seq<Event>, ctx: Context)
    requires a.UseAsked? && a.pdpTrue == Heard(a.reply).allowed && HeardFrom(a.reply, ctx, a.action, log, a.now)
    ensures Founded(a, log, ctx)
  {
    hide Heard, Possible, ReplyTo, KeptIn, SaidTrue;
  }

  /** The other action, with no use (access_decide). */
  method Ask(pdp: PdpClient, subject: string, action: string, resource: Resource, features: Features)
    returns (decision: Decision, ghost asked: Asked)
    requires pdp.Valid() && Clean(subject, Question(action, resource, OnNode))
    modifies pdp
    ensures pdp.Valid()
    ensures asked.PlainAsked? && asked.action == action && asked.decision == decision
    ensures decision.failed ==> !decision.allowed
    ensures LeftBy(asked, old(pdp.State()), old(pdp.clock), pdp.State(), pdp.clock)
    ensures var ctx := Context(subject, resource, features, pdp.options, pdp.quote);
            WellAsked(asked, ctx) && Founded(asked, pdp.log, ctx)
  {
    hide PdpClient.Valid, Clean, DecidedBy, FromEarlierAnswer, Run, Planned, Left, HasKept, KeyOf, InTurn, AsksOne,
      SaidTrue, WellAsked, Founded, Enforced;
    var q := Question(action, resource, OnNode);
    ghost var before, ctx := pdp.State(), Context(subject, resource, features, pdp.options, pdp.quote);
    assert forall p | p in [q] :: p == q;
    var out;
    ghost var r;
    out, r := pdp.Decide(subject, [q]);
    OneDecision(r, out, pdp.quote, pdp.options.maxEvaluations, subject, q);
    decision := EnforceOne(q, out[0], features, true);
    SentAsRun(pdp.options.bounds, before, pdp.State(), subject, [q], r);
    asked := PlainAsked(action, r.now, r, News(before, pdp.State()), out[0], decision);
    PlainFromHistory(before, pdp.State(), asked, ctx, out);
    PlainNotBoth(asked, ctx);
  }

  lemma PlainNotBoth(a: Asked, ctx: Context)
    requires a.PlainAsked? && WellAsked(a, ctx)
    ensures a.decision.failed ==> !a.decision.allowed
  {
    hide CallOf;
  }

  /** The requests and the true answer behind the decision of one plain question. */
  lemma PlainFromHistory(before: Trail, after: Trail, a: Asked, ctx: Context, out: seq<Decision>)
    requires a.PlainAsked? && before.sent <= after.sent && a.requests == News(before, after) && |out| == 1
    requires a.heard == out[0] && a.now == a.call.now && (a.heard.failed ==> !a.heard.allowed)
    requires Enforced(Question(a.action, ctx.resource, OnNode), a.heard, ctx.features, true, a.decision)
    requires a.call.terms.timeout == ctx.options.timeout
    requires a.call.terms.maxAnswerBytes == ctx.options.maxAnswerBytes
    requires var questions := [Question(a.action, ctx.resource, OnNode)];
             && Planned(a.call, ctx.quote, ctx.options.maxEvaluations, ctx.subject, questions) && DecidedBy(a.call, out)
             && Left(ctx.options.bounds, before, after, ctx.subject, questions, a.call)
             && (a.call.cached[0].Some? ==>
                   FromEarlierAnswer(before.log, ctx.options.bounds.ttl, false, ctx.subject, questions[0],
                                     a.call.cached[0].value, a.now))
    ensures before.log <= after.log && after.metadata == before.metadata + LooksOfOne(a)
    ensures WellAsked(a, ctx) && Founded(a, after.log, ctx)
  {
    hide DecidedBy, FromEarlierAnswer, Run, Left, PublishedPlan, ReplyOf, StillGood, IsTrueTo, Enforced;
    var q := Question(a.action, ctx.resource, OnNode);
    HistoryOfACall(ctx.options.bounds, ctx.quote, ctx.options.maxEvaluations, before, after, ctx.subject, [q], a.call);
    SentAsRun(ctx.options.bounds, before, after, ctx.subject, [q], a.call);
    assert out == [a.heard];
    forall req | req in a.requests ensures AsksOne(req, false, ctx, a.action) {
      var c :| 0 <= c < |a.requests| && a.requests[c] == req;
      OneInEachChunk(a.call, ctx.quote, ctx.options.maxEvaluations, ctx.subject, q, c);
    }
    if a.heard.allowed {
      NothingAllowedUnasked(ctx.options.bounds, ctx.quote, ctx.options.maxEvaluations, before, after, ctx.subject, [q],
                            a.call, out, 0);
      assert forall ev | ev in NewAnswers(before, after) || ev in before.log :: ev in after.log;
    }
    if a.call.cached[0].Some? {
      EarlierStays(before.log, after.log, ctx.options.bounds.ttl, ctx.subject, q, a.call.cached[0].value, a.now);
    }
  }

  lemma EarlierStays(log: seq<Event>, more: seq<Event>, ttl: nat, subject: string, q: Question, answer: Answer,
                     now: nat)
    requires FromEarlierAnswer(log, ttl, false, subject, q, answer, now) && log <= more
    ensures FromEarlierAnswer(more, ttl, false, subject, q, answer, now)
  {
    hide StillGood;
    assert forall ev | ev in log :: ev in more;
  }

  lemma OneInEachChunk(r: CallRecord, quote: Quote, most: nat, subject: string, q: Question, c: nat)
    requires Planned(r, quote, most, subject, [q]) && c < |r.chunks|
    ensures InBatch(r.chunks[c], [q]) && PdpPlan.Asked([q], r.chunks[c]) == [q]
  {
    var chunk := r.chunks[c];
    assert chunk in r.chunks && WithinPublished(quote, subject, [q], most, r.published.value, chunk);
    ChunksApart(r.cached, r.ask, r.chunks, c);
    OneQuestion(chunk);
  }

  /** Increasing places of one question are one place. */
  lemma OneQuestion(chunk: Chunk)
    requires Increasing(chunk) && chunk != [] && forall k | 0 <= k < |chunk| :: chunk[k] < 1
    ensures chunk == [0]
  {
    AtLeastItsIndex(chunk, |chunk| - 1);
  }

  lemma {:induction false} AtLeastItsIndex(chunk: Chunk, k: nat)
    requires Increasing(chunk) && k < |chunk|
    ensures chunk[k] >= k
  {
    if k > 0 {
      AtLeastItsIndex(chunk, k - 1);
      assert chunk[k - 1] < chunk[k];
    }
  }

  lemma OneDecision(r: CallRecord, out: seq<Decision>, quote: Quote, most: nat, subject: string, q: Question)
    requires Planned(r, quote, most, subject, [q]) && DecidedBy(r, out)
    ensures |out| == 1 && (out[0].failed ==> !out[0].allowed)
  {
    hide PublishedPlan, Run;
    var p := Run(r.terms, Counts(r.chunks), r.slots);
    if !p.expired && r.cached[0].None? {
      if r.published.Some? {
        PlanFlattens(quote, subject, [q], most, r.published.value, r.ask, r.chunks);
        var c, k := FlattenHas(r.chunks, 0);
        assert out[r.chunks[c][k]] == StepDecision(p.steps[c], k);
      }
    }
  }

  const READ := "query.run.read"
  const WRITE := "query.run.write"

  function First(sql: SqlClass): string {
    if sql.Read? then READ else WRITE
  }

  function Second(sql: SqlClass): string {
    if sql.Read? then WRITE else READ
  }

  datatype RunUse = RunUse(allowed: bool, refusal: Decision, action: string, ceilings: RunCeilings, readOnly: bool)

  /** The questions of one run: the use of the first action; then, after a true decision, the other action without a
      use, and after a plain false the use of the other action. */
  ghost predicate Protocol(trace: seq<Asked>, sql: SqlClass, ctx: Context) {
    && 1 <= |trace| <= 2
    && (forall a | a in trace :: WellAsked(a, ctx))
    && trace[0].UseAsked? && trace[0].action == First(sql)
    && (|trace| == 2 <==> trace[0].decision.allowed || PlainFalse(trace[0]))
    && (|trace| == 2 ==> trace[1].action == Second(sql) && (trace[1].PlainAsked? <==> trace[0].decision.allowed))
  }

  /** After a request that may have taken a unit, no question of a use is sent; so one request at most takes one. */
  predicate OneUnit(requests: seq<Request>, maxAnswerBytes: nat) {
    forall i, j | 0 <= i < j < |requests| && MayTakeUnit(requests[i], maxAnswerBytes) :: !requests[j].use
  }

  /** Of the requests of one run, at most one may have taken a unit, and no question of a use comes after it. */
  lemma OneUnitAtMost(trace: seq<Asked>, sql: SqlClass, ctx: Context)
    requires Protocol(trace, sql, ctx)
    ensures OneUnit(RequestsOf(trace), ctx.options.maxAnswerBytes)
    ensures var requests, most := RequestsOf(trace), ctx.options.maxAnswerBytes;
            forall i, j | 0 <= i < |requests| && 0 <= j < |requests| ::
              MayTakeUnit(requests[i], most) && MayTakeUnit(requests[j], most) ==> i == j
  {
    hide PlainFalse, MayTakeUnit, Enforced, Possible;
    assert trace[0] in trace;
    var first := RequestsOfOne(trace[0]);
    RequestsOfTwo(trace);
    if |trace| == 2 {
      assert trace[1] in trace;
      var second := RequestsOfOne(trace[1]);
      assert RequestsOf(trace) == first + second && |first| <= 1;
      if trace[1].UseAsked? {
        PlainFalseTookNothing(trace[0], ctx);
      } else {
        assert forall j | 0 <= j < |second| :: second[j] in trace[1].requests;
      }
    }
    UsesOnly(RequestsOf(trace), ctx.options.maxAnswerBytes);
  }

  lemma RequestsOfTwo(trace: seq<Asked>)
    requires 1 <= |trace| <= 2
    ensures RequestsOf(trace) == RequestsOfOne(trace[0]) + if |trace| == 2 then RequestsOfOne(trace[1]) else []
    ensures LooksOf(trace) == LooksOfOne(trace[0]) + if |trace| == 2 then LooksOfOne(trace[1]) else []
  {
    hide RequestsOfOne, LooksOfOne;
    RequestsOfFirst(trace[..1]);
    assert |trace| == 1 ==> trace[..1] == trace;
  }

  lemma RequestsOfFirst(trace: seq<Asked>)
    requires |trace| == 1
    ensures RequestsOf(trace) == RequestsOfOne(trace[0]) && LooksOf(trace) == LooksOfOne(trace[0])
  {
    hide RequestsOfOne, LooksOfOne;
    assert trace[..0] == [] && RequestsOf([]) == [] && LooksOf([]) == [];
  }

  lemma UsesOnly(requests: seq<Request>, maxAnswerBytes: nat)
    ensures forall i | 0 <= i < |requests| && MayTakeUnit(requests[i], maxAnswerBytes) :: requests[i].use
  {
  }

  predicate Passes(trace: seq<Asked>)
    requires trace != []
  {
    |trace| == 2 && if trace[0].decision.allowed then !trace[1].decision.failed else trace[1].decision.allowed
  }

  /** The decision about an action at the end. */
  function DecisionAbout(trace: seq<Asked>, action: string): Decision
    requires |trace| == 2
  {
    if trace[0].action == action then trace[0].decision else trace[1].decision
  }

  /** The strictest refusal of the questions: a failure, then an exceeded budget, then a denial. */
  function WorstStatus(trace: seq<Asked>): nat {
    if exists a | a in trace :: OutcomeOf(a.decision) == Failed then 503
    else if exists a | a in trace :: OutcomeOf(a.decision) == OverBudget then 429
    else 403
  }

  /** What a run gets for its questions. */
  predicate RunResult(trace: seq<Asked>, sql: SqlClass, use: RunUse)
    requires trace != []
  {
    && use.allowed == Passes(trace)
    && (use.allowed ==>
          && use.action == (if trace[0].decision.allowed then First(sql) else Second(sql))
          && use.readOnly == !DecisionAbout(trace, WRITE).allowed
          && use.ceilings == CeilingsFor(DecisionAbout(trace, READ), DecisionAbout(trace, WRITE)))
    && (!use.allowed ==>
          && Status(OutcomeOf(use.refusal)) == WorstStatus(trace)
          && (exists a | a in trace :: a.decision == use.refusal && !a.decision.allowed)
          && use.readOnly
          && use.ceilings == RunCeilings(NO_CEILINGS, NO_CEILINGS, NO_CEILINGS, false, false)
          && use.action == if OtherRefuses(trace) then Second(sql) else First(sql))
  }

  /** The other action was asked too, and it failed or its budget is exceeded: the refusal is about it. */
  predicate OtherRefuses(trace: seq<Asked>) {
    |trace| == 2 && (trace[1].decision.failed || trace[1].decision.reason == BudgetExceeded)
  }

  /** The refusal is about this decision: it failed or its budget is exceeded. */
  predicate Names(d: Decision) {
    d.failed || d.reason == BudgetExceeded
  }

  function CeilingsIf(d: Decision): Ceilings {
    if d.allowed then ValuesOf(d.limits) else NO_CEILINGS
  }

  /** The ceilings of both actions, as far as they are allowed. */
  function CeilingsFor(read: Decision, write: Decision): RunCeilings {
    RunCeilings(NO_CEILINGS, CeilingsIf(read), CeilingsIf(write), read.allowed, write.allowed)
  }

  /** An allowed run names the action of the use: the PDP answered true to this use of this subject, with units, and
      the run may write only when the PDP answered true to the write action. Its ceilings are applied. */
  lemma AllowedRunNamesTheUse(trace: seq<Asked>, sql: SqlClass, ctx: Context, use: RunUse, log: seq<Event>)
    requires Protocol(trace, sql, ctx) && RunResult(trace, sql, use) && use.allowed
    requires forall a | a in trace :: Founded(a, log, ctx)
    ensures SaidTrue(log, true, ctx, use.action)
    ensures !use.readOnly ==> SaidTrue(log, true, ctx, WRITE) || SaidTrue(log, false, ctx, WRITE)
    ensures exists i | 0 <= i < |trace| ::
              && trace[i].UseAsked? && trace[i].action == use.action && trace[i].pdpTrue
              && trace[i].decision.allowed && trace[i].decision.usageUnits.Some?
              && forall l | l in trace[i].decision.limits :: CanApply(l, use.action, ctx.features)
    ensures use.ceilings.hasRead || use.ceilings.hasWrite
    ensures use.readOnly <==> !use.ceilings.hasWrite
  {
    hide WellAsked, PlainFalse, CeilingsIf, CanApply, SaidTrue, Founded;
    var i := if trace[0].decision.allowed then 0 else 1;
    assert trace[i] in trace && trace[0] in trace && trace[1] in trace;
    AllowedUseHasUnits(trace[i], ctx);
    assert trace[i].action == use.action;
    AllowedIsFounded(trace[0], log, ctx);
    AllowedIsFounded(trace[1], log, ctx);
  }

  lemma AllowedIsFounded(a: Asked, log: seq<Event>, ctx: Context)
    requires WellAsked(a, ctx) && Founded(a, log, ctx)
    ensures a.decision.allowed ==> SaidTrue(log, a.UseAsked?, ctx, a.action)
  {
    hide SaidTrue, KeptUse, ReplyTo;
  }

  method RefuseBoth(second: Decision, first: Decision) returns (refusal: Decision)
    requires !second.allowed && OutcomeOf(first) == Denied
    ensures refusal == second || refusal == first
    ensures Status(OutcomeOf(refusal)) == Status(OutcomeOf(second))
  {
    var both := [second, first];
    assert both[0] == second && both[1] == first;
    refusal := RefusalOf(both);
  }

  /** The status of the only decisions that count. */
  lemma WorstOf(trace: seq<Asked>, i: nat)
    requires i < |trace| && !trace[i].decision.allowed
    requires forall k | 0 <= k < |trace| && k != i :: OutcomeOf(trace[k].decision) in {Allowed, Denied}
    ensures WorstStatus(trace) == Status(OutcomeOf(trace[i].decision))
  {
    assert trace[i] in trace;
    forall a | a in trace ensures a == trace[i] || OutcomeOf(a.decision) in {Allowed, Denied} {
      var k :| 0 <= k < |trace| && trace[k] == a;
    }
  }

  /** An allowed decision that is no failure. */
  lemma UseOutcomes(a: Asked, ctx: Context)
    requires a.UseAsked? && WellAsked(a, ctx)
    ensures a.decision.allowed ==> OutcomeOf(a.decision) == Allowed
    ensures OutcomeOf(a.decision) == Allowed ==> a.decision.allowed
    ensures PlainFalse(a) ==> OutcomeOf(a.decision) == Denied
  {
  }

  method RunCeilingsOf(read: Decision, write: Decision) returns (ceilings: RunCeilings)
    ensures ceilings == CeilingsFor(read, write)
  {
    var r, w := NO_CEILINGS, NO_CEILINGS;
    if read.allowed {
      r := CeilingsOf(read.limits);
    }
    if write.allowed {
      w := CeilingsOf(write.limits);
    }
    ceilings := RunCeilings(NO_CEILINGS, r, w, read.allowed, write.allowed);
  }

  const NO_RUN_CEILINGS := RunCeilings(NO_CEILINGS, NO_CEILINGS, NO_CEILINGS, false, false)

  /** The decisions of both actions are final: the run is allowed. */
  method Granted(sql: SqlClass, action: string, first: Decision, second: Decision) returns (use: RunUse)
    ensures use.allowed && use.action == action
    ensures var read, write := (if sql.Read? then first else second), (if sql.Read? then second else first);
            && use.readOnly == !write.allowed
            && use.ceilings == CeilingsFor(read, write)
  {
    hide CeilingsIf;
    var read := if sql.Read? then first else second;
    var write := if sql.Read? then second else first;
    var ceilings := RunCeilingsOf(read, write);
    use := RunUse(true, FAILED, action, ceilings, !write.allowed);
  }

  lemma GrantedResult(sql: SqlClass, a: Asked, b: Asked, use: RunUse)
    requires a.action == First(sql) && b.action == Second(sql) && use.allowed
    requires if a.decision.allowed then !b.decision.failed else b.decision.allowed
    requires use.action == if a.decision.allowed then First(sql) else Second(sql)
    requires var read := if sql.Read? then a.decision else b.decision;
             var write := if sql.Read? then b.decision else a.decision;
             use.readOnly == !write.allowed && use.ceilings == CeilingsFor(read, write)
    ensures RunResult([a, b], sql, use)
  {
    hide CeilingsIf, WorstStatus;
    assert [a, b][0] == a && [a, b][1] == b;
  }

  lemma RefusedResult(sql: SqlClass, trace: seq<Asked>, i: nat, use: RunUse)
    requires 1 <= |trace| <= 2 && i < |trace| && !use.allowed && !Passes(trace) && use.readOnly
    requires !trace[i].decision.allowed
    requires forall k | 0 <= k < |trace| && k != i :: OutcomeOf(trace[k].decision) in {Allowed, Denied}
    requires Status(OutcomeOf(use.refusal)) == Status(OutcomeOf(trace[i].decision))
    requires exists k | 0 <= k < |trace| :: trace[k].decision == use.refusal && !trace[k].decision.allowed
    requires use.action == (if |trace| == 2 && Names(trace[1].decision) then Second(sql) else First(sql))
    requires use.ceilings == NO_RUN_CEILINGS
    ensures RunResult(trace, sql, use)
  {
    hide CeilingsIf, WorstStatus, OutcomeOf, Status;
    WorstOf(trace, i);
    var k :| 0 <= k < |trace| && trace[k].decision == use.refusal && !trace[k].decision.allowed;
    assert trace[k] in trace;
  }

  lemma AsProtocol(trace: seq<Asked>, sql: SqlClass, ctx: Context)
    requires 1 <= |trace| <= 2 && forall i | 0 <= i < |trace| :: WellAsked(trace[i], ctx)
    requires trace[0].UseAsked? && trace[0].action == First(sql)
    requires |trace| == 2 <==> trace[0].decision.allowed || PlainFalse(trace[0])
    requires |trace| == 2 ==> trace[1].action == Second(sql) && (trace[1].PlainAsked? <==> trace[0].decision.allowed)
    ensures Protocol(trace, sql, ctx)
  {
    hide WellAsked, PlainFalse;
    forall a | a in trace ensures WellAsked(a, ctx) {
      var i :| 0 <= i < |trace| && trace[i] == a;
    }
  }

  /** What a run leaves: its requests and its looks at the metadata are those of its questions, which were asked in the
      run, and what was heard rests on the log. */
  ghost predicate Recorded(before: Trail, from: nat, after: Trail, to: nat, trace: seq<Asked>, ctx: Context) {
    && before.log <= after.log
    && after.sent == before.sent + RequestsOf(trace)
    && after.metadata == before.metadata + LooksOf(trace)
    && forall a | a in trace :: from <= a.now <= to && Founded(a, after.log, ctx)
  }

  lemma RecordedOne(before: Trail, from: nat, after: Trail, to: nat, a: Asked, ctx: Context)
    requires LeftBy(a, before, from, after, to) && Founded(a, after.log, ctx)
    ensures Recorded(before, from, after, to, [a], ctx)
  {
    hide Founded, RequestsOfOne, LooksOfOne;
    RequestsOfFirst([a]);
  }

  lemma RecordedNext(before: Trail, from: nat, between: Trail, middle: nat, after: Trail, to: nat, a: Asked, b: Asked,
                     ctx: Context)
    requires Recorded(before, from, between, middle, [a], ctx)
    requires LeftBy(b, between, middle, after, to) && Founded(b, after.log, ctx)
    ensures Recorded(before, from, after, to, [a, b], ctx)
  {
    hide Founded, RequestsOfOne, LooksOfOne;
    RequestsOfFirst([a]);
    RequestsOfTwo([a, b]);
    assert a in [a] && from <= a.now <= middle;
    StillFounded(a, between.log, after.log, ctx);
  }

  /** The first use was true: the other action, without a use, tells the rest. A failure there refuses the run. */
  method OtherAction(pdp: PdpClient, subject: string, resource: Resource, sql: SqlClass, features: Features,
                     d: Decision, ghost a: Asked, ghost before: Trail, ghost from: nat)
    returns (use: RunUse, ghost trace: seq<Asked>)
    requires pdp.Valid() && Clean(subject, Question(Second(sql), resource, OnNode))
    requires a.UseAsked? && a.action == First(sql) && a.decision == d && d.allowed
    requires var ctx := Context(subject, resource, features, pdp.options, pdp.quote);
             WellAsked(a, ctx) && Recorded(before, from, pdp.State(), pdp.clock, [a], ctx)
    modifies pdp
    ensures var ctx := Context(subject, resource, features, pdp.options, pdp.quote);
            pdp.Valid() && Protocol(trace, sql, ctx) && RunResult(trace, sql, use)
            && Recorded(before, from, pdp.State(), pdp.clock, trace, ctx)
  {
    hide PdpClient.Valid, WellAsked, Clean, OutcomeOf, Status, CeilingsIf, RunResult, First, Second, Recorded, Founded,
      LooksOfOne, RequestsOfOne, LeftBy, Protocol;
    ghost var ctx := Context(subject, resource, features, pdp.options, pdp.quote);
    ghost var between, middle := pdp.State(), pdp.clock;
    UseOutcomes(a, ctx);
    var e;
    ghost var b;
    e, b := Ask(pdp, subject, Second(sql), resource, features);
    RecordedNext(before, from, between, middle, pdp.State(), pdp.clock, a, b, ctx);
    trace := [a, b];
    AsProtocol(trace, sql, ctx);
    if e.failed {
      use := RunUse(false, e, Second(sql), NO_RUN_CEILINGS, true);
      assert trace[1].decision == e;
      RefusedResult(sql, trace, 1, use);
    } else {
      use := Granted(sql, First(sql), d, e);
      GrantedResult(sql, a, b, use);
    }
  }

  /** The first use was a plain false: the use of the other action. */
  method OtherUse(pdp: PdpClient, subject: string, resource: Resource, sql: SqlClass, features: Features, d: Decision,
                  ghost a: Asked, ghost before: Trail, ghost from: nat)
    returns (use: RunUse, ghost trace: seq<Asked>)
    requires pdp.Valid() && Clean(subject, Question(Second(sql), resource, OnNode))
    requires a.UseAsked? && a.action == First(sql) && a.decision == d && PlainFalse(a)
    requires var ctx := Context(subject, resource, features, pdp.options, pdp.quote);
             WellAsked(a, ctx) && Recorded(before, from, pdp.State(), pdp.clock, [a], ctx)
    modifies pdp
    ensures var ctx := Context(subject, resource, features, pdp.options, pdp.quote);
            pdp.Valid() && Protocol(trace, sql, ctx) && RunResult(trace, sql, use)
            && Recorded(before, from, pdp.State(), pdp.clock, trace, ctx)
  {
    hide PdpClient.Valid, WellAsked, Clean, OutcomeOf, Status, CeilingsIf, RunResult, First, Second, Recorded, Founded,
      LooksOfOne, RequestsOfOne, LeftBy, Protocol;
    ghost var ctx := Context(subject, resource, features, pdp.options, pdp.quote);
    ghost var between, middle := pdp.State(), pdp.clock;
    UseOutcomes(a, ctx);
    var e, secondTrue;
    ghost var b;
    e, secondTrue, b := AskUse(pdp, subject, Second(sql), resource, features);
    RecordedNext(before, from, between, middle, pdp.State(), pdp.clock, a, b, ctx);
    trace := [a, b];
    AsProtocol(trace, sql, ctx);
    assert trace[1].decision == e && trace[0].decision == d;
    if e.allowed {
      use := Granted(sql, Second(sql), d, e);
      GrantedResult(sql, a, b, use);
    } else {
      var refusal := RefuseBoth(e, d);
      use := RunUse(false, refusal, if Names(e) then Second(sql) else First(sql), NO_RUN_CEILINGS, true);
      RefusedResult(sql, trace, 1, use);
    }
  }

  /** The use of a run. The requests that the run adds to the history are those of its questions, and at most one of
      them may have taken a unit. */
  method UseRun(pdp: PdpClient, subject: string, resource: Resource, sql: SqlClass, features: Features)
    returns (use: RunUse, ghost trace: seq<Asked>)
    requires pdp.Valid()
    requires Clean(subject, Question(READ, resource, OnNode)) && Clean(subject, Question(WRITE, resource, OnNode))
    modifies pdp
    ensures var ctx := Context(subject, resource, features, pdp.options, pdp.quote);
            pdp.Valid() && Protocol(trace, sql, ctx) && RunResult(trace, sql, use)
            && Recorded(old(pdp.State()), old(pdp.clock), pdp.State(), pdp.clock, trace, ctx)
    ensures old(pdp.sent) <= pdp.sent && OneUnit(pdp.sent[|old(pdp.sent)|..], pdp.options.maxAnswerBytes)
    ensures use.allowed ==>
              SaidTrue(pdp.log, true, Context(subject, resource, features, pdp.options, pdp.quote), use.action)
  {
    hide PdpClient.Valid, WellAsked, Clean, OutcomeOf, Status, CeilingsIf, RunResult, Recorded, Founded, RequestsOfOne,
      LooksOfOne, LeftBy, OneUnit, SaidTrue;
    ghost var ctx := Context(subject, resource, features, pdp.options, pdp.quote);
    ghost var before, from := pdp.State(), pdp.clock;
    var d, pdpTrue;
    ghost var a;
    d, pdpTrue, a := AskUse(pdp, subject, First(sql), resource, features);
    RecordedOne(before, from, pdp.State(), pdp.clock, a, ctx);
    if d.allowed {
      use, trace := OtherAction(pdp, subject, resource, sql, features, d, a, before, from);
    } else if d.failed || d.usageInvalid || pdpTrue || d.reason == BudgetExceeded {
      use := RunUse(false, d, First(sql), NO_RUN_CEILINGS, true);
      trace := [a];
      AsProtocol(trace, sql, ctx);
      assert trace[0].decision == d;
      RefusedResult(sql, trace, 0, use);
    } else {
      use, trace := OtherUse(pdp, subject, resource, sql, features, d, a, before, from);
    }
    RunMeaning(before, from, pdp.State(), pdp.clock, trace, sql, ctx, use);
  }

  /** What the history says of a run. */
  lemma RunMeaning(before: Trail, from: nat, after: Trail, to: nat, trace: seq<Asked>, sql: SqlClass, ctx: Context,
                   use: RunUse)
    requires Protocol(trace, sql, ctx) && RunResult(trace, sql, use)
    requires Recorded(before, from, after, to, trace, ctx)
    ensures before.sent <= after.sent && OneUnit(after.sent[|before.sent|..], ctx.options.maxAnswerBytes)
    ensures use.allowed ==> SaidTrue(after.log, true, ctx, use.action)
  {
    hide WellAsked, RunResult, Founded, OneUnit, SaidTrue, RequestsOf, Protocol;
    assert after.sent[|before.sent|..] == RequestsOf(trace);
    OneUnitAtMost(trace, sql, ctx);
    if use.allowed {
      AllowedRunNamesTheUse(trace, sql, ctx, use, after.log);
    }
  }
}
