/** What a run of SQL gets from the answers of the PDP (access_run_use, src/access_ceilings.cpp): the decision about
    each action and the ceilings of the run, on the JSON values that the PDP sent. */
module RunReading {
  import opened Common
  import opened AccessCeilings
  import opened AccessHistory
  import opened AccessPdp
  import opened AccessResource
  import opened AccessRun
  import opened OptionsOrder
  import opened PdpCall
  import opened PdpModel
  import opened PdpPlan
  import opened PdpReading

  /** The reply to this request was read, and it says this answer. */
  ghost predicate ReplySays(req: Request, maxAnswerBytes: nat, answer: Answer) {
    Delivered(req.http, req.elapsed, req.timeout, maxAnswerBytes) && Carries(req.http.body, answer)
  }

  /** The answer of the PDP behind a question of a run: what the reply to its request says, or the kept answer, which is
      still good when the question is asked. */
  ghost predicate Behind(a: Asked, log: seq<Event>, ctx: Context, answer: Answer) {
    var q := Question(a.action, ctx.resource, OnNode);
    match a
    case UseAsked(_, now, reply, _, _, _) =>
      (match reply
       case FromKept(d) => exists ev | ev in log ::
         KeptUse(ev, ctx.options.bounds.ttl, ctx.subject, q, d, now) && ev.answer == answer
       case Unsent => false
       case Replied(request, _) => ReplySays(request, ctx.options.maxAnswerBytes, answer))
    case PlainAsked(_, now, call, requests, _, _) =>
      if |call.cached| == 1 && call.cached[0].Some? then
        && call.cached[0].value == answer
        && FromEarlierAnswer(log, ctx.options.bounds.ttl, false, ctx.subject, q, answer, now)
      else exists req | req in requests :: ReplySays(req, ctx.options.maxAnswerBytes, answer)
  }

  /** A ceiling that a run of SQL applies: one of the six names, with a value from 1. */
  predicate Applies(l: Limit) {
    && l.value >= 1
    && l.name in {"max_rows_read", "max_read_size", "max_rows", "max_result_size", "max_duration", "max_memory"}
  }

  predicate AllApply(limits: seq<Limit>) {
    forall l | l in limits :: Applies(l)
  }

  /** The wait of an exceeded budget: the one of the answer, and for a kept use the least whole number of seconds that
      covers what is left of it. */
  predicate WaitOf(a: Asked, answer: Answer) {
    && (a.decision.retryAfter.Some? <==> answer.retryAfter.Some?)
    && (answer.retryAfter.Some? ==>
          && 1 <= a.decision.retryAfter.value <= answer.retryAfter.value
          && ((a.UseAsked? && a.reply.FromKept?) || a.decision.retryAfter == answer.retryAfter))
  }

  /** The final decision about an action, from the answer. A true answer to a use without its units, and a true answer
      with a limit that cannot be applied, are denials without ceilings; else the decision is the answer. */
  predicate Final(a: Asked, answer: Answer) {
    var d := a.decision;
    && !d.failed
    && (d.usageInvalid <==> a.UseAsked? && answer.decision && answer.usageUnits.None?)
    && if answer.decision && (d.usageInvalid || !AllApply(answer.limits)) then
         !d.allowed && d.reason == NoReason && d.limits == [] && d.usageUnits == None && d.retryAfter == None
       else
         && d.allowed == answer.decision && d.reason == answer.reason && d.limits == answer.limits
         && d.usageUnits == answer.usageUnits && d.unknownSubject == answer.unknownSubject && WaitOf(a, answer)
  }

  /** No answer is behind the question: then its decision is a failure. */
  ghost predicate NoAnswer(a: Asked, log: seq<Event>, ctx: Context) {
    forall answer :: !Behind(a, log, ctx, answer)
  }

  predicate RunAction(action: string) {
    action == READ || action == WRITE
  }

  lemma AppliesToARun(l: Limit, action: string, features: Features)
    requires RunAction(action)
    ensures CanApply(l, action, features) <==> Applies(l)
  {
  }

  lemma EnforcedOnARun(action: string, resource: Resource, d: Decision, features: Features, out: Decision)
    requires RunAction(action) && Enforced(Question(action, resource, OnNode), d, features, true, out)
    ensures d.allowed && !AllApply(d.limits) ==>
              out == d.(allowed := false, ceilingRefused := out.ceilingRefused, reason := NoReason, limits := [],
                        usageUnits := None)
    ensures !d.allowed || AllApply(d.limits) ==> out == d
  {
    hide CanApply, Applies, LeastRefused;
    forall l ensures CanApply(l, action, features) <==> Applies(l) {
      AppliesToARun(l, action, features);
    }
  }

  /** A value that carries an answer is readable, and it carries the answer that is read. */
  lemma CarriedIsRead(v: Json, answer: Answer)
    requires Carries(v, answer)
    ensures Readable(v)
  {
    hide Has, Lacks, InNameOrder;
    assert Has(v.members, "decision", Bool(answer.decision));
    if !Lacks(v.members, "context") {
      var context :| Has(v.members, "context", Obj(context)) && CarriesContext(context, answer);
      CarriedContextIsRead(context, answer);
    }
  }

  lemma CarriedContextIsRead(context: seq<Member>, answer: Answer)
    requires CarriesContext(context, answer)
    ensures if answer.decision then ReadableTrue(context) else ReadableFalse(context)
  {
    hide Lacks, InNameOrder;
    if answer.decision {
      hide Has;
    } else if Has(context, "reason", Str("budget_exceeded")) {
      BudgetIsTheReason(context, answer.reason);
    }
  }

  lemma BudgetIsTheReason(context: seq<Member>, reason: Reason)
    requires SaysReason(context, reason) && Has(context, "reason", Str("budget_exceeded"))
    ensures reason == BudgetExceeded
  {
    FindIsTheFirst(context, "reason");
    hide Has, Lacks;
    assert "budget_exceeded" in ["unknown_subject", "invalid_resource", "invalid_request", "budget_exceeded"];
  }

  /** The reply to one question: the answer that is read from it, or none at all. */
  lemma ReplyToOne(req: Request, maxAnswerBytes: nat)
    requires |req.asked| == 1
    ensures var reply := ReplyTo(req, maxAnswerBytes);
            && (reply.Answers? ==> |reply.answers| == 1 && ReplySays(req, maxAnswerBytes, reply.answers[0]))
            && (!reply.Answers? ==> forall answer :: !ReplySays(req, maxAnswerBytes, answer))
  {
    hide Carries, Delivered, Readable;
    ReplyMeaning(req.http, req.elapsed, req.timeout, maxAnswerBytes, 1);
    var reply := ReplyTo(req, maxAnswerBytes);
    if reply.Answers? {
      assert ItemCarries(req.http.body, 1, 0, reply.answers[0]);
    } else {
      forall answer | Carries(req.http.body, answer) ensures Readable(req.http.body) {
        CarriedIsRead(req.http.body, answer);
      }
    }
  }

  /** The answers of the log follow the protocol, as every reachable client has it. */
  predicate Follows(log: seq<Event>) {
    forall ev | ev in log :: ProtocolAnswer(ev.answer)
  }

  ghost predicate HasItsAnswer(a: Asked, log: seq<Event>, ctx: Context) {
    exists answer :: Behind(a, log, ctx, answer) && Final(a, answer)
  }

  lemma DecisionOfAUse(a: Asked, log: seq<Event>, ctx: Context)
    requires a.UseAsked? && RunAction(a.action) && WellAsked(a, ctx) && Founded(a, log, ctx) && Follows(log)
    ensures HasItsAnswer(a, log, ctx) || (IsFailure(a.decision) && NoAnswer(a, log, ctx))
  {
    hide Enforced, AllApply, ReplyTo, ReplySays;
    EnforcedOnARun(a.action, ctx.resource, Heard(a.reply), ctx.features, a.decision);
    match a.reply {
      case Unsent =>
      case FromKept(d) =>
        var q := Question(a.action, ctx.resource, OnNode);
        var ev :| ev in log && KeptUse(ev, ctx.options.bounds.ttl, ctx.subject, q, d, a.now);
        assert Behind(a, log, ctx, ev.answer) && Final(a, ev.answer);
      case Replied(request, reply) =>
        ReplyToOne(request, ctx.options.maxAnswerBytes);
        if reply.Answers? {
          assert Behind(a, log, ctx, reply.answers[0]) && Final(a, reply.answers[0]);
        }
    }
  }

  lemma OneChunkAtMost(r: CallRecord, quote: Quote, most: nat, subject: string, q: Question)
    requires Planned(r, quote, most, subject, [q])
    ensures |r.chunks| <= 1
    ensures forall c | 0 <= c < |r.chunks| :: r.chunks[c] == [0]
  {
    hide WithinPublished, Flatten;
    forall c | 0 <= c < |r.chunks| ensures r.chunks[c] == [0] {
      OneInEachChunk(r, quote, most, subject, q, c);
    }
    if |r.chunks| > 1 {
      assert r.chunks[0][0] in r.chunks[1];
      ChunksApart(r.cached, r.ask, r.chunks, 1);
    }
  }

  /** A call with one question has one request at most, so no deadline cuts it. */
  lemma OneQuestionIsNotCut(r: CallRecord, quote: Quote, most: nat, subject: string, q: Question)
    requires Planned(r, quote, most, subject, [q])
    ensures !Run(r.terms, Counts(r.chunks), r.slots).expired
    ensures forall c | 0 <= c < |r.chunks| :: r.chunks[c] == [0]
  {
    hide PublishedPlan, Run, CutAt, Split;
    OneChunkAtMost(r, quote, most, subject, q);
    CutByTheDeadline(r.terms, Counts(r.chunks), r.slots);
    forall k | 0 <= k < |r.slots| ensures !CutAt(r.terms, Counts(r.chunks), r.slots, k) {
      OnlySplitCallsAreCut(r.terms, Counts(r.chunks), r.slots, k);
    }
  }

  lemma OnlySplitCallsAreCut(t: Terms, counts: seq<nat>, slots: seq<Slot>, k: nat)
    requires |counts| == |slots| && k < |slots|
    ensures CutAt(t, counts, slots, k) ==> t.split
  {
    hide Run;
  }

  lemma DecisionOfAPlain(a: Asked, log: seq<Event>, ctx: Context)
    requires a.PlainAsked? && RunAction(a.action) && WellAsked(a, ctx) && Founded(a, log, ctx) && Follows(log)
    ensures HasItsAnswer(a, log, ctx) || (IsFailure(a.decision) && NoAnswer(a, log, ctx))
  {
    hide Enforced, AllApply, ReplySays, Run, Planned, DecidedBy, SentAs, SaysItsItem, FromEarlierAnswer, AsksOne;
    var q := Question(a.action, ctx.resource, OnNode);
    var r := a.call;
    EnforcedOnARun(a.action, ctx.resource, a.heard, ctx.features, a.decision);
    OneQuestionIsNotCut(r, ctx.quote, ctx.options.maxEvaluations, ctx.subject, q);
    OneKept(r, ctx.quote, ctx.options.maxEvaluations, ctx.subject, q);
    DecisionOfTheRequests(a.requests, ctx.quote, ctx.options.maxEvaluations, ctx.subject, [q], r, [a.heard], 0);
    SentAreFewer(a.requests, ctx.subject, [q], r);
    if r.cached[0].Some? {
      assert r.cached[0] in r.cached;
      EarlierFollows(log, ctx.options.bounds.ttl, ctx.subject, q, r.cached[0].value, a.now);
      assert Behind(a, log, ctx, r.cached[0].value) && Final(a, r.cached[0].value);
    } else {
      ItemOfOne(a, log, ctx);
    }
  }

  lemma OneKept(r: CallRecord, quote: Quote, most: nat, subject: string, q: Question)
    requires Planned(r, quote, most, subject, [q])
    ensures |r.cached| == 1 && |r.slots| == |r.chunks|
  {
  }

  lemma SentAreFewer(added: seq<Request>, subject: string, questions: seq<Question>, r: CallRecord)
    requires SentAs(added, subject, questions, r)
    ensures |added| <= |r.chunks|
  {
  }

  lemma EarlierFollows(log: seq<Event>, ttl: nat, subject: string, q: Question, answer: Answer, now: nat)
    requires FromEarlierAnswer(log, ttl, false, subject, q, answer, now) && Follows(log)
    ensures ProtocolAnswer(answer)
  {
  }

  lemma CarriedWait(v: Json, answer: Answer)
    requires Carries(v, answer)
    ensures answer.decision ==> answer.retryAfter == None
    ensures answer.retryAfter.Some? ==> answer.retryAfter.value >= 1
  {
  }

  lemma ItemOfOne(a: Asked, log: seq<Event>, ctx: Context)
    requires a.PlainAsked? && |a.call.cached| == 1 && a.call.cached[0].None?
    requires SaysItsItem(a.requests, a.call.chunks, ctx.options.maxAnswerBytes, 0, a.heard)
    requires |a.requests| <= |a.call.chunks| && forall c | 0 <= c < |a.call.chunks| :: a.call.chunks[c] == [0]
    requires forall req | req in a.requests :: AsksOne(req, false, ctx, a.action)
    requires a.heard.allowed && !AllApply(a.heard.limits) ==>
               a.decision == a.heard.(allowed := false, ceilingRefused := a.decision.ceilingRefused, reason := NoReason,
                                      limits := [], usageUnits := None)
    requires !a.heard.allowed || AllApply(a.heard.limits) ==> a.decision == a.heard
    ensures HasItsAnswer(a, log, ctx) || (IsFailure(a.decision) && NoAnswer(a, log, ctx))
  {
    hide AllApply, Carries, Delivered, ReadableBody;
    var most, chunks := ctx.options.maxAnswerBytes, a.call.chunks;
    if c, k :| AskedAs(a.requests, chunks, c, k, 0) && GoodReply(a.requests[c], most) {
      var d, j, answer :| AskedAs(a.requests, chunks, d, j, 0) && GoodReply(a.requests[d], most)
                          && ItemCarries(a.requests[d].http.body, |a.requests[d].asked|, j, answer)
                          && Says(a.heard, answer, FromPdp);
      assert a.requests[d] in a.requests && AsksOne(a.requests[d], false, ctx, a.action);
      ItemIsTheBody(a.requests[d].http.body, j, answer);
      CarriedWait(a.requests[d].http.body, answer);
      assert Behind(a, log, ctx, answer) && Final(a, answer);
    } else {
      forall req | req in a.requests ensures forall answer :: !ReplySays(req, most, answer) {
        var c :| 0 <= c < |a.requests| && a.requests[c] == req;
        assert AskedAs(a.requests, chunks, c, 0, 0) && AsksOne(req, false, ctx, a.action);
        forall answer | Carries(req.http.body, answer) ensures ReadableBody(req.http.body, |req.asked|) {
          ReadableOne(req.http.body, answer);
        }
      }
    }
  }

  lemma ItemIsTheBody(body: Json, k: nat, answer: Answer)
    requires ItemCarries(body, 1, k, answer)
    ensures Carries(body, answer)
  {
    hide Carries;
  }

  lemma ReadableOne(body: Json, answer: Answer)
    requires Carries(body, answer)
    ensures ReadableBody(body, 1)
  {
    hide Carries, Readable;
    CarriedIsRead(body, answer);
  }

  // ---- the ceilings of a run ----

  /** The ceilings have the value of each limit, and 0 for every name without one. */
  ghost predicate CeilingsAre(c: Ceilings, limits: seq<Limit>) {
    && (forall l | l in limits :: Get(c, l.name) == l.value)
    && forall name | (forall l | l in limits :: l.name != name) :: Get(c, name) == 0
  }

  /** The PDP answered true about this action in this run, all its limits apply, and they are these ceilings. */
  ghost predicate GrantedWith(trace: seq<Asked>, log: seq<Event>, ctx: Context, action: string, c: Ceilings) {
    exists a, answer | a in trace ::
      && a.action == action && Behind(a, log, ctx, answer)
      && answer.decision && AllApply(answer.limits) && CeilingsAre(c, answer.limits)
      && (a.UseAsked? ==> answer.usageUnits.Some?)
  }

  lemma AppliedAreKnown(limits: seq<Limit>)
    requires AllApply(limits)
    ensures forall l | l in limits :: Known(l.name)
  {
  }

  /** The ceilings of an allowed decision are the limits of the answer behind it. */
  lemma CeilingsOfADecision(trace: seq<Asked>, i: nat, log: seq<Event>, ctx: Context)
    requires i < |trace| && RunAction(trace[i].action) && WellAsked(trace[i], ctx) && Founded(trace[i], log, ctx)
    requires Follows(log) && trace[i].decision.allowed
    ensures GrantedWith(trace, log, ctx, trace[i].action, CeilingsIf(trace[i].decision))
  {
    hide WellAsked, Founded, Follows, Behind, AllApply, Get, NoAnswer;
    var a := trace[i];
    if a.UseAsked? {
      DecisionOfAUse(a, log, ctx);
    } else {
      DecisionOfAPlain(a, log, ctx);
    }
    var answer :| Behind(a, log, ctx, answer) && Final(a, answer);
    BehindHasOneNameEach(a, log, ctx, answer);
    AppliedAreKnown(answer.limits);
    ValuesAreTheLimits(answer.limits);
    assert a in trace;
  }

  lemma BehindHasOneNameEach(a: Asked, log: seq<Event>, ctx: Context, answer: Answer)
    requires Behind(a, log, ctx, answer) && Follows(log)
    ensures forall i, j | 0 <= i < j < |answer.limits| :: answer.limits[i].name != answer.limits[j].name
  {
    hide Carries;
    if ReplyBehind(a, ctx, answer) {
      CarriedInOrder(answer, a, ctx);
    }
  }

  ghost predicate ReplyBehind(a: Asked, ctx: Context, answer: Answer) {
    exists req | req in RequestsOfOne(a) :: ReplySays(req, ctx.options.maxAnswerBytes, answer)
  }

  lemma CarriedInOrder(answer: Answer, a: Asked, ctx: Context)
    requires ReplyBehind(a, ctx, answer)
    ensures forall i, j | 0 <= i < j < |answer.limits| :: answer.limits[i].name != answer.limits[j].name
  {
    hide Has, Lacks, InNameOrder;
    if answer.limits != [] {
      NamesDiffer(answer.limits);
    }
  }

  /** The ceilings of an allowed run. For each action that was allowed they are the limits of a true answer of the PDP
      about it, all of which apply; an action that was not allowed has none. */
  lemma CeilingsOfTheRun(trace: seq<Asked>, sql: SqlClass, ctx: Context, use: RunUse, log: seq<Event>)
    requires Protocol(trace, sql, ctx) && RunResult(trace, sql, use) && use.allowed
    requires Follows(log) && forall a | a in trace :: Founded(a, log, ctx)
    ensures if use.ceilings.hasRead then GrantedWith(trace, log, ctx, READ, use.ceilings.read)
            else use.ceilings.read == NO_CEILINGS
    ensures if use.ceilings.hasWrite then GrantedWith(trace, log, ctx, WRITE, use.ceilings.write)
            else use.ceilings.write == NO_CEILINGS
    ensures use.ceilings.base == NO_CEILINGS && use.readOnly == !use.ceilings.hasWrite
    ensures if use.action == READ then use.ceilings.hasRead else use.action == WRITE && use.ceilings.hasWrite
  {
    hide WellAsked, Founded, Follows, GrantedWith;
    forall i | 0 <= i < |trace| && trace[i].decision.allowed
      ensures GrantedWith(trace, log, ctx, trace[i].action, CeilingsIf(trace[i].decision))
    {
      assert trace[i] in trace;
      CeilingsOfADecision(trace, i, log, ctx);
    }
  }

  // ---- a run that is refused ----

  predicate Exceeded(d: Decision) {
    !d.failed && !d.allowed && d.reason == BudgetExceeded && d.retryAfter.Some?
  }

  /** The refusal of a run is the decision about one of its questions: a failure when one failed, else an exceeded
      budget when one is exceeded, with the wait of the answer of the PDP. */
  lemma RefusalOfTheRun(trace: seq<Asked>, sql: SqlClass, ctx: Context, use: RunUse, log: seq<Event>)
    requires Protocol(trace, sql, ctx) && RunResult(trace, sql, use) && !use.allowed
    requires Follows(log) && forall a | a in trace :: Founded(a, log, ctx)
    ensures !use.refusal.allowed
    ensures use.refusal.failed <==> exists a | a in trace :: a.decision.failed
    ensures !use.refusal.failed ==> (Exceeded(use.refusal) <==> exists a | a in trace :: Exceeded(a.decision))
    ensures use.refusal.failed ==>
              exists a | a in trace :: a.decision == use.refusal && IsFailure(use.refusal) && NoAnswer(a, log, ctx)
    ensures Exceeded(use.refusal) ==>
              exists a | a in trace :: a.decision == use.refusal && ExceededBehind(a, log, ctx)
  {
    hide WellAsked, Founded, Follows, Behind, NoAnswer, CeilingsIf, PlainFalse;
    forall a | a in trace
      ensures HasItsAnswer(a, log, ctx) || (IsFailure(a.decision) && NoAnswer(a, log, ctx))
      ensures a.decision.failed ==> !a.decision.allowed
    {
      if a.UseAsked? {
        DecisionOfAUse(a, log, ctx);
      } else {
        DecisionOfAPlain(a, log, ctx);
      }
      NotAllowedWhenFailed(a, log, ctx);
    }
    OutcomesOfTheTrace(trace, use.refusal);
    var a :| a in trace && a.decision == use.refusal && !a.decision.allowed;
    if Exceeded(use.refusal) {
      ExceededHasItsAnswer(a, log, ctx);
    } else if use.refusal.failed {
      FailedHasNoAnswer(a, log, ctx);
    }
  }

  /** The PDP answered that the budget is exceeded, and the decision has its wait. */
  ghost predicate ExceededBehind(a: Asked, log: seq<Event>, ctx: Context) {
    exists answer ::
      Behind(a, log, ctx, answer) && !answer.decision && answer.reason == BudgetExceeded && WaitOf(a, answer)
  }

  lemma NotAllowedWhenFailed(a: Asked, log: seq<Event>, ctx: Context)
    requires HasItsAnswer(a, log, ctx) || (IsFailure(a.decision) && NoAnswer(a, log, ctx))
    ensures a.decision.failed ==> !a.decision.allowed
  {
    hide Behind, NoAnswer, AllApply;
  }

  lemma ExceededHasItsAnswer(a: Asked, log: seq<Event>, ctx: Context)
    requires HasItsAnswer(a, log, ctx) || (IsFailure(a.decision) && NoAnswer(a, log, ctx))
    requires Exceeded(a.decision)
    ensures ExceededBehind(a, log, ctx)
  {
    hide Behind, NoAnswer, AllApply;
  }

  lemma FailedHasNoAnswer(a: Asked, log: seq<Event>, ctx: Context)
    requires HasItsAnswer(a, log, ctx) || (IsFailure(a.decision) && NoAnswer(a, log, ctx))
    requires a.decision.failed
    ensures IsFailure(a.decision) && NoAnswer(a, log, ctx)
  {
    hide Behind, NoAnswer, AllApply;
  }

  /** The strictest status, on the decisions themselves. */
  lemma OutcomesOfTheTrace(trace: seq<Asked>, refusal: Decision)
    requires Status(OutcomeOf(refusal)) == WorstStatus(trace)
    ensures refusal.failed <==> exists a | a in trace :: a.decision.failed
    ensures !refusal.failed ==> (Exceeded(refusal) <==> exists a | a in trace :: Exceeded(a.decision))
  {
    OutcomeIs(refusal);
    forall a | a in trace
      ensures (OutcomeOf(a.decision) == Failed <==> a.decision.failed)
      ensures (OutcomeOf(a.decision) == OverBudget <==> Exceeded(a.decision))
    {
      OutcomeIs(a.decision);
    }
    hide OutcomeOf, Exceeded;
  }

  lemma OutcomeIs(d: Decision)
    ensures OutcomeOf(d) == Failed <==> d.failed
    ensures OutcomeOf(d) == OverBudget <==> Exceeded(d)
  {
  }

  lemma SameContext(context: seq<Member>, x: Answer, y: Answer)
    requires CarriesContext(context, x) && CarriesContext(context, y) && x.decision == y.decision
    ensures x.usageUnits == y.usageUnits && forall l :: l in x.limits <==> l in y.limits
  {
    FindIsTheFirst(context, "limits");
    FindIsTheFirst(context, "usage");
    var usage := Find(context, "usage");
    if usage.Some? && usage.value.Obj? {
      FindIsTheFirst(usage.value.members, "units");
    }
    hide Has, Lacks, InNameOrder, WholeLimits, Find;
  }

  /** A value carries one answer, but for the writing of its limits. */
  lemma SameAnswer(v: Json, x: Answer, y: Answer)
    requires Carries(v, x) && Carries(v, y)
    ensures x.decision == y.decision && x.usageUnits == y.usageUnits
    ensures forall l :: l in x.limits <==> l in y.limits
  {
    FindIsTheFirst(v.members, "decision");
    FindIsTheFirst(v.members, "context");
    hide Has, Lacks, Find, CarriesContext;
    if !Lacks(v.members, "context") {
      var context :| Has(v.members, "context", Obj(context)) && CarriesContext(context, x);
      SameContext(context, x, y);
    }
  }

  /** The decision about a use whose true answer has a limit that cannot be applied. */
  lemma UnappliedUse(a: Asked, log: seq<Event>, ctx: Context, answer: Answer)
    requires a.UseAsked? && RunAction(a.action) && WellAsked(a, ctx)
    requires Behind(a, log, ctx, answer) && answer.decision && !AllApply(answer.limits)
    ensures !a.decision.allowed && !PlainFalse(a)
  {
    hide Enforced, ReplyTo, Carries, Applies;
    EnforcedOnARun(a.action, ctx.resource, Heard(a.reply), ctx.features, a.decision);
    if a.reply.Replied? {
      ReplyToOne(a.reply.request, ctx.options.maxAnswerBytes);
      if a.reply.reply.Answers? {
        SameAnswer(a.reply.request.http.body, answer, a.reply.reply.answers[0]);
      }
    }
  }

  /** A true answer to a use with a limit that cannot be applied never gives an allowed run. */
  lemma UnappliedNeverRuns(trace: seq<Asked>, sql: SqlClass, ctx: Context, use: RunUse, log: seq<Event>, i: nat,
                           answer: Answer)
    requires Protocol(trace, sql, ctx) && RunResult(trace, sql, use) && i < |trace| && trace[i].UseAsked?
    requires Behind(trace[i], log, ctx, answer) && answer.decision && !AllApply(answer.limits)
    ensures !use.allowed
  {
    hide WellAsked, Behind, PlainFalse, CeilingsIf, AllApply;
    assert trace[i] in trace;
    UnappliedUse(trace[i], log, ctx, answer);
  }
}
