/** What the bytes of an answer mean: each field of an answer that is read, on the members of the JSON value that the
    PDP sent (decision_of, parse_answer and check_result, src/access_pdp.cpp), and the values that are refused. */
module PdpReading {
  import opened Common
  import opened PdpModel
  import opened PdpCall

  // ---- the members of an object ----

  predicate FirstAt(members: seq<Member>, i: nat, name: string) {
    && i < |members| && members[i].name == name
    && forall j | 0 <= j < i :: members[j].name != name
  }

  /** The first member with this name has this value. */
  predicate Has(members: seq<Member>, name: string, v: Json) {
    exists i | 0 <= i < |members| :: FirstAt(members, i, name) && members[i].value == v
  }

  predicate Lacks(members: seq<Member>, name: string) {
    forall m | m in members :: m.name != name
  }

  lemma {:induction false} FindIsTheFirst(members: seq<Member>, name: string)
    ensures Find(members, name).None? <==> Lacks(members, name)
    ensures forall v :: Has(members, name, v) <==> Find(members, name) == Some(v)
  {
    if members != [] {
      var rest := members[1..];
      assert members == [members[0]] + rest;
      FindIsTheFirst(rest, name);
      if members[0].name == name {
        assert FirstAt(members, 0, name);
      } else {
        forall v ensures Has(members, name, v) <==> Has(rest, name, v) {
          HasInRest(members, name, v);
        }
      }
    }
  }

  lemma HasInRest(members: seq<Member>, name: string, v: Json)
    requires members != [] && members[0].name != name
    ensures Has(members, name, v) <==> Has(members[1..], name, v)
  {
    var rest := members[1..];
    if Has(members, name, v) {
      var i :| 0 <= i < |members| && FirstAt(members, i, name) && members[i].value == v;
      assert FirstAt(rest, i - 1, name) && rest[i - 1] == members[i];
    }
    if Has(rest, name, v) {
      var i :| 0 <= i < |rest| && FirstAt(rest, i, name) && rest[i].value == v;
      assert FirstAt(members, i + 1, name) && rest[i] == members[i + 1];
    }
  }

  // ---- the fields of an answer ----

  const WORD64 := 0x1_0000_0000_0000_0000

  /** Whole numbers from 0 below 2^64, with no name two times. */
  predicate WholeLimits(members: seq<Member>) {
    && (forall m | m in members :: m.value.Integer? && 0 <= m.value.n < WORD64)
    && forall i, j | 0 <= i < j < |members| :: members[i].name != members[j].name
  }

  /** The limits are the members, each with its value, in the order of the names. */
  ghost predicate LimitsOfMembers(members: seq<Member>, limits: seq<Limit>) {
    && WholeLimits(members) && InNameOrder(limits)
    && forall l :: l in limits <==> exists m | m in members :: m.name == l.name && m.value == Integer(l.value)
  }

  ghost predicate SaysLimits(context: seq<Member>, limits: seq<Limit>) {
    || (Lacks(context, "limits") && limits == [])
    || exists members :: Has(context, "limits", Obj(members)) && LimitsOfMembers(members, limits)
  }

  ghost predicate SaysUnits(context: seq<Member>, units: Option<nat>) {
    match units
    case Some(n) => n <= 1 && exists usage :: Has(context, "usage", Obj(usage)) && Has(usage, "units", Integer(n))
    case None =>
      || Lacks(context, "usage")
      || exists usage :: Has(context, "usage", Obj(usage)) && Lacks(usage, "units")
  }

  predicate SaysReason(context: seq<Member>, reason: Reason) {
    match reason
    case NoReason => Lacks(context, "reason")
    case UnknownSubject => Has(context, "reason", Str("unknown_subject"))
    case InvalidResource => Has(context, "reason", Str("invalid_resource"))
    case InvalidRequest => Has(context, "reason", Str("invalid_request"))
    case BudgetExceeded => Has(context, "reason", Str("budget_exceeded"))
    case OtherReason =>
      && !Lacks(context, "reason")
      && forall text | text in ["unknown_subject", "invalid_resource", "invalid_request", "budget_exceeded"] ::
           !Has(context, "reason", Str(text))
  }

  /** The answer is what this JSON value says: each field on its own member. */
  ghost predicate Carries(v: Json, a: Answer) {
    && v.Obj? && Has(v.members, "decision", Bool(a.decision))
    && (a.unknownSubject <==> a.reason == UnknownSubject)
    && if Lacks(v.members, "context") then
         a.reason == NoReason && a.retryAfter == None && a.limits == [] && a.usageUnits == None
       else exists context :: Has(v.members, "context", Obj(context)) && CarriesContext(context, a)
  }

  ghost predicate CarriesContext(context: seq<Member>, a: Answer) {
    if a.decision then
      && a.reason == NoReason && a.retryAfter == None
      && SaysLimits(context, a.limits) && SaysUnits(context, a.usageUnits)
    else
      && a.limits == [] && a.usageUnits == None && SaysReason(context, a.reason)
      && (a.retryAfter.Some? <==> a.reason == BudgetExceeded)
      && (a.retryAfter.Some? ==>
            && 1 <= a.retryAfter.value < WORD64
            && Has(context, "retry_after", Integer(a.retryAfter.value)))
  }

  // ---- what is refused ----

  ghost predicate ReadableTrue(context: seq<Member>) {
    && (Lacks(context, "limits") || exists members :: Has(context, "limits", Obj(members)) && WholeLimits(members))
    && (Lacks(context, "usage") ||
        exists usage :: Has(context, "usage", Obj(usage)) &&
          (Lacks(usage, "units") || Has(usage, "units", Integer(0)) || Has(usage, "units", Integer(1))))
  }

  ghost predicate ReadableFalse(context: seq<Member>) {
    Has(context, "reason", Str("budget_exceeded")) ==>
      exists n | 1 <= n < WORD64 :: Has(context, "retry_after", Integer(n))
  }

  /** The values that are accepted: an object with a boolean "decision" and, if it has one, a context that is an object;
      limits, units and the wait are looked at for the decision that they belong to. */
  ghost predicate Readable(v: Json) {
    && v.Obj?
    && exists decision :: Has(v.members, "decision", Bool(decision)) &&
         (Lacks(v.members, "context") ||
          exists context :: Has(v.members, "context", Obj(context)) &&
            if decision then ReadableTrue(context) else ReadableFalse(context))
  }

  lemma {:induction false} LimitsAreWhole(members: seq<Member>)
    ensures LimitsOf(members).Some? <==> WholeLimits(members)
  {
    if members != [] {
      hide Placed, InNameOrder;
      var last := |members| - 1;
      var front := members[..last];
      assert members == front + [members[last]];
      LimitsAreWhole(front);
      if LimitsOf(front).Some? {
        LimitsAreTheMembers(front);
        NameTaken(members, LimitsOf(front).value);
      }
    }
  }

  /** The name of the last member is among the limits before it exactly when an earlier member has it. */
  lemma NameTaken(members: seq<Member>, limits: seq<Limit>)
    requires members != [] && WholeLimits(members[..|members| - 1])
    requires forall l :: l in limits <==> MemberLimit(members[..|members| - 1], l)
    ensures var last := |members| - 1;
            (exists l | l in limits :: l.name == members[last].name) <==>
              exists i | 0 <= i < last :: members[i].name == members[last].name
  {
    var last := |members| - 1;
    var front, name := members[..last], members[last].name;
    if l :| l in limits && l.name == name {
      assert MemberLimit(front, l);
      var m :| m in front && m.name == l.name;
      var i :| 0 <= i < last && front[i] == m;
      assert members[i].name == name;
    }
    if i :| 0 <= i < last && members[i].name == name {
      assert front[i] in front && front[i] == members[i];
      assert MemberLimit(front, Limit(name, front[i].value.n));
    }
  }

  lemma LimitsAreRead(context: seq<Member>)
    ensures var limits := match Find(context, "limits")
              case None => Some([])
              case Some(v) => if v.Obj? then LimitsOf(v.members) else None;
            && (limits.Some? ==> SaysLimits(context, limits.value))
            && (limits.Some? <==>
                  || Lacks(context, "limits")
                  || exists members :: Has(context, "limits", Obj(members)) && WholeLimits(members))
  {
    hide LimitsOf, InNameOrder, Has, Lacks, Find;
    FindIsTheFirst(context, "limits");
    var found := Find(context, "limits");
    if found.Some? && found.value.Obj? {
      var members := found.value.members;
      assert Has(context, "limits", Obj(members));
      LimitsAreWhole(members);
      if LimitsOf(members).Some? {
        LimitsAreTheMembers(members);
        LimitsInOrder(members);
      }
    }
  }

  lemma TrueIsRead(context: seq<Member>)
    ensures TrueAnswer(context).Some? ==>
              TrueAnswer(context).value.decision && CarriesContext(context, TrueAnswer(context).value)
    ensures TrueAnswer(context).Some? <==> ReadableTrue(context)
    ensures TrueAnswer(context).Some? ==>
              (TrueAnswer(context).value.unknownSubject <==> TrueAnswer(context).value.reason == UnknownSubject)
  {
    hide LimitsOf, Has, Lacks, Find, SaysLimits;
    LimitsAreRead(context);
    FindIsTheFirst(context, "usage");
    var usage := Find(context, "usage");
    if usage.Some? && usage.value.Obj? {
      assert Has(context, "usage", Obj(usage.value.members));
      FindIsTheFirst(usage.value.members, "units");
    }
  }

  lemma FalseIsRead(context: seq<Member>)
    ensures FalseAnswer(context).Some? ==>
              !FalseAnswer(context).value.decision && CarriesContext(context, FalseAnswer(context).value)
    ensures FalseAnswer(context).Some? <==> ReadableFalse(context)
    ensures FalseAnswer(context).Some? ==>
              (FalseAnswer(context).value.unknownSubject <==> FalseAnswer(context).value.reason == UnknownSubject)
  {
    hide Has, Lacks, Find, ReasonOf, SaysReason;
    FindIsTheFirst(context, "retry_after");
    ReasonIsRead(context);
  }

  /** The reason of a false answer is what its text says. */
  lemma ReasonIsRead(context: seq<Member>)
    ensures var found := Find(context, "reason");
            && SaysReason(context, if found.Some? then ReasonOf(found.value) else NoReason)
            && (Has(context, "reason", Str("budget_exceeded")) <==>
                  found.Some? && ReasonOf(found.value) == BudgetExceeded)
            && (found.Some? ==> ReasonOf(found.value) != NoReason)
  {
    hide Has, Lacks, Find;
    FindIsTheFirst(context, "reason");
  }

  /** An answer that is read is what the value says, and a value is refused exactly when it is not readable. */
  lemma AnswerIsRead(v: Json)
    ensures DecisionOf(v).Some? ==> Carries(v, DecisionOf(v).value)
    ensures DecisionOf(v).Some? <==> Readable(v)
  {
    hide Has, Lacks, Find, TrueAnswer, FalseAnswer, ReadableTrue, ReadableFalse, CarriesContext;
    if v.Obj? {
      FindIsTheFirst(v.members, "decision");
      FindIsTheFirst(v.members, "context");
      var context := Find(v.members, "context");
      if context.Some? && context.value.Obj? {
        TrueIsRead(context.value.members);
        FalseIsRead(context.value.members);
        assert Has(v.members, "context", context.value);
        assert context.value == Obj(context.value.members);
      }
    }
  }

  // ---- the answers of a body ----

  /** Item k of a body with the answers to `count` questions: the body itself for one question. */
  predicate IsItem(body: Json, count: nat, k: nat, item: Json) {
    if count == 1 then k == 0 && item == body
    else body.Obj? && exists m | m in body.members ::
           && Has(body.members, "evaluations", m.value) && m.value.Arr?
           && |m.value.items| == count && k < count && m.value.items[k] == item
  }

  /** The whole body is readable: every item of it, and one for each question. */
  ghost predicate ReadableBody(body: Json, count: nat) {
    if count == 1 then Readable(body)
    else body.Obj? && exists m | m in body.members ::
           && Has(body.members, "evaluations", m.value) && m.value.Arr?
           && |m.value.items| == count && forall item | item in m.value.items :: Readable(item)
  }

  /** Answer k is what item k says. */
  ghost predicate AnswersTheItems(body: Json, count: nat, answers: seq<Answer>) {
    |answers| == count && forall k | 0 <= k < count :: ItemCarries(body, count, k, answers[k])
  }

  ghost predicate ItemCarries(body: Json, count: nat, k: nat, a: Answer) {
    exists item :: IsItem(body, count, k, item) && Carries(item, a)
  }

  /** A body is read exactly when it is readable as a whole, and then each answer is its own item. */
  lemma BodyIsRead(body: Json, count: nat)
    ensures ParseAnswer(body, count).Some? <==> ReadableBody(body, count)
    ensures ParseAnswer(body, count).Some? ==> AnswersTheItems(body, count, ParseAnswer(body, count).value)
  {
    hide DecisionOf, Readable, Carries, Find, Has, Lacks;
    if count == 1 {
      AnswerIsRead(body);
      assert DecisionOf(body).Some? ==> body.Obj? by { OnlyObjectsAreRead(body); }
      assert ParseAnswer(body, 1).Some? ==> IsItem(body, 1, 0, body);
    } else if body.Obj? {
      FindIsTheFirst(body.members, "evaluations");
      var found := Find(body.members, "evaluations");
      forall m | m in body.members && Has(body.members, "evaluations", m.value) ensures found == Some(m.value) {
      }
      if found.Some? && found.value.Arr? && |found.value.items| == count {
        assert Has(body.members, "evaluations", found.value) && found.value == Arr(found.value.items);
        ItemsAreRead(body, count, found.value.items);
      }
    }
  }

  lemma OnlyObjectsAreRead(v: Json)
    ensures DecisionOf(v).Some? ==> v.Obj?
  {
  }

  lemma ItemsAreRead(body: Json, count: nat, items: seq<Json>)
    requires count != 1 && body.Obj? && Find(body.members, "evaluations") == Some(Arr(items)) && |items| == count
    requires Has(body.members, "evaluations", Arr(items))
    ensures ParseAnswer(body, count).Some? <==> forall item | item in items :: Readable(item)
    ensures ParseAnswer(body, count).Some? ==> AnswersTheItems(body, count, ParseAnswer(body, count).value)
    ensures exists m | m in body.members :: m.value == Arr(items)
  {
    hide DecisionOf, Readable, Carries, Find, Lacks;
    AllDecisionsAt(items);
    var i :| 0 <= i < |body.members| && FirstAt(body.members, i, "evaluations") && body.members[i].value == Arr(items);
    var m := body.members[i];
    forall k | 0 <= k < count
      ensures DecisionOf(items[k]).Some? <==> Readable(items[k])
      ensures DecisionOf(items[k]).Some? ==> ItemCarries(body, count, k, DecisionOf(items[k]).value)
    {
      AnswerIsRead(items[k]);
      assert m in body.members && IsItem(body, count, k, items[k]);
    }
    assert forall item | item in items :: exists k | 0 <= k < count :: items[k] == item;
  }

  // ---- the reply to a request ----

  /** The transport gave an answer in time, with status 200, within the bytes that the client reads. */
  predicate Delivered(http: Http, elapsed: nat, timeout: nat, maxAnswerBytes: nat) {
    !http.error && elapsed <= timeout && http.status == 200 && http.bodyBytes <= maxAnswerBytes
  }

  /** What the client makes of the result of a request. */
  lemma ReplyMeaning(http: Http, elapsed: nat, timeout: nat, maxAnswerBytes: nat, count: nat)
    ensures var reply := ReplyOf(http, elapsed, timeout, maxAnswerBytes, count);
            && (reply.Silent? <==> http.error || elapsed > timeout)
            && (reply.Answers? <==> Delivered(http, elapsed, timeout, maxAnswerBytes) && ReadableBody(http.body, count))
            && (reply.Answers? ==> AnswersTheItems(http.body, count, reply.answers))
  {
    hide ParseAnswer, ReadableBody, AnswersTheItems;
    BodyIsRead(http.body, count);
  }

  /** The reply to this request says true for its question k: it came in time, it is readable as a whole, and item k has
      the decision true. */
  ghost predicate TrueOnTheWire(req: Request, k: nat, maxAnswerBytes: nat) {
    && Delivered(req.http, req.elapsed, req.timeout, maxAnswerBytes)
    && ReadableBody(req.http.body, |req.asked|)
    && exists item ::
         IsItem(req.http.body, |req.asked|, k, item) && item.Obj? && Has(item.members, "decision", Bool(true))
  }

  lemma ItemsAreUnique(body: Json, count: nat, k: nat, a: Json, b: Json)
    requires IsItem(body, count, k, a) && IsItem(body, count, k, b)
    ensures a == b
  {
    if count != 1 {
      FindIsTheFirst(body.members, "evaluations");
    }
  }

  lemma HasOne(members: seq<Member>, name: string, a: Json, b: Json)
    requires Has(members, name, a) && Has(members, name, b)
    ensures a == b
  {
    FindIsTheFirst(members, name);
  }

  lemma TrueOnTheWireMeaning(req: Request, k: nat, maxAnswerBytes: nat)
    ensures var reply := ReplyTo(req, maxAnswerBytes);
            TrueOnTheWire(req, k, maxAnswerBytes) <==>
              reply.Answers? && k < |reply.answers| && reply.answers[k].decision
  {
    hide ReplyOf, ReadableBody, Delivered, Has, IsItem, CarriesContext, Lacks;
    var reply, count := ReplyTo(req, maxAnswerBytes), |req.asked|;
    ReplyMeaning(req.http, req.elapsed, req.timeout, maxAnswerBytes, count);
    if reply.Answers? {
      if k < count {
        var item :| IsItem(req.http.body, count, k, item) && Carries(item, reply.answers[k]);
        forall other | IsItem(req.http.body, count, k, other) ensures other == item {
          ItemsAreUnique(req.http.body, count, k, item, other);
        }
        if Has(item.members, "decision", Bool(true)) {
          HasOne(item.members, "decision", Bool(true), Bool(reply.answers[k].decision));
        }
      } else {
        NoItemBeyond(req.http.body, count, k);
      }
    }
  }

  lemma NoItemBeyond(body: Json, count: nat, k: nat)
    requires k >= count
    ensures !exists item :: IsItem(body, count, k, item)
  {
  }
}
