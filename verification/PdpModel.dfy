/** The values of src/access_pdp.hpp: questions, answers and decisions of the policy decision point (PDP),
    the reading of an answer, and the keys of the cache (src/access_pdp.cpp). */
module PdpModel {
  import opened Common
  import opened AccessResource
  import opened OptionsOrder

  const US: char := '\U{1f}'

  datatype Match = OnNode | Subtree
  datatype Question = Question(action: string, resource: Resource, how: Match)

  datatype Reason = NoReason | UnknownSubject | InvalidResource | InvalidRequest | BudgetExceeded | OtherReason
  datatype Limit = Limit(name: string, value: nat)

  datatype Answer = Answer(decision: bool, unknownSubject: bool, reason: Reason, retryAfter: Option<nat>,
                           limits: seq<Limit>, usageUnits: Option<nat>)

  datatype Source = FromPdp | FromCache | FromError
  datatype Decision = Decision(allowed: bool, source: Source, unknownSubject: bool, failed: bool, reason: Reason,
                               retryAfter: Option<nat>, limits: seq<Limit>, usageUnits: Option<nat>,
                               usageInvalid: bool, ceilingRefused: string)

  const FAILED := Decision(false, FromError, false, true, NoReason, None, [], None, false, "")

  function DecisionFrom(a: Answer, source: Source): Decision {
    Decision(a.decision, source, a.unknownSubject, false, a.reason, a.retryAfter, a.limits, a.usageUnits, false, "")
  }

  // ---- the reading of an answer ----

  datatype Json = Null | Bool(b: bool) | Integer(n: int) | Fraction | Str(text: string) | Arr(items: seq<Json>)
                | Obj(members: seq<Member>)
  datatype Member = Member(name: string, value: Json)

  predicate IsUint64(v: Json) {
    v.Integer? && 0 <= v.n < 0x1_0000_0000_0000_0000
  }

  /** The first member with the name. */
  function Find(members: seq<Member>, name: string): Option<Json> {
    if members == [] then None
    else if members[0].name == name then Some(members[0].value)
    else Find(members[1..], name)
  }

  function ReasonOf(v: Json): Reason {
    if !v.Str? then OtherReason
    else if v.text == "unknown_subject" then UnknownSubject
    else if v.text == "invalid_resource" then InvalidResource
    else if v.text == "invalid_request" then InvalidRequest
    else if v.text == "budget_exceeded" then BudgetExceeded
    else OtherReason
  }

  /** The limits are kept in the order of their names. */
  function Placed(limits: seq<Limit>, l: Limit): seq<Limit> {
    if limits == [] || LexLess(limits[|limits| - 1].name, l.name) then limits + [l]
    else Placed(limits[..|limits| - 1], l) + [limits[|limits| - 1]]
  }

  predicate InNameOrder(limits: seq<Limit>) {
    forall i, j | 0 <= i < j < |limits| :: LexLess(limits[i].name, limits[j].name)
  }

  /** Whole numbers from 0, with no name two times. */
  function LimitsOf(members: seq<Member>): Option<seq<Limit>> {
    if members == [] then Some([])
    else
      var last := |members| - 1;
      match LimitsOf(members[..last])
      case None => None
      case Some(before) =>
        if !IsUint64(members[last].value) || exists l | l in before :: l.name == members[last].name then None
        else Some(Placed(before, Limit(members[last].name, members[last].value.n)))
  }

  const PLAIN_FALSE := Answer(false, false, NoReason, None, [], None)

  function FalseAnswer(context: seq<Member>): Option<Answer> {
    match Find(context, "reason")
    case None => Some(PLAIN_FALSE)
    case Some(v) =>
      var reason := ReasonOf(v);
      var known := PLAIN_FALSE.(reason := reason, unknownSubject := reason == UnknownSubject);
      if reason != BudgetExceeded then Some(known)
      else
        match Find(context, "retry_after")
        case None => None
        case Some(retry) => if IsUint64(retry) && retry.n >= 1 then Some(known.(retryAfter := Some(retry.n))) else None
  }

  function TrueAnswer(context: seq<Member>): Option<Answer> {
    var limits := match Find(context, "limits")
      case None => Some([])
      case Some(v) => if v.Obj? then LimitsOf(v.members) else None;
    var units := match Find(context, "usage")
      case None => Some(None)
      case Some(v) =>
        if !v.Obj? then None
        else
          match Find(v.members, "units")
          case None => Some(None)
          case Some(n) => if IsUint64(n) && n.n <= 1 then Some(Some(n.n)) else None;
    if limits.None? || units.None? then None
    else Some(Answer(true, false, NoReason, None, limits.value, units.value))
  }

  function DecisionOf(v: Json): Option<Answer> {
    if !v.Obj? then None
    else
      match Find(v.members, "decision")
      case Some(Bool(decision)) =>
        (match Find(v.members, "context")
         case None => Some(Answer(decision, false, NoReason, None, [], None))
         case Some(Obj(context)) => if decision then TrueAnswer(context) else FalseAnswer(context)
         case Some(_) => None)
      case _ => None
  }

  /** What the protocol lets an answer carry: limits and units only when it is true; a reason only when it is
      false; a time to wait (at least one second) exactly for an exceeded budget. */
  predicate ProtocolAnswer(a: Answer) {
    && (a.decision ==> a.reason == NoReason)
    && (!a.decision ==> a.limits == [] && a.usageUnits == None)
    && (a.unknownSubject <==> a.reason == UnknownSubject)
    && (a.retryAfter.Some? <==> a.reason == BudgetExceeded)
    && (a.retryAfter.Some? ==> a.retryAfter.value >= 1)
    && (a.usageUnits.Some? ==> a.usageUnits.value <= 1)
    && InNameOrder(a.limits)
    && (forall i, j | 0 <= i < j < |a.limits| :: a.limits[i].name != a.limits[j].name)
  }

  lemma {:induction false} PlacedMembers(limits: seq<Limit>, l: Limit)
    ensures forall k :: k in Placed(limits, l) <==> k in limits || k == l
  {
    hide LexLess;
    if limits != [] {
      PlacedMembers(limits[..|limits| - 1], l);
      assert limits == limits[..|limits| - 1] + [limits[|limits| - 1]];
    }
  }

  lemma {:induction false} PlacedInOrder(limits: seq<Limit>, l: Limit)
    requires InNameOrder(limits) && forall k | k in limits :: k.name != l.name
    ensures InNameOrder(Placed(limits, l))
  {
    hide LexLess;
    if limits != [] {
      var last, front := limits[|limits| - 1], limits[..|limits| - 1];
      if LexLess(last.name, l.name) {
        forall i | 0 <= i < |limits| ensures LexLess(limits[i].name, l.name) {
          if i < |limits| - 1 {
            LexTransitive(limits[i].name, last.name, l.name);
          }
        }
      } else {
        LexTotal(last.name, l.name);
        PlacedInOrder(front, l);
        PlacedMembers(front, l);
        var placed := Placed(front, l);
        forall i | 0 <= i < |placed| ensures LexLess(placed[i].name, last.name) {
          assert placed[i] in placed;
        }
      }
    }
  }

  lemma {:induction false} LimitsInOrder(members: seq<Member>)
    requires LimitsOf(members).Some?
    ensures InNameOrder(LimitsOf(members).value)
  {
    if members != [] {
      hide Placed, InNameOrder;
      var last := |members| - 1;
      LimitsInOrder(members[..last]);
      PlacedInOrder(LimitsOf(members[..last]).value, Limit(members[last].name, members[last].value.n));
    } else {
      assert InNameOrder([]);
    }
  }

  /** The limits of an answer: one for each member, with its value. */
  lemma {:induction false} LimitsAreTheMembers(members: seq<Member>)
    requires LimitsOf(members).Some?
    ensures forall l :: l in LimitsOf(members).value <==> MemberLimit(members, l)
  {
    if members != [] {
      hide Placed;
      var last := |members| - 1;
      LimitsAreTheMembers(members[..last]);
      var l := Limit(members[last].name, members[last].value.n);
      PlacedMembers(LimitsOf(members[..last]).value, l);
      forall k ensures MemberLimit(members, k) <==> MemberLimit(members[..last], k) || k == l {
        MemberLimitNext(members, k);
      }
    }
  }

  predicate MemberLimit(members: seq<Member>, l: Limit) {
    exists m | m in members :: m.name == l.name && m.value == Integer(l.value)
  }

  lemma MemberLimitNext(members: seq<Member>, l: Limit)
    requires members != []
    ensures var last := |members| - 1;
            MemberLimit(members, l) <==>
              || MemberLimit(members[..last], l)
              || (members[last].name == l.name && members[last].value == Integer(l.value))
  {
    assert members == members[..|members| - 1] + [members[|members| - 1]];
  }

  lemma NamesDiffer(limits: seq<Limit>)
    requires InNameOrder(limits)
    ensures forall i, j | 0 <= i < j < |limits| :: limits[i].name != limits[j].name
  {
    hide LexLess;
    forall i, j | 0 <= i < j < |limits| ensures limits[i].name != limits[j].name {
      LexIrreflexive(limits[i].name);
    }
  }

  lemma NoLimitsInOrder()
    ensures InNameOrder([])
  {
  }

  /** Every answer that the client reads is one that the protocol allows. */
  lemma ReadAnswersFollowTheProtocol(v: Json)
    requires DecisionOf(v).Some?
    ensures ProtocolAnswer(DecisionOf(v).value)
  {
    hide InNameOrder, LimitsOf;
    NoLimitsInOrder();
    if v.Obj? && Find(v.members, "context").Some? && Find(v.members, "context").value.Obj? {
      var limits := Find(Find(v.members, "context").value.members, "limits");
      if limits.Some? && limits.value.Obj? && LimitsOf(limits.value.members).Some? {
        LimitsInOrder(limits.value.members);
        NamesDiffer(LimitsOf(limits.value.members).value);
      }
    }
  }

  function AllDecisions(items: seq<Json>): Option<seq<Answer>> {
    if items == [] then Some([])
    else
      var last := |items| - 1;
      match (AllDecisions(items[..last]), DecisionOf(items[last]))
      case (Some(before), Some(a)) => Some(before + [a])
      case _ => None
  }

  /** The answers of a body, in the order of the questions; one bad item makes the whole body not valid. */
  function ParseAnswer(body: Json, count: nat): Option<seq<Answer>> {
    if !body.Obj? then None
    else if count == 1 then
      match DecisionOf(body)
      case None => None
      case Some(a) => Some([a])
    else
      match Find(body.members, "evaluations")
      case Some(Arr(items)) => if |items| == count then AllDecisions(items) else None
      case _ => None
  }

  lemma {:induction false} AllDecisionsAt(items: seq<Json>)
    ensures AllDecisions(items).Some? <==> forall i | 0 <= i < |items| :: DecisionOf(items[i]).Some?
    ensures AllDecisions(items).Some? ==>
              && |AllDecisions(items).value| == |items|
              && forall i | 0 <= i < |items| :: DecisionOf(items[i]) == Some(AllDecisions(items).value[i])
  {
    if items != [] {
      hide DecisionOf;
      var last := |items| - 1;
      AllDecisionsAt(items[..last]);
      assert forall i | 0 <= i < last :: items[..last][i] == items[i];
    }
  }

  /** A valid body has one answer for each question, at the question's own place, and each follows the protocol. */
  lemma ParsedInOrder(body: Json, count: nat)
    requires ParseAnswer(body, count).Some?
    ensures var answers := ParseAnswer(body, count).value;
            && |answers| == count
            && (forall a | a in answers :: ProtocolAnswer(a))
            && (count != 1 ==>
                  && Find(body.members, "evaluations").Some?
                  && Find(body.members, "evaluations").value.Arr?
                  && var items := Find(body.members, "evaluations").value.items;
                     |items| == count && forall i | 0 <= i < count :: DecisionOf(items[i]) == Some(answers[i]))
  {
    hide DecisionOf, ProtocolAnswer;
    if count == 1 {
      ReadAnswersFollowTheProtocol(body);
    } else {
      var items := Find(body.members, "evaluations").value.items;
      AllDecisionsAt(items);
      forall i | 0 <= i < |items| ensures ProtocolAnswer(AllDecisions(items).value[i]) {
        ReadAnswersFollowTheProtocol(items[i]);
      }
    }
  }

  method ReadAnswer(body: Json, count: nat) returns (ok: bool, answers: seq<Answer>)
    ensures ok <==> ParseAnswer(body, count).Some?
    ensures ok ==> ParseAnswer(body, count) == Some(answers)
    ensures !ok ==> answers == []
  {
    hide DecisionOf;
    answers := [];
    if !body.Obj? {
      return false, [];
    }
    if count == 1 {
      var a := DecisionOf(body);
      return a.Some?, if a.Some? then [a.value] else [];
    }
    var found := Find(body.members, "evaluations");
    if found.None? || !found.value.Arr? || |found.value.items| != count {
      return false, [];
    }
    var items := found.value.items;
    for i := 0 to |items|
      invariant AllDecisions(items[..i]) == Some(answers)
    {
      assert items[..i + 1][..i] == items[..i];
      var a := DecisionOf(items[i]);
      if a.None? {
        AllDecisionsAt(items);
        return false, [];
      }
      answers := answers + [a.value];
    }
    assert items[..|items|] == items;
    return true, answers;
  }

  // ---- the answer to a use ----

  /** A true answer to a use carries its units; without them it is false. */
  function UseAnswerOf(a: Answer): Answer {
    if a.decision && a.usageUnits.None? then PLAIN_FALSE else a
  }

  // ---- the outcome of a decision ----

  datatype Outcome = Allowed | Denied | OverBudget | Failed

  function OutcomeOf(d: Decision): Outcome {
    if d.failed then Failed
    else if d.allowed then Allowed
    else if d.reason == BudgetExceeded && d.retryAfter.Some? then OverBudget
    else Denied
  }

  function Status(o: Outcome): nat {
    match o
    case Failed => 503
    case OverBudget => 429
    case Allowed | Denied => 403
  }

  /** A denial with a wait: the budget is exceeded. */
  predicate OverTheBudget(d: Decision) {
    !d.failed && !d.allowed && d.reason == BudgetExceeded && d.retryAfter.Some?
  }

  predicate FirstFailure(decisions: seq<Decision>, i: int) {
    0 <= i < |decisions| && decisions[i].failed && forall k | 0 <= k < i :: !decisions[k].failed
  }

  /** The first one with the longest wait. */
  predicate LongestWait(decisions: seq<Decision>, i: int) {
    && 0 <= i < |decisions| && OverTheBudget(decisions[i])
    && (forall k | 0 <= k < |decisions| && OverTheBudget(decisions[k]) ::
          decisions[k].retryAfter.value <= decisions[i].retryAfter.value)
    && (forall k | 0 <= k < i && OverTheBudget(decisions[k]) ::
          decisions[k].retryAfter.value < decisions[i].retryAfter.value)
  }

  /** The decision that refuses: the first failure, else the exceeded budget with the longest wait, else
      the first decision. */
  method RefusalOf(decisions: seq<Decision>) returns (refusal: Decision)
    ensures decisions == [] ==> refusal == FAILED
    ensures forall i :: FirstFailure(decisions, i) ==> refusal == decisions[i]
    ensures decisions != [] && (forall d | d in decisions :: !d.failed) ==>
              if forall d | d in decisions :: !OverTheBudget(d) then refusal == decisions[0]
              else exists i :: LongestWait(decisions, i) && refusal == decisions[i]
  {
    if decisions == [] {
      return FAILED;
    }
    var budget: Option<Decision> := None;
    ghost var at := 0;
    for i := 0 to |decisions|
      invariant forall k | 0 <= k < i :: !decisions[k].failed
      invariant budget.None? ==> forall k | 0 <= k < i :: !OverTheBudget(decisions[k])
      invariant budget.Some? ==> at < i && decisions[at] == budget.value && LongestWait(decisions[..i], at)
    {
      var d := decisions[i];
      if OutcomeOf(d) == Failed {
        return d;
      }
      if OutcomeOf(d) == OverBudget && (budget.None? || d.retryAfter.value > budget.value.retryAfter.value) {
        budget, at := Some(d), i;
      }
    }
    assert decisions[..|decisions|] == decisions;
    return if budget.Some? then budget.value else decisions[0];
  }

  // ---- the keys of the cache ----

  function MatchName(m: Match): string {
    match m
    case OnNode => "node"
    case Subtree => "subtree"
  }

  function CacheKey(subject: string, q: Question): string {
    subject + [US] + (q.action + [US] + (Path(q.resource) + [US] + MatchName(q.how)))
  }

  function UseCacheKey(subject: string, q: Question): string {
    "U" + [US] + CacheKey(subject, q)
  }

  function KeyOf(use: bool, subject: string, q: Question): string {
    if use then UseCacheKey(subject, q) else CacheKey(subject, q)
  }

  /** A subject and an action hold no control character (src/access_identity.cpp refuses such a subject), and the
      types of the nodes are free of the separators. */
  predicate Clean(subject: string, q: Question) {
    US !in subject && US !in q.action && CleanChain(Chain(q.resource))
  }

  lemma CacheKeyInjective(s: string, q: Question, t: string, r: Question)
    requires Clean(s, q) && Clean(t, r)
    requires CacheKey(s, q) == CacheKey(t, r)
    ensures s == t && q == r
  {
    hide Path;
    JoinedHasNoUnitSeparator(Chain(q.resource));
    JoinedHasNoUnitSeparator(Chain(r.resource));
    PathChars(q.resource);
    PathChars(r.resource);
    var qTail, rTail := Path(q.resource) + [US] + MatchName(q.how), Path(r.resource) + [US] + MatchName(r.how);
    SplitUnique(s, q.action + [US] + qTail, t, r.action + [US] + rTail, US);
    SplitUnique(q.action, qTail, r.action, rTail, US);
    SplitUnique(Path(q.resource), MatchName(q.how), Path(r.resource), MatchName(r.how), US);
    PathInjective(q.resource, r.resource);
    assert |MatchName(OnNode)| == 4 && |MatchName(Subtree)| == 7;
  }

  lemma PathChars(r: Resource)
    requires CleanChain(Chain(r))
    ensures US !in Path(r)
  {
    JoinedHasNoUnitSeparator(Chain(r));
  }

  /** The key of a use has one field more than any other key, so the two key spaces are disjoint. */
  lemma KeySpacesDisjoint(s: string, q: Question, t: string, r: Question)
    requires Clean(s, q) && Clean(t, r)
    ensures UseCacheKey(s, q) != CacheKey(t, r)
  {
    hide Path;
    var qTail, rTail := Path(q.resource) + [US] + MatchName(q.how), Path(r.resource) + [US] + MatchName(r.how);
    PathChars(q.resource);
    PathChars(r.resource);
    assert qTail[|Path(q.resource)|] == US;
    assert US !in MatchName(r.how);
    if UseCacheKey(s, q) == CacheKey(t, r) {
      SplitUnique("U", CacheKey(s, q), t, r.action + [US] + rTail, US);
      SplitUnique(s, q.action + [US] + qTail, r.action, rTail, US);
      SplitUnique(q.action, qTail, Path(r.resource), MatchName(r.how), US);
    }
  }

  /** Two entries of the cache never share a key: the key tells the subject, the question and the kind. */
  lemma KeyInjective(use: bool, s: string, q: Question, use': bool, t: string, r: Question)
    requires Clean(s, q) && Clean(t, r)
    requires KeyOf(use, s, q) == KeyOf(use', t, r)
    ensures use == use' && s == t && q == r
  {
    if use && use' {
      assert UseCacheKey(s, q)[2..] == CacheKey(s, q) && UseCacheKey(t, r)[2..] == CacheKey(t, r);
      CacheKeyInjective(s, q, t, r);
    } else if !use && !use' {
      CacheKeyInjective(s, q, t, r);
    } else if use {
      KeySpacesDisjoint(s, q, t, r);
    } else {
      KeySpacesDisjoint(t, r, s, q);
    }
  }
}
