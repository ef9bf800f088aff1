/** One batched call to the PDP as a run over its requests (PdpClient::decide and ask_chunk, src/access_pdp.cpp).
    Whatever the transport answers and whenever it answers, the run fails closed. */
module PdpCall {
  import opened Common
  import opened PdpModel

  /** What the transport gave for one request. */
  datatype Http = Http(error: bool, status: int, bodyBytes: nat, body: Json)

  /** What the client makes of it: no answer in time, an answer that is not valid, or the answers. */
  datatype Reply = Silent | Invalid | Answers(answers: seq<Answer>)

  function ReplyOf(http: Http, elapsed: nat, timeout: nat, maxAnswerBytes: nat, count: nat): Reply {
    if http.error || elapsed > timeout then Silent
    else if http.status != 200 || http.bodyBytes > maxAnswerBytes then Invalid
    else
      match ParseAnswer(http.body, count)
      case None => Invalid
      case Some(answers) => Answers(answers)
  }

  /** The fixed part of a call: its deadline when it goes in several requests, and the bounds of one request. */
  datatype Terms = Terms(split: bool, deadline: nat, timeout: nat, maxAnswerBytes: nat)

  /** A request that the client sent: the kind of its questions, the questions, the time it may take, when it went, and
      what came of it after which time. */
  datatype Request = Request(use: bool, subject: string, asked: seq<Question>, timeout: nat, started: nat, http: Http,
                             elapsed: nat)

  function ReplyTo(r: Request, maxAnswerBytes: nat): Reply {
    ReplyOf(r.http, r.elapsed, r.timeout, maxAnswerBytes, |r.asked|)
  }

  /** What one request of the call meets: the time before it, when it goes, the result, how long it took, when its
      answers are kept, the time after it. */
  datatype Slot = Slot(before: nat, started: nat, http: Http, elapsed: nat, read: nat, after: nat)

  datatype Step = NotSent | Sent(timeout: nat, reply: Reply)

  /** The run so far: the outcome of each request, and the two flags that stop the later ones. */
  datatype Progress = Progress(steps: seq<Step>, skip: bool, expired: bool)

  const START := Progress([], false, false)

  function Timeout(t: Terms, before: nat): nat
    requires t.split ==> before < t.deadline
  {
    if t.split && t.deadline - before < t.timeout then t.deadline - before else t.timeout
  }

  function Advance(t: Terms, p: Progress, count: nat, slot: Slot): Progress {
    if p.skip || p.expired then p.(steps := p.steps + [NotSent])
    else if t.split && slot.before >= t.deadline then Progress(p.steps + [NotSent], false, true)
    else
      var timeout := Timeout(t, slot.before);
      var reply := ReplyOf(slot.http, slot.elapsed, timeout, t.maxAnswerBytes, count);
      Progress(p.steps + [Sent(timeout, reply)], reply.Silent?, reply.Silent? && t.split && slot.after >= t.deadline)
  }

  function Run(t: Terms, counts: seq<nat>, slots: seq<Slot>): (p: Progress)
    requires |counts| == |slots|
    ensures |p.steps| == |slots|
  {
    if slots == [] then START
    else
      var last := |slots| - 1;
      Advance(t, Run(t, counts[..last], slots[..last]), counts[last], slots[last])
  }

  lemma {:induction false} RunPrefix(t: Terms, counts: seq<nat>, slots: seq<Slot>, k: nat)
    requires |counts| == |slots| && k <= |slots|
    ensures var p, q := Run(t, counts, slots), Run(t, counts[..k], slots[..k]);
            p.steps[..k] == q.steps && (q.skip ==> p.skip) && (q.expired ==> p.expired)
  {
    hide Advance;
    if k == |slots| {
      assert counts[..k] == counts && slots[..k] == slots;
    } else {
      var last := |slots| - 1;
      RunPrefix(t, counts[..last], slots[..last], k);
      assert counts[..last][..k] == counts[..k] && slots[..last][..k] == slots[..k];
      AdvanceAppends(t, Run(t, counts[..last], slots[..last]), counts[last], slots[last]);
    }
  }

  lemma AdvanceAppends(t: Terms, p: Progress, count: nat, slot: Slot)
    ensures var q := Advance(t, p, count, slot);
            && |q.steps| == |p.steps| + 1 && q.steps[..|p.steps|] == p.steps
            && (p.skip ==> q.skip) && (p.expired ==> q.expired)
  {
  }

  /** The step of request k is decided by the run before it. */
  lemma StepAt(t: Terms, counts: seq<nat>, slots: seq<Slot>, k: nat)
    requires |counts| == |slots| && k < |slots|
    ensures var q := Run(t, counts[..k], slots[..k]);
            Run(t, counts, slots).steps[k] == Advance(t, q, counts[k], slots[k]).steps[k]
  {
    RunPrefix(t, counts, slots, k + 1);
    assert counts[..k + 1][..k] == counts[..k] && slots[..k + 1][..k] == slots[..k];
    assert Run(t, counts, slots).steps[..k + 1][k] == Run(t, counts, slots).steps[k];
  }

  /** After a request with no answer, no later request of the call is sent. */
  lemma NothingAfterSilence(t: Terms, counts: seq<nat>, slots: seq<Slot>, i: nat, j: nat)
    requires |counts| == |slots| && i < j < |slots|
    requires Run(t, counts, slots).steps[i].Sent? && Run(t, counts, slots).steps[i].reply.Silent?
    ensures Run(t, counts, slots).steps[j].NotSent?
  {
    hide ReplyOf;
    StepAt(t, counts, slots, i);
    StepAt(t, counts, slots, j);
    assert counts[..i + 1][..i] == counts[..i] && slots[..i + 1][..i] == slots[..i];
    RunPrefix(t, counts[..j], slots[..j], i + 1);
    assert counts[..j][..i + 1] == counts[..i + 1] && slots[..j][..i + 1] == slots[..i + 1];
  }

  /** The requests that are sent are the first ones of the call. */
  lemma NothingAfterAGap(t: Terms, counts: seq<nat>, slots: seq<Slot>, i: nat, j: nat)
    requires |counts| == |slots| && i < j < |slots|
    requires Run(t, counts, slots).steps[i].NotSent?
    ensures Run(t, counts, slots).steps[j].NotSent?
  {
    hide ReplyOf;
    StepAt(t, counts, slots, i);
    StepAt(t, counts, slots, j);
    assert counts[..i + 1][..i] == counts[..i] && slots[..i + 1][..i] == slots[..i];
    RunPrefix(t, counts[..j], slots[..j], i + 1);
    assert counts[..j][..i + 1] == counts[..i + 1] && slots[..j][..i + 1] == slots[..i + 1];
  }

  /** A request that is sent may take the rest of the call, at most the time of one request, and has the reply that its
      own result gives. */
  lemma SentWith(t: Terms, counts: seq<nat>, slots: seq<Slot>, k: nat)
    requires |counts| == |slots| && k < |slots|
    ensures var s := Run(t, counts, slots).steps[k];
            s.Sent? ==>
              && (t.split ==> slots[k].before < t.deadline)
              && s.timeout == Timeout(t, slots[k].before)
              && s.reply == ReplyOf(slots[k].http, slots[k].elapsed, s.timeout, t.maxAnswerBytes, counts[k])
  {
    hide ReplyOf;
    StepAt(t, counts, slots, k);
  }

  /** A request that has an answer in time stops nothing, also when the answer is not valid: the next one goes, unless
      the deadline of the call has passed. */
  lemma AnAnswerStopsNothing(t: Terms, counts: seq<nat>, slots: seq<Slot>, k: nat)
    requires |counts| == |slots| && k + 1 < |slots|
    requires Run(t, counts, slots).steps[k].Sent? && !Run(t, counts, slots).steps[k].reply.Silent?
    ensures Run(t, counts, slots).steps[k + 1].NotSent? <==> t.split && slots[k + 1].before >= t.deadline
  {
    hide ReplyOf;
    StepAt(t, counts, slots, k);
    StepAt(t, counts, slots, k + 1);
    assert counts[..k + 1][..k] == counts[..k] && slots[..k + 1][..k] == slots[..k];
  }

  /** No request waits longer than one request may, and no request of a split call waits past the deadline. */
  lemma NoWaitPastTheDeadline(t: Terms, counts: seq<nat>, slots: seq<Slot>, k: nat)
    requires |counts| == |slots| && k < |slots|
    requires Run(t, counts, slots).steps[k].Sent?
    ensures var timeout := Run(t, counts, slots).steps[k].timeout;
            timeout <= t.timeout && (t.split ==> slots[k].before + timeout <= t.deadline)
  {
    hide ReplyOf;
    StepAt(t, counts, slots, k);
  }

  /** The answers of a request: one for each of its questions. */
  lemma AnswersMatchTheQuestions(t: Terms, counts: seq<nat>, slots: seq<Slot>, k: nat)
    requires |counts| == |slots| && k < |slots|
    ensures var s := Run(t, counts, slots).steps[k];
            s.Sent? && s.reply.Answers? ==> |s.reply.answers| == counts[k]
  {
    StepAt(t, counts, slots, k);
    if ParseAnswer(slots[k].http.body, counts[k]).Some? {
      ParsedInOrder(slots[k].http.body, counts[k]);
    }
  }

  predicate InTime(s: Step) {
    s.Sent? && !s.reply.Silent?
  }

  predicate WentSilent(s: Step) {
    s.Sent? && s.reply.Silent?
  }

  /** What the two flags mean: no request went wrong so far, and some request had no answer. */
  lemma {:induction false} FlagsMean(t: Terms, counts: seq<nat>, slots: seq<Slot>)
    requires |counts| == |slots|
    ensures var p := Run(t, counts, slots);
            && (!p.skip && !p.expired <==> forall i | 0 <= i < |slots| :: InTime(p.steps[i]))
            && (p.skip <==> exists i | 0 <= i < |slots| :: WentSilent(p.steps[i]))
  {
    hide ReplyOf;
    if slots != [] {
      var last := |slots| - 1;
      FlagsMean(t, counts[..last], slots[..last]);
      var before, p := Run(t, counts[..last], slots[..last]), Run(t, counts, slots);
      AdvanceAppends(t, before, counts[last], slots[last]);
      assert forall i | 0 <= i < last :: p.steps[i] == p.steps[..last][i] == before.steps[i];
      assert WentSilent(p.steps[last]) ==> p.skip;
      assert InTime(p.steps[last]) <==> !p.skip && !p.expired;
    }
  }

  /** Where the deadline cuts a call: at the first request that is not answered in time, when the deadline has
      passed. */
  predicate CutAt(t: Terms, counts: seq<nat>, slots: seq<Slot>, k: nat)
    requires |counts| == |slots| && k < |slots|
  {
    var steps := Run(t, counts, slots).steps;
    && t.split
    && (forall i | 0 <= i < k :: InTime(steps[i]))
    && (if steps[k].NotSent? then slots[k].before >= t.deadline
        else steps[k].reply.Silent? && slots[k].after >= t.deadline)
  }

  lemma CutAtLast(t: Terms, counts: seq<nat>, slots: seq<Slot>)
    requires |counts| == |slots| && slots != []
    ensures var last := |slots| - 1;
            CutAt(t, counts, slots, last) <==>
              !Run(t, counts[..last], slots[..last]).expired && Run(t, counts, slots).expired
  {
    hide ReplyOf;
    var last := |slots| - 1;
    var before, p := Run(t, counts[..last], slots[..last]), Run(t, counts, slots);
    FlagsMean(t, counts[..last], slots[..last]);
    AdvanceAppends(t, before, counts[last], slots[last]);
    assert forall i | 0 <= i < last :: p.steps[i] == p.steps[..last][i] == before.steps[i];
    assert (forall i | 0 <= i < last :: InTime(p.steps[i])) <==> !before.skip && !before.expired;
  }

  lemma CutAtBefore(t: Terms, counts: seq<nat>, slots: seq<Slot>, k: nat)
    requires |counts| == |slots| && k < |slots| - 1
    ensures var last := |slots| - 1;
            CutAt(t, counts, slots, k) <==> CutAt(t, counts[..last], slots[..last], k)
  {
    hide Advance, InTime;
    var last := |slots| - 1;
    var before, p := Run(t, counts[..last], slots[..last]), Run(t, counts, slots);
    AdvanceAppends(t, before, counts[last], slots[last]);
    assert forall i | 0 <= i < last :: p.steps[i] == p.steps[..last][i] == before.steps[i];
  }

  /** The deadline cuts a call exactly when the call goes in several requests, all requests before some request had
      an answer in time, and that request was due, or was still without an answer, at the deadline. */
  lemma {:induction false} CutByTheDeadline(t: Terms, counts: seq<nat>, slots: seq<Slot>)
    requires |counts| == |slots|
    ensures Run(t, counts, slots).expired <==> exists k | 0 <= k < |slots| :: CutAt(t, counts, slots, k)
  {
    if slots != [] {
      hide CutAt, Advance;
      var last := |slots| - 1;
      CutByTheDeadline(t, counts[..last], slots[..last]);
      forall k | 0 <= k < last ensures CutAt(t, counts, slots, k) <==> CutAt(t, counts[..last], slots[..last], k) {
        CutAtBefore(t, counts, slots, k);
      }
      CutAtLast(t, counts, slots);
      AdvanceAppends(t, Run(t, counts[..last], slots[..last]), counts[last], slots[last]);
    }
  }
}
