/** The client of the policy decision point (class PdpClient of src/access_pdp.hpp and src/access_pdp.cpp): the state of
    its cache, the batched decisions and the question of a use. The transport, the metadata and the clock are free:
    every method holds for all that they can do. Times are milliseconds. */
module AccessPdp {
  import opened Common
  import opened AccessResource
  import opened PdpModel
  import opened PdpPlan
  import opened PdpCache
  import opened PdpCall

  /** A time of the clock, or the end of all times. */
  datatype Deadline = At(t: nat) | Never

  predicate Reached(d: Deadline, now: nat) {
    d.At? && d.t <= now
  }

  function Earlier(a: Deadline, b: Deadline): Deadline {
    if a.Never? || (b.At? && b.t < a.t) then b else a
  }

  predicate NoneBefore(d: Deadline, order: seq<Entry>) {
    forall e | e in order :: d.At? && d.t <= e.expires
  }

  datatype Options = Options(bounds: Bounds, timeout: nat, batchTimeout: nat, maxAnswerBytes: nat, maxEvaluations: nat)

  /** The PDP gave this answer to this question; the client read it at this time. */
  datatype Event = Event(use: bool, subject: string, question: Question, answer: Answer, at: nat)

  /** The answers to a use that the client keeps: true with no unit taken, or an exceeded budget. */
  predicate UseKeepable(a: Answer) {
    (a.decision && a.usageUnits == Some(0)) || (!a.decision && a.reason == BudgetExceeded && a.retryAfter.Some?)
  }

  /** The request asked this question, and its reply has this answer at the place of the question. */
  predicate Gave(req: Request, ev: Event, maxAnswerBytes: nat) {
    var reply := ReplyTo(req, maxAnswerBytes);
    && req.use == ev.use && req.subject == ev.subject && req.started + req.elapsed <= ev.at
    && reply.Answers? && |reply.answers| == |req.asked|
    && exists k | 0 <= k < |req.asked| :: req.asked[k] == ev.question && reply.answers[k] == ev.answer
  }

  predicate Given(sent: seq<Request>, ev: Event, maxAnswerBytes: nat) {
    exists req | req in sent :: Gave(req, ev, maxAnswerBytes)
  }

  /** Every answer of the log came in a reply to a request that was sent. */
  predicate Sourced(sent: seq<Request>, log: seq<Event>, maxAnswerBytes: nat) {
    forall ev | ev in log :: Given(sent, ev, maxAnswerBytes)
  }

  lemma SourcedAfterSending(sent: seq<Request>, req: Request, log: seq<Event>, maxAnswerBytes: nat)
    requires Sourced(sent, log, maxAnswerBytes)
    ensures Sourced(sent + [req], log, maxAnswerBytes)
  {
    hide Gave;
    forall ev | ev in log ensures Given(sent + [req], ev, maxAnswerBytes) {
      assert Given(sent, ev, maxAnswerBytes);
      var was :| was in sent && Gave(was, ev, maxAnswerBytes);
      assert was in sent + [req];
    }
  }

  lemma SourcedAfterAnswer(sent: seq<Request>, log: seq<Event>, req: Request, ev: Event, maxAnswerBytes: nat)
    requires Sourced(sent, log, maxAnswerBytes) && req in sent && Gave(req, ev, maxAnswerBytes)
    ensures Sourced(sent, log + [ev], maxAnswerBytes)
  {
    hide Gave;
    assert Given(sent, ev, maxAnswerBytes);
  }

  predicate Backs(ev: Event, e: Entry, ttl: nat) {
    && e.key == KeyOf(ev.use, ev.subject, ev.question)
    && e.answer == ev.answer
    && TookNothing(ev.answer)
    && (ev.use ==> UseKeepable(ev.answer))
    && e.expires == ev.at + Life(ttl, ev.answer)
    && Sized(e)
  }

  predicate Backed(log: seq<Event>, e: Entry, ttl: nat) {
    exists ev | ev in log :: Backs(ev, e, ttl)
  }

  /** The event is an answer to this very question, in the same kind of question, less than the life of the answer
      ago; it took no units. */
  predicate StillGood(ev: Event, ttl: nat, use: bool, subject: string, q: Question, now: nat) {
    && ev.use == use && ev.subject == subject && ev.question == q
    && ev.at <= now < ev.at + Life(ttl, ev.answer)
    && TookNothing(ev.answer)
    && (use ==> UseKeepable(ev.answer))
  }

  /** What a decision from the cache says: the PDP gave this very answer to this very question. */
  predicate FromEarlierAnswer(log: seq<Event>, ttl: nat, use: bool, subject: string, q: Question, answer: Answer,
                              now: nat) {
    exists ev | ev in log :: ev.answer == answer && StillGood(ev, ttl, use, subject, q, now)
  }

  /** The decision says what the answer says, field by field. */
  predicate Says(d: Decision, a: Answer, source: Source) {
    && d.allowed == a.decision && d.reason == a.reason && d.retryAfter == a.retryAfter
    && d.limits == a.limits && d.usageUnits == a.usageUnits && d.unknownSubject == a.unknownSubject
    && d.source == source && !d.failed && !d.usageInvalid && d.ceilingRefused == ""
  }

  /** The decision is a failure, which says nothing about the subject. */
  predicate IsFailure(d: Decision) {
    && !d.allowed && d.failed && d.source == FromError && d.reason == NoReason && d.retryAfter == None
    && d.limits == [] && d.usageUnits == None && !d.unknownSubject && !d.usageInvalid && d.ceilingRefused == ""
  }

  /** A kept answer to a use: the decision is the answer, and its time to wait is the least whole number of seconds
      after which the answer is not used any more. */
  predicate KeptUse(ev: Event, ttl: nat, subject: string, q: Question, out: Decision, now: nat) {
    && StillGood(ev, ttl, true, subject, q, now)
    && Says(out.(retryAfter := ev.answer.retryAfter), ev.answer, FromCache)
    && (out.retryAfter.Some? <==> ev.answer.retryAfter.Some?)
    && (out.retryAfter.Some? ==>
          var left := ev.at + Life(ttl, ev.answer) - now;
          && 1 <= out.retryAfter.value <= ev.answer.retryAfter.value
          && (out.retryAfter.value - 1) * 1000 < left <= out.retryAfter.value * 1000)
  }

  /** What one call of Decide met: the kept answers, the questions to ask, their requests and what each of them met. */
  datatype CallRecord = CallRecord(now: nat, cached: seq<Option<Answer>>, ask: Chunk, published: Option<Published>,
                                   chunks: seq<Chunk>, terms: Terms, slots: seq<Slot>)

  function Counts(chunks: seq<Chunk>): (c: seq<nat>)
    ensures |c| == |chunks|
  {
    seq(|chunks|, i requires 0 <= i < |chunks| => |chunks[i]|)
  }

  predicate Increasing(chunk: Chunk) {
    forall i, j | 0 <= i < j < |chunk| :: chunk[i] < chunk[j]
  }

  /** The decision of question k of a request. */
  function StepDecision(s: Step, k: nat): Decision {
    if s.Sent? && s.reply.Answers? && k < |s.reply.answers| then DecisionFrom(s.reply.answers[k], FromPdp) else FAILED
  }

  /** The questions to ask are those without a kept answer, in order. */
  predicate Split(cached: seq<Option<Answer>>, ask: Chunk) {
    && Increasing(ask)
    && (forall k | 0 <= k < |ask| :: ask[k] < |cached| && cached[ask[k]].None?)
    && (forall i | 0 <= i < |cached| && cached[i].None? :: i in ask)
  }

  /** The requests of a call are a shortest plan within the published maxima, and there is none without usable
      metadata. */
  ghost predicate Planned(r: CallRecord, quote: Quote, most: nat, subject: string, questions: seq<Question>) {
    && |r.cached| == |questions|
    && Split(r.cached, r.ask)
    && |r.slots| == |r.chunks|
    && (r.terms.split <==> |r.chunks| > 1)
    && (r.ask == [] || r.published.None? ==> r.chunks == [])
    && (r.ask != [] && r.published.Some? ==>
          && PublishedPlan(quote, subject, questions, most, r.published.value, r.ask, r.chunks)
          && forall other | PublishedPlan(quote, subject, questions, most, r.published.value, r.ask, other) ::
               |r.chunks| <= |other|)
  }

  /** The decisions of a call. When the deadline cuts it, every one is a failure. Else a kept answer gives its decision,
      every other question has the answer at its own place in its own request, and without usable metadata it fails. */
  ghost predicate DecidedBy(r: CallRecord, out: seq<Decision>)
    requires |r.slots| == |r.chunks|
  {
    var p := Run(r.terms, Counts(r.chunks), r.slots);
    && |out| == |r.cached|
    && (p.expired ==> forall i | 0 <= i < |out| :: out[i] == FAILED)
    && (!p.expired ==>
          && (forall i | 0 <= i < |out| && r.cached[i].Some? :: out[i] == DecisionFrom(r.cached[i].value, FromCache))
          && (r.ask != [] && r.published.None? ==> forall i | i in r.ask :: i < |out| && out[i] == FAILED)
          && PlacedSoFar(r.chunks, p.steps, out))
  }

  /** Each request has its decisions at the places of its questions. */
  ghost predicate PlacedSoFar(chunks: seq<Chunk>, steps: seq<Step>, out: seq<Decision>) {
    && |steps| <= |chunks|
    && forall c, k | 0 <= c < |steps| && 0 <= k < |chunks[c]| ::
         chunks[c][k] < |out| && out[chunks[c][k]] == StepDecision(steps[c], k)
  }

  ghost predicate KeptPlaced(cached: seq<Option<Answer>>, out: seq<Decision>) {
    && |out| == |cached|
    && forall i | 0 <= i < |out| && cached[i].Some? :: out[i] == DecisionFrom(cached[i].value, FromCache)
  }

  lemma ChunkBefore(ask: Chunk, chunks: seq<Chunk>, d: nat, c: nat)
    requires Increasing(ask) && Flatten(chunks) == ask && d < c < |chunks|
    ensures forall k, m | 0 <= k < |chunks[d]| && 0 <= m < |chunks[c]| :: chunks[d][k] < chunks[c][m]
  {
    ChunkPlace(ask, chunks, c);
    ChunkPlace(ask, chunks, d);
    FlattenPrefix(chunks[..c], d + 1);
    assert chunks[..c][..d + 1] == chunks[..d + 1];
  }

  /** The questions of different requests are different, and none of them has a kept answer. */
  lemma ChunksApart(cached: seq<Option<Answer>>, ask: Chunk, chunks: seq<Chunk>, c: nat)
    requires Split(cached, ask) && Flatten(chunks) == ask && c < |chunks|
    ensures Increasing(chunks[c])
    ensures forall k | 0 <= k < |chunks[c]| :: chunks[c][k] < |cached| && cached[chunks[c][k]].None?
    ensures forall d, k | 0 <= d < c && 0 <= k < |chunks[d]| :: chunks[d][k] !in chunks[c]
  {
    hide Flatten;
    ChunkPlace(ask, chunks, c);
    forall d, k | 0 <= d < c && 0 <= k < |chunks[d]| ensures chunks[d][k] !in chunks[c] {
      ChunkBefore(ask, chunks, d, c);
    }
  }

  lemma PlaceNext(cached: seq<Option<Answer>>, ask: Chunk, chunks: seq<Chunk>, steps: seq<Step>, s: Step,
                  out0: seq<Decision>, out: seq<Decision>)
    requires Split(cached, ask) && Flatten(chunks) == ask && |steps| < |chunks|
    requires PlacedSoFar(chunks, steps, out0) && KeptPlaced(cached, out0)
    requires Places(out0, out, chunks[|steps|], s)
    ensures PlacedSoFar(chunks, steps + [s], out) && KeptPlaced(cached, out)
  {
    hide StepDecision, Flatten, Split;
    ChunksApart(cached, ask, chunks, |steps|);
    var all := steps + [s];
    forall c, k | 0 <= c < |all| && 0 <= k < |chunks[c]|
      ensures chunks[c][k] < |out| && out[chunks[c][k]] == StepDecision(all[c], k)
    {
      assert c < |steps| ==> all[c] == steps[c];
    }
  }

  lemma {:induction false} KeysCount(order: seq<Entry>)
    requires DistinctKeys(order)
    ensures |set e | e in order :: e.key| == |order|
  {
    if order != [] {
      var last := |order| - 1;
      KeysCount(order[..last]);
      var keys := set e | e in order[..last] :: e.key;
      assert (set e | e in order :: e.key) == keys + {order[last].key} by {
        assert forall e :: e in order <==> e in order[..last] || e == order[last];
      }
      assert order[last].key !in keys;
    }
  }

  /** The list, the map and the running byte count say the same. */
  ghost predicate Agree(order: seq<Entry>, index: map<string, Entry>, usedBytes: int) {
    && DistinctKeys(order)
    && index.Keys == (set e | e in order :: e.key)
    && (forall e | e in order :: index[e.key] == e)
    && usedBytes == TotalBytes(order)
  }

  lemma AgreeAfterErase(order: seq<Entry>, index: map<string, Entry>, usedBytes: int, i: nat)
    requires Agree(order, index, usedBytes) && i < |order|
    ensures Agree(Without(order, order[i].key), index - {order[i].key}, usedBytes - order[i].bytes)
    ensures Without(order, order[i].key) == order[..i] + order[i + 1..]
  {
    hide Filter, TotalBytes;
    WithoutOne(order, i);
    BytesOfOne(order, i);
    FilterMembers(order, OfOtherKey(order[i].key));
    FilterKeepsDistinct(order, OfOtherKey(order[i].key));
  }

  lemma AgreeAfterPush(order: seq<Entry>, index: map<string, Entry>, usedBytes: int, e: Entry)
    requires Agree(order, index, usedBytes) && forall d | d in order :: d.key != e.key
    ensures Agree(order + [e], index[e.key := e], usedBytes + e.bytes)
  {
    AppendKeepsDistinct(order, e);
    TotalBytesConcat(order, [e]);
    assert TotalBytes([e]) == e.bytes;
  }

  lemma AgreeKey(order: seq<Entry>, index: map<string, Entry>, usedBytes: int, key: string) returns (i: nat)
    requires Agree(order, index, usedBytes) && key in index
    ensures i < |order| && order[i] == index[key] && order[i].key == key
  {
    i :| i < |order| && order[i].key == key;
  }

  lemma AgreeAbsent(order: seq<Entry>, index: map<string, Entry>, usedBytes: int, key: string)
    requires Agree(order, index, usedBytes) && key !in index
    ensures Without(order, key) == order
  {
    FilterAll(order, OfOtherKey(key));
  }

  lemma AgreeSize(order: seq<Entry>, index: map<string, Entry>, usedBytes: int)
    requires Agree(order, index, usedBytes)
    ensures |index| == |order| && usedBytes == TotalBytes(order) && DistinctKeys(order)
  {
    KeysCount(order);
    assert |index| == |index.Keys|;
  }

  /** The decisions of a request are at the places of its questions, and no other decision changes. */
  predicate Places(out0: seq<Decision>, out: seq<Decision>, chunk: Chunk, s: Step) {
    && |out| == |out0|
    && (forall k | 0 <= k < |chunk| :: chunk[k] < |out| && out[chunk[k]] == StepDecision(s, k))
    && (forall i | 0 <= i < |out0| && i !in chunk :: out[i] == out0[i])
  }

  /** The answers of a request, each with its own question. */
  function EventsOf(subject: string, asked: seq<Question>, answers: seq<Answer>, at: nat): (events: seq<Event>)
    requires |asked| == |answers|
    ensures |events| == |asked|
  {
    seq(|asked|, k requires 0 <= k < |asked| => Event(false, subject, asked[k], answers[k], at))
  }

  /** The answer to a use is in the log, and in the cache exactly when it may be kept. */
  predicate UseNoted(b: Bounds, log0: seq<Event>, order0: seq<Entry>, log: seq<Event>, order: seq<Entry>,
                     subject: string, q: Question, answer: Answer, at: nat) {
    && log == log0 + [Event(true, subject, q, answer, at)]
    && order ==
       if KeepsAUse(answer) then Stored(b, order0, KeyOf(true, subject, q), answer, at) else order0
  }

  /** An answer to a use is kept when it says that no unit was taken, or when it has a wait. */
  predicate KeepsAUse(answer: Answer) {
    answer.usageUnits == Some(0) || answer.retryAfter.Some?
  }

  lemma KeepableMeaning(answer: Answer)
    requires ProtocolAnswer(answer)
    ensures UseKeepable(UseAnswerOf(answer)) <==> KeepsAUse(answer)
  {
    hide InNameOrder;
  }

  /** The cache has an answer to a key that is not expired. */
  predicate HasKept(ttl: nat, index: map<string, Entry>, key: string, now: nat) {
    ttl > 0 && key in index && index[key].expires > now
  }

  /** An answer that was stored is found while its life lasts, and no longer. */
  lemma StoredIsFound(b: Bounds, order: seq<Entry>, key: string, answer: Answer, at: nat, index: map<string, Entry>,
                      usedBytes: int, now: nat)
    requires DistinctKeys(order) && b.ttl > 0 && TookNothing(answer)
    requires EntryBytes(key, answer) <= b.bytes && b.entries > 0
    requires Agree(Stored(b, order, key, answer, at), index, usedBytes)
    ensures HasKept(b.ttl, index, key, now) <==>
              now < at + b.ttl && (answer.retryAfter.Some? ==> now < at + answer.retryAfter.value * 1000)
    ensures HasKept(b.ttl, index, key, now) ==> index[key].answer == answer
  {
    hide Stored, EntryBytes, Sized, TotalBytes;
    LifeIsTheLower(b.ttl, answer);
    StoreAnswersTheKey(b, order, key, answer, at);
    var after := Stored(b, order, key, answer, at);
    assert after[|after| - 1] in after;
  }

  /** The cache after the answers of a request, one store after the other at one time. */
  function StoredAll(b: Bounds, order: seq<Entry>, subject: string, questions: seq<Question>, answers: seq<Answer>,
                     at: nat): seq<Entry>
    requires |questions| == |answers|
  {
    if answers == [] then order
    else
      var last := |answers| - 1;
      Stored(b, StoredAll(b, order, subject, questions[..last], answers[..last], at),
             KeyOf(false, subject, questions[last]), answers[last], at)
  }

  /** What a call leaves behind: the requests that were sent, the answers that came, the kept answers, and what the
      looks at the metadata gave. */
  datatype Trail = Trail(sent: seq<Request>, log: seq<Event>, order: seq<Entry>, metadata: seq<Option<Published>>)

  /** One request of a batch: it is in the history exactly when it was sent, its answers are in the log and go to the
      cache exactly when they came in time and are valid. */
  function Taken(b: Bounds, t: Trail, subject: string, asked: seq<Question>, s: Step, slot: Slot): Trail {
    match s
    case NotSent => t
    case Sent(timeout, reply) =>
      var sent := t.sent + [Request(false, subject, asked, timeout, slot.started, slot.http, slot.elapsed)];
      if reply.Answers? && |reply.answers| == |asked| then
        t.(sent := sent, log := t.log + EventsOf(subject, asked, reply.answers, slot.read),
           order := StoredAll(b, t.order, subject, asked, reply.answers, slot.read))
      else t.(sent := sent)
  }

  /** The requests of a batch in their order. */
  function TrailOf(b: Bounds, t: Trail, subject: string, batches: seq<seq<Question>>, steps: seq<Step>,
                   slots: seq<Slot>): Trail
    requires |batches| == |steps| == |slots|
  {
    if steps == [] then t
    else
      var last := |steps| - 1;
      Taken(b, TrailOf(b, t, subject, batches[..last], steps[..last], slots[..last]), subject, batches[last],
            steps[last], slots[last])
  }

  predicate AllInBatch(chunks: seq<Chunk>, questions: seq<Question>) {
    forall c | 0 <= c < |chunks| :: InBatch(chunks[c], questions)
  }

  function Batches(questions: seq<Question>, chunks: seq<Chunk>): (batches: seq<seq<Question>>)
    requires AllInBatch(chunks, questions)
    ensures |batches| == |chunks|
  {
    seq(|chunks|, c requires 0 <= c < |chunks| => Asked(questions, chunks[c]))
  }

  /** The times of one request, between two times of the clock. */
  predicate Timed(from: nat, slot: Slot, to: nat) {
    from <= slot.before <= slot.started && slot.started + slot.elapsed <= slot.read <= slot.after <= to
  }

  /** The requests go one after the other, between two times of the clock. */
  predicate InTurn(from: nat, slots: seq<Slot>, to: nat) {
    if slots == [] then from <= to
    else
      var last := |slots| - 1;
      InTurn(from, slots[..last], slots[last].before) && Timed(slots[last].before, slots[last], to)
  }

  lemma NobodyInTurn(from: nat, to: nat)
    requires from <= to
    ensures InTurn(from, [], to)
  {
  }

  lemma InTurnNext(from: nat, slots: seq<Slot>, to: nat, slot: Slot, later: nat)
    requires InTurn(from, slots, to) && Timed(to, slot, later)
    ensures InTurn(from, slots + [slot], later)
  {
    assert (slots + [slot])[..|slots|] == slots;
    assert slots != [] ==> Timed(slots[|slots| - 1].before, slots[|slots| - 1], slot.before);
  }

  lemma TrailStart(b: Bounds, t: Trail, subject: string, batches: seq<seq<Question>>)
    ensures TrailOf(b, t, subject, batches[..0], [], []) == t
  {
  }

  lemma TrailNext(b: Bounds, t: Trail, subject: string, batches: seq<seq<Question>>, steps: seq<Step>,
                  slots: seq<Slot>, s: Step, slot: Slot)
    requires |steps| == |slots| < |batches|
    ensures var j := |slots|;
            TrailOf(b, t, subject, batches[..j + 1], steps + [s], slots + [slot])
            == Taken(b, TrailOf(b, t, subject, batches[..j], steps, slots), subject, batches[j], s, slot)
  {
    hide Taken;
    var j := |slots|;
    assert batches[..j + 1][..j] == batches[..j];
    assert (steps + [s])[..j] == steps && (slots + [slot])[..j] == slots;
  }

  lemma TrailGrows(b: Bounds, t: Trail, subject: string, asked: seq<Question>, s: Step, slot: Slot)
    ensures var after := Taken(b, t, subject, asked, s, slot);
            t.sent <= after.sent && t.log <= after.log && after.metadata == t.metadata
  {
  }

  /** The trail after one more look at the metadata. */
  function Looked(t: Trail, looks: bool, published: Option<Published>): Trail {
    t.(metadata := t.metadata + if looks then [published] else [])
  }

  /** What a call of Decide leaves: one look at the metadata when there is something to ask, and then what its requests
      leave, one after the other. */
  ghost predicate Left(b: Bounds, before: Trail, after: Trail, subject: string, questions: seq<Question>,
                       r: CallRecord) {
    && |r.slots| == |r.chunks| && AllInBatch(r.chunks, questions)
    && after == TrailOf(b, Looked(before, r.ask != [], r.published), subject, Batches(questions, r.chunks),
                        Run(r.terms, Counts(r.chunks), r.slots).steps, r.slots)
  }

  /** The request asked these questions together and has these answers. */
  predicate AsksFor(req: Request, subject: string, asked: seq<Question>, answers: seq<Answer>, maxAnswerBytes: nat,
                    at: nat) {
    && !req.use && req.subject == subject && req.asked == asked && req.started + req.elapsed <= at
    && ReplyTo(req, maxAnswerBytes) == Answers(answers) && |answers| == |asked|
  }

  lemma AskedOne(req: Request, subject: string, asked: seq<Question>, answers: seq<Answer>, maxAnswerBytes: nat,
                 at: nat, k: nat)
    requires AsksFor(req, subject, asked, answers, maxAnswerBytes, at) && k < |asked|
    ensures k < |answers| && Gave(req, Event(false, subject, asked[k], answers[k], at), maxAnswerBytes)
  {
    hide ReplyOf;
  }

  lemma EventsNext(subject: string, asked: seq<Question>, answers: seq<Answer>, at: nat, k: nat)
    requires |asked| == |answers| && k < |asked|
    ensures EventsOf(subject, asked[..k + 1], answers[..k + 1], at)
            == EventsOf(subject, asked[..k], answers[..k], at) + [Event(false, subject, asked[k], answers[k], at)]
  {
  }

  lemma NothingStored(b: Bounds, order: seq<Entry>, subject: string, questions: seq<Question>, answers: seq<Answer>,
                      at: nat)
    requires |questions| == |answers|
    ensures StoredAll(b, order, subject, questions[..0], answers[..0], at) == order
  {
  }

  lemma StoredNext(b: Bounds, order: seq<Entry>, subject: string, questions: seq<Question>, answers: seq<Answer>,
                   at: nat, k: nat)
    requires |questions| == |answers| && k < |answers|
    ensures StoredAll(b, order, subject, questions[..k + 1], answers[..k + 1], at) ==
            Stored(b, StoredAll(b, order, subject, questions[..k], answers[..k], at),
                   KeyOf(false, subject, questions[k]), answers[k], at)
  {
    hide Stored, KeyOf;
    assert questions[..k + 1][..k] == questions[..k] && answers[..k + 1][..k] == answers[..k];
  }

  class PdpClient {
    const options: Options
    const quote: Quote
    /** The kept answers, the oldest first, and the same answers by their key. */
    var order: seq<Entry>
    var index: map<string, Entry>
    var usedBytes: int
    /** No kept answer expires before this time. */
    var sweepAfter: Deadline
    var clock: nat
    /** Every answer that the PDP gave. */
    ghost var log: seq<Event>
    /** Every request that was sent, written by Post alone, and what each look at the metadata gave. */
    ghost var sent: seq<Request>
    ghost var metadata: seq<Option<Published>>

    ghost predicate Consistent()
      reads this
    {
      Agree(order, index, usedBytes)
    }

    ghost predicate ValidCache()
      reads this
    {
      Consistent() && WithinBounds(options.bounds, order) && NoneBefore(sweepAfter, order)
    }

    ghost predicate Valid()
      reads this
    {
      && ValidCache()
      && (forall e | e in order :: Backed(log, e, options.bounds.ttl))
      && (forall ev | ev in log :: Clean(ev.subject, ev.question) && ev.at <= clock && ProtocolAnswer(ev.answer))
      && Sourced(sent, log, options.maxAnswerBytes)
    }

    ghost function State(): (t: Trail)
      reads this
    {
      Trail(sent, log, order, metadata)
    }

    constructor (options: Options, quote: Quote)
      ensures this.options == options && this.quote == quote
      ensures Valid() && order == [] && log == [] && sent == [] && metadata == []
    {
      this.options := options;
      this.quote := quote;
      order, index, usedBytes, sweepAfter := [], map[], 0, At(0);
      clock, log, sent, metadata := 0, [], [], [];
    }

    method CacheErase(e: Entry, ghost i: nat)
      requires Consistent() && i < |order| && order[i] == e
      modifies `order, `index, `usedBytes
      ensures Consistent()
      ensures order == Without(old(order), e.key) == old(order)[..i] + old(order)[i + 1..]
    {
      hide Agree, Filter;
      AgreeAfterErase(order, index, usedBytes, i);
      usedBytes := usedBytes - e.bytes;
      index := index - {e.key};
      order := Without(order, e.key);
    }

    method IsFull(bytes: nat) returns (full: bool)
      requires Consistent()
      ensures full == Full(options.bounds, order, bytes)
    {
      hide Agree;
      AgreeSize(order, index, usedBytes);
      full := |index| >= options.bounds.entries || usedBytes + bytes > options.bounds.bytes;
    }

    /** Removes the expired answers, and finds the next time that an answer expires. */
    method Sweep(now: nat)
      requires Consistent()
      modifies `order, `index, `usedBytes, `sweepAfter
      ensures Consistent() && NoneBefore(sweepAfter, order)
      ensures order == Live(old(order), now)
      ensures forall e :: e in order <==> e in old(order) && now < e.expires
    {
      hide Agree, Filter;
      FilterMembers(order, ValidAfter(now));
      ghost var before, k := order, 0;
      var i, next := 0, Never;
      FilterStart(before, now);
      while i < |order|
        invariant Consistent()
        invariant i <= |order| && k <= |before|
        invariant order[i..] == before[k..]
        invariant order[..i] == Live(before[..k], now)
        invariant NoneBefore(next, order[..i])
        decreases |order| - i
      {
        var e := order[i];
        ghost var was := order;
        assert before[k..][0] == e;
        FilterNext(before, k, now);
        if e.expires <= now {
          CacheErase(e, i);
          assert order == was[..i] + was[i + 1..];
          assert order[..i] == was[..i] && order[i..] == was[i..][1..] == before[k + 1..];
        } else {
          next := Earlier(next, At(e.expires));
          assert order[..i + 1] == order[..i] + [e];
          i := i + 1;
          assert order[i..] == was[i - 1..][1..] == before[k + 1..];
        }
        k := k + 1;
      }
      assert order[..i] == order && before[..k] == before;
      sweepAfter := next;
    }

    method EvictOldest(bytes: nat)
      requires Consistent()
      modifies `order, `index, `usedBytes
      ensures Consistent()
      ensures order == Evicted(options.bounds, old(order), bytes)
      ensures forall e | e in order :: e in old(order)
    {
      hide Agree, Full;
      var full := IsFull(bytes);
      while full && order != []
        invariant Consistent()
        invariant full == Full(options.bounds, order, bytes)
        invariant Evicted(options.bounds, order, bytes) == Evicted(options.bounds, old(order), bytes)
        invariant forall e | e in order :: e in old(order)
        decreases |order|
      {
        ghost var was := order;
        CacheErase(order[0], 0);
        assert order == was[..0] + was[1..] == was[1..];
        full := IsFull(bytes);
      }
    }

    method Push(e: Entry)
      requires Consistent() && (forall d | d in order :: d.key != e.key)
      modifies `order, `index, `usedBytes
      ensures Consistent()
      ensures order == old(order) + [e]
    {
      hide Agree;
      AgreeAfterPush(order, index, usedBytes, e);
      order := order + [e];
      index := index[e.key := e];
      usedBytes := usedBytes + e.bytes;
    }

    /** Makes room for an entry of `bytes`: the expired answers go when the cache is full and the watermark is
        reached, then the oldest ones. */
    method MakeRoom(bytes: nat, now: nat)
      requires Consistent() && NoneBefore(sweepAfter, order)
      modifies `order, `index, `usedBytes, `sweepAfter
      ensures Consistent() && NoneBefore(sweepAfter, order)
      ensures var from := if Full(options.bounds, old(order), bytes) then Live(old(order), now) else old(order);
              order == Evicted(options.bounds, from, bytes)
    {
      hide Agree, Filter, Full, Evicted;
      var full := IsFull(bytes);
      if full {
        if Reached(sweepAfter, now) {
          Sweep(now);
        } else {
          FilterAll(order, ValidAfter(now));
        }
      }
      EvictOldest(bytes);
    }

    /** Keeps an answer. The cache looks for the expired answers only after its watermark, and it is left as if it
        looked for them each time that it is full. */
    method CacheStore(key: string, answer: Answer, now: nat)
      requires ValidCache()
      modifies `order, `index, `usedBytes, `sweepAfter
      ensures ValidCache()
      ensures order == Stored(options.bounds, old(order), key, answer, now)
    {
      hide Agree, Filter, EntryBytes, Full, Evicted, WithinBounds, DistinctKeys, TotalBytes, Live;
      ghost var before := order;
      AgreeSize(order, index, usedBytes);
      StoreKeepsTheBounds(options.bounds, before, key, answer, now);
      if options.bounds.ttl > 0 && !(answer.usageUnits.Some? && answer.usageUnits.value > 0) {
        var life := options.bounds.ttl;
        if answer.retryAfter.Some? && answer.retryAfter.value <= options.bounds.ttl / 1000 {
          life := Min(life, answer.retryAfter.value * 1000);
        }
        var expires := now + life;
        var bytes := EntryBytes(key, answer);
        FilterMembers(before, OfOtherKey(key));
        EraseKey(key);
        // An entry that is larger than the whole budget is not kept.
        if bytes <= options.bounds.bytes && options.bounds.entries > 0 {
          MakeRoom(bytes, now);
          SurvivorFacts(options.bounds, before, key, bytes, now);
          Push(Entry(key, answer, expires, bytes));
          sweepAfter := Earlier(sweepAfter, At(expires));
        }
      }
    }

    method EraseKey(key: string)
      requires Consistent()
      modifies `order, `index, `usedBytes
      ensures Consistent()
      ensures order == Without(old(order), key)
    {
      hide Agree;
      if key in index {
        ghost var i := AgreeKey(order, index, usedBytes, key);
        CacheErase(index[key], i);
      } else {
        AgreeAbsent(order, index, usedBytes, key);
      }
    }

    // ---- what the client meets: the clock, the transport and the metadata ----

    method Tick() returns (t: nat)
      requires Valid()
      modifies `clock
      ensures Valid() && old(clock) <= clock == t
    {
      hide Agree, WithinBounds, NoneBefore, Clean, Backed, ProtocolAnswer, Sourced;
      t :| clock <= t;
      clock := t;
    }

    /** One request: any result, after any time. The history keeps the request and what came of it. */
    method Post(use: bool, subject: string, asked: seq<Question>, timeout: nat)
      returns (http: Http, elapsed: nat, ghost started: nat)
      requires Valid()
      modifies `clock, `sent
      ensures Valid()
      ensures sent == old(sent) + [Request(use, subject, asked, timeout, started, http, elapsed)]
      ensures old(clock) <= started && started + elapsed == clock
    {
      hide Agree, WithinBounds, NoneBefore, Clean, Backed, ProtocolAnswer, Sourced;
      var from := Tick();
      http := *;
      var to := Tick();
      elapsed, started := to - from, from;
      ghost var req := Request(use, subject, asked, timeout, started, http, elapsed);
      SourcedAfterSending(sent, req, log, options.maxAnswerBytes);
      sent := sent + [req];
    }

    /** What the metadata publishes (whole numbers from 1), or no usable metadata. */
    method EnsureMetadata() returns (published: Option<Published>)
      requires Valid()
      modifies `clock, `metadata
      ensures Valid() && old(clock) <= clock
      ensures metadata == old(metadata) + [published]
      ensures published.Some? ==>
                && FromOne(published.value.items) && FromOne(published.value.bytes)
                && FromOne(published.value.usageSeconds)
    {
      hide Agree, WithinBounds, NoneBefore, Clean, Backed, ProtocolAnswer, Sourced;
      var t: nat :| clock <= t;
      clock := t;
      var usable: bool, found: Published := *, *;
      published := None;
      if usable && found.items != Some(0) && found.bytes != Some(0) && found.usageSeconds != Some(0) {
        published := Some(found);
      }
      metadata := metadata + [published];
    }

    // ---- the kept answers ----

    /** The kept answer to a question, when it is not expired. */
    method Kept(use: bool, subject: string, q: Question, now: nat)
      returns (answer: Option<Answer>, expires: nat, ghost ev: Event)
      requires Valid() && Clean(subject, q) && clock <= now
      ensures answer.Some? <==> HasKept(options.bounds.ttl, index, KeyOf(use, subject, q), now)
      ensures answer.Some? ==> answer.value == index[KeyOf(use, subject, q)].answer
      ensures answer.Some? ==>
                && ev in log && ev.answer == answer.value && ProtocolAnswer(ev.answer)
                && StillGood(ev, options.bounds.ttl, use, subject, q, now)
                && now < expires == ev.at + Life(options.bounds.ttl, ev.answer)
    {
      hide KeyOf, Clean, Life, TotalBytes, DistinctKeys, ProtocolAnswer;
      answer, expires := None, 0;
      ev := Event(use, subject, q, PLAIN_FALSE, now);
      var key := KeyOf(use, subject, q);
      if options.bounds.ttl > 0 && key in index && index[key].expires > now {
        var e := index[key];
        ghost var i := AgreeKey(order, index, usedBytes, key);
        assert e in order;
        ev :| ev in log && Backs(ev, e, options.bounds.ttl);
        KeyInjective(ev.use, ev.subject, ev.question, use, subject, q);
        answer, expires := Some(e.answer), e.expires;
      }
    }

    /** Notes an answer of the PDP, and keeps it when `keep` says so. */
    method Note(use: bool, subject: string, q: Question, answer: Answer, at: nat, keep: bool, ghost req: Request)
      requires Valid() && Clean(subject, q) && at <= clock && ProtocolAnswer(answer)
      requires req in sent && Gave(req, Event(use, subject, q, answer, at), options.maxAnswerBytes)
      requires use && keep ==> UseKeepable(answer)
      modifies `order, `index, `usedBytes, `sweepAfter, `log
      ensures Valid()
      ensures log == old(log) + [Event(use, subject, q, answer, at)]
      ensures order ==
                if keep then Stored(options.bounds, old(order), KeyOf(use, subject, q), answer, at) else old(order)
    {
      hide KeyOf, Clean, Life, Agree, Stored, EntryBytes, WithinBounds, ProtocolAnswer, Gave, Sourced, Sized;
      ghost var before, ev := order, Event(use, subject, q, answer, at);
      SourcedAfterAnswer(sent, log, req, ev, options.maxAnswerBytes);
      var key := KeyOf(use, subject, q);
      AgreeSize(order, index, usedBytes);
      if keep {
        StoreKeepsTheBounds(options.bounds, order, key, answer, at);
        EntriesAreSized(key, answer, at + Life(options.bounds.ttl, answer));
        CacheStore(key, answer, at);
      }
      log := log + [ev];
      forall e | e in order ensures Backed(log, e, options.bounds.ttl) {
        if e in before {
          ghost var was :| was in old(log) && Backs(was, e, options.bounds.ttl);
          assert was in log;
        } else {
          assert ev in log && Backs(ev, e, options.bounds.ttl);
        }
      }
    }

    // ---- one request of a batch ----

    /** Sets the decisions of a request and keeps its answers. */
    method SetAnswers(subject: string, questions: seq<Question>, chunk: Chunk, answers: seq<Answer>, at: nat,
                      ghost req: Request, out0: seq<Decision>)
      returns (out: seq<Decision>)
      requires Valid() && |out0| == |questions| && InBatch(chunk, questions) && Increasing(chunk)
      requires |answers| == |chunk| && at <= clock && forall a | a in answers :: ProtocolAnswer(a)
      requires forall q | q in questions :: Clean(subject, q)
      requires req in sent && AsksFor(req, subject, Asked(questions, chunk), answers, options.maxAnswerBytes, at)
      modifies `order, `index, `usedBytes, `sweepAfter, `log
      ensures Valid()
      ensures Places(out0, out, chunk, Sent(req.timeout, Answers(answers)))
      ensures log == old(log) + EventsOf(subject, Asked(questions, chunk), answers, at)
      ensures order == StoredAll(options.bounds, old(order), subject, Asked(questions, chunk), answers, at)
    {
      hide PdpClient.Valid, Clean, ProtocolAnswer, StoredAll, Stored, KeyOf, AsksFor, Gave, EventsOf;
      out := out0;
      NothingStored(options.bounds, order, subject, Asked(questions, chunk), answers, at);
      for k := 0 to |chunk|
        invariant Valid()
        invariant log == old(log) + EventsOf(subject, Asked(questions, chunk)[..k], answers[..k], at)
        invariant |out| == |out0|
        invariant forall j | 0 <= j < k :: out[chunk[j]] == DecisionFrom(answers[j], FromPdp)
        invariant forall i | 0 <= i < |out0| && i !in chunk :: out[i] == out0[i]
        invariant order ==
                    StoredAll(options.bounds, old(order), subject, Asked(questions, chunk)[..k], answers[..k], at)
      {
        out := out[chunk[k] := DecisionFrom(answers[k], FromPdp)];
        StoredNext(options.bounds, old(order), subject, Asked(questions, chunk), answers, at, k);
        EventsNext(subject, Asked(questions, chunk), answers, at, k);
        AskedOne(req, subject, Asked(questions, chunk), answers, options.maxAnswerBytes, at, k);
        Note(false, subject, questions[chunk[k]], answers[k], at, true, req);
      }
      assert Asked(questions, chunk)[..|chunk|] == Asked(questions, chunk) && answers[..|chunk|] == answers;
    }

    /** Fail closed: every question of the request is false. */
    static method FailChunk(chunk: Chunk, ghost s: Step, out0: seq<Decision>) returns (out: seq<Decision>)
      requires forall k | 0 <= k < |chunk| :: chunk[k] < |out0|
      requires s.Sent? ==> !s.reply.Answers?
      ensures Places(out0, out, chunk, s)
    {
      out := out0;
      for k := 0 to |chunk|
        invariant |out| == |out0|
        invariant forall j | 0 <= j < k :: out[chunk[j]] == FAILED
        invariant forall i | 0 <= i < |out0| && i !in chunk :: out[i] == out0[i]
      {
        out := out[chunk[k] := FAILED];
      }
    }

    /** Sends the questions `chunk` in one request and sets their decisions. `ok` is false when the PDP gave no answer
        in time. */
    method AskChunk(subject: string, questions: seq<Question>, chunk: Chunk, timeout: nat, out0: seq<Decision>)
      returns (out: seq<Decision>, ok: bool, ghost slot: Slot)
      requires Valid() && |out0| == |questions| && InBatch(chunk, questions) && Increasing(chunk)
      requires forall q | q in questions :: Clean(subject, q)
      modifies `order, `index, `usedBytes, `sweepAfter, `clock, `log, `sent
      ensures Valid() && Timed(old(clock), slot, clock) && slot.before == old(clock) && slot.after == clock
      ensures var reply := ReplyOf(slot.http, slot.elapsed, timeout, options.maxAnswerBytes, |chunk|);
              && ok == !reply.Silent?
              && Places(out0, out, chunk, Sent(timeout, reply))
              && State() ==
                   Taken(options.bounds, old(State()), subject, Asked(questions, chunk), Sent(timeout, reply), slot)
    {
      hide PdpClient.Valid, Clean, ParseAnswer, Places, ProtocolAnswer, StoredAll, EventsOf;
      ghost var before := clock;
      var asked := Asked(questions, chunk);
      var http, took;
      ghost var started;
      http, took, started := Post(false, subject, asked, timeout);
      slot := Slot(before, started, http, took, clock, clock);
      var reply := ReplyOf(http, took, timeout, options.maxAnswerBytes, |chunk|);
      if reply.Answers? {
        ParsedInOrder(http.body, |chunk|);
        var at := Tick();
        slot := slot.(read := at, after := at);
        ghost var req := sent[|sent| - 1];
        out := SetAnswers(subject, questions, chunk, reply.answers, at, req, out0);
      } else {
        out := FailChunk(chunk, Sent(timeout, reply), out0);
      }
      ok := !http.error && took <= timeout;
    }

    // ---- a batch ----

    /** Looks for the kept answers. */
    method LookUp(subject: string, questions: seq<Question>, now: nat)
      returns (out: seq<Decision>, ask: Chunk, ghost cached: seq<Option<Answer>>)
      requires Valid() && now == clock && forall q | q in questions :: Clean(subject, q)
      ensures |cached| == |questions| && Split(cached, ask) && KeptPlaced(cached, out)
      ensures forall i | 0 <= i < |questions| && cached[i].Some? ::
                FromEarlierAnswer(log, options.bounds.ttl, false, subject, questions[i], cached[i].value, now)
      ensures forall i | 0 <= i < |questions| :: cached[i].Some? <==>
                HasKept(options.bounds.ttl, index, KeyOf(false, subject, questions[i]), now)
    {
      hide Agree, WithinBounds, NoneBefore, Clean, Backed, KeyOf, StillGood, Split, ProtocolAnswer, HasKept;
      SplitStart();
      out, ask, cached := [], [], [];
      for i := 0 to |questions|
        invariant |cached| == |out| == i && Split(cached, ask) && KeptPlaced(cached, out)
        invariant forall k | 0 <= k < i && cached[k].Some? ::
                    FromEarlierAnswer(log, options.bounds.ttl, false, subject, questions[k], cached[k].value, now)
        invariant forall k | 0 <= k < i :: cached[k].Some? <==>
                    HasKept(options.bounds.ttl, index, KeyOf(false, subject, questions[k]), now)
      {
        var kept, _, ev := Kept(false, subject, questions[i], now);
        SplitNext(cached, ask, kept);
        cached := cached + [kept];
        if kept.Some? {
          out := out + [DecisionFrom(kept.value, FromCache)];
        } else {
          out := out + [FAILED.(failed := false)];
          ask := ask + [i];
        }
      }
    }

    /** One request of a call, unless the call already stopped or its deadline has passed. */
    method SendOne(subject: string, questions: seq<Question>, chunk: Chunk, ghost terms: Terms, ghost p: Progress,
                   split: bool, deadline: nat, skip0: bool, expired0: bool, out0: seq<Decision>)
      returns (out: seq<Decision>, skip: bool, expired: bool, ghost slot: Slot)
      requires Valid() && |out0| == |questions| && InBatch(chunk, questions) && Increasing(chunk)
      requires forall q | q in questions :: Clean(subject, q)
      requires terms == Terms(split, deadline, options.timeout, options.maxAnswerBytes)
      requires p.skip == skip0 && p.expired == expired0
      modifies `order, `index, `usedBytes, `sweepAfter, `clock, `log, `sent
      ensures Valid() && Timed(old(clock), slot, clock)
      ensures var next := Advance(terms, p, |chunk|, slot);
              && next.skip == skip && next.expired == expired
              && Places(out0, out, chunk, next.steps[|p.steps|])
              && State() ==
                   Taken(options.bounds, old(State()), subject, Asked(questions, chunk), next.steps[|p.steps|], slot)
    {
      hide PdpClient.Valid, Clean, Places, ReplyOf, StoredAll, EventsOf;
      skip, expired := skip0, expired0;
      slot := Slot(clock, clock, Http(true, 0, 0, Null), 0, clock, clock);
      if skip || expired {
        out := FailChunk(chunk, NotSent, out0);
      } else {
        var now := Tick();
        if split && now >= deadline {
          expired := true;
          slot := Slot(now, now, Http(true, 0, 0, Null), 0, now, now);
          out := FailChunk(chunk, NotSent, out0);
        } else {
          var timeout := if split && deadline - now < options.timeout then deadline - now else options.timeout;
          var ok;
          out, ok, slot := AskChunk(subject, questions, chunk, timeout, out0);
          var after := Tick();
          slot := slot.(after := after);
          if !ok {
            skip := true;
            expired := split && after >= deadline;
          }
        }
      }
    }

    /** Sends the requests of a call in their order. */
    method SendChunks(subject: string, questions: seq<Question>, ghost cached: seq<Option<Answer>>, ask: Chunk,
                      chunks: seq<Chunk>, out0: seq<Decision>)
      returns (out: seq<Decision>, expired: bool, ghost terms: Terms, ghost slots: seq<Slot>)
      requires Valid() && |cached| == |questions| && Split(cached, ask) && KeptPlaced(cached, out0)
      requires Flatten(chunks) == ask
      requires forall q | q in questions :: Clean(subject, q)
      modifies `order, `index, `usedBytes, `sweepAfter, `clock, `log, `sent
      ensures Valid()
      ensures |slots| == |chunks| && (terms.split <==> |chunks| > 1)
      ensures terms.timeout == options.timeout && terms.maxAnswerBytes == options.maxAnswerBytes
      ensures old(clock) + options.batchTimeout <= terms.deadline <= clock + options.batchTimeout
      ensures InTurn(terms.deadline - options.batchTimeout, slots, clock)
      ensures var p := Run(terms, Counts(chunks), slots);
              && p.expired == expired && PlacedSoFar(chunks, p.steps, out) && KeptPlaced(cached, out)
              && AllInBatch(chunks, questions)
              && State() == TrailOf(options.bounds, old(State()), subject, Batches(questions, chunks), p.steps, slots)
    {
      hide PdpClient.Valid, Clean, Split, KeptPlaced, Places, Flatten, Advance, Taken, InTurn, Batches, Progressed,
        Increasing, Run;
      var split := |chunks| > 1;
      var started := Tick();
      var deadline := started + options.batchTimeout;
      terms := Terms(split, deadline, options.timeout, options.maxAnswerBytes);
      out, slots := out0, [];
      ChunksInBatch(cached, questions, ask, chunks);
      var skip := false;
      expired := false;
      ghost var p, batches := START, Batches(questions, chunks);
      NobodyInTurn(started, clock);
      ProgressStart(options.bounds, State(), subject, batches, cached, ask, chunks, terms, out);
      for j := 0 to |chunks|
        invariant Valid() && |slots| == j && InTurn(started, slots, clock) && started <= clock
        invariant p.skip == skip && p.expired == expired && |p.steps| == j && |out| == |questions|
        invariant Progressed(options.bounds, old(State()), State(), subject, batches, cached, ask, chunks, terms, p,
                             slots, out)
      {
        ghost var before, time, was := out, clock, State();
        ChunksApart(cached, ask, chunks, j);
        BatchAt(questions, chunks, j);
        ghost var slot;
        out, skip, expired, slot :=
          SendOne(subject, questions, chunks[j], terms, p, split, deadline, skip, expired, out);
        InTurnNext(started, slots, time, slot, clock);
        p := ProgressNext(options.bounds, old(State()), was, State(), subject, batches, cached, ask, chunks, terms, p,
                          slots, slot, before, out);
        slots := slots + [slot];
      }
      ProgressEnd(options.bounds, old(State()), State(), subject, batches, cached, ask, chunks, terms, p, slots, out);
    }

    /** The decisions of the subject for the questions, in their order. */
    method Decide(subject: string, questions: seq<Question>) returns (out: seq<Decision>, ghost r: CallRecord)
      requires Valid() && forall q | q in questions :: Clean(subject, q)
      modifies this
      ensures Valid()
      ensures Planned(r, quote, options.maxEvaluations, subject, questions)
      ensures DecidedBy(r, out)
      ensures Left(options.bounds, old(State()), State(), subject, questions, r)
      ensures forall i | 0 <= i < |questions| && r.cached[i].Some? ::
                FromEarlierAnswer(old(log), options.bounds.ttl, false, subject, questions[i], r.cached[i].value, r.now)
      ensures forall i | 0 <= i < |questions| :: r.cached[i].Some? <==>
                HasKept(options.bounds.ttl, old(index), KeyOf(false, subject, questions[i]), r.now)
      ensures r.terms.timeout == options.timeout && r.terms.maxAnswerBytes == options.maxAnswerBytes
      ensures old(clock) <= r.now <= clock
      ensures r.now + options.batchTimeout <= r.terms.deadline <= clock + options.batchTimeout
      ensures InTurn(r.terms.deadline - options.batchTimeout, r.slots, clock)
    {
      hide PdpClient.Valid, Clean, Split, PlacedSoFar, Run, FromEarlierAnswer, Flatten, PublishedPlan, ProtocolAnswer,
        KeyOf, HasKept, TrailOf, Batches, InTurn, AllInBatch, KeptPlaced, Places, DecidedBy, Increasing;
      var now := Tick();
      var ask;
      ghost var cached;
      out, ask, cached := LookUp(subject, questions, now);
      KeptLength(cached, out);
      var chunks := [];
      ghost var published := None;
      if ask != [] {
        SplitInBatch(cached, ask, questions);
        var known := EnsureMetadata();
        published := known;
        if known.None? {
          ghost var before := out;
          out := FailChunk(ask, NotSent, out);
          ghost var terms := Terms(false, clock + options.batchTimeout, options.timeout, options.maxAnswerBytes);
          r := CallRecord(now, cached, ask, None, [], terms, []);
          NothingSent(r, before, out);
          NothingLeft(options.bounds, old(State()), subject, questions, r, clock);
          return;
        }
        chunks := PlanChunks(quote, subject, questions, options.maxEvaluations, known.value, ask);
        PlanFlattens(quote, subject, questions, options.maxEvaluations, known.value, ask, chunks);
      } else {
        FlattenNothing();
      }
      assert State() == Looked(old(State()), ask != [], published);
      var expired;
      ghost var terms, slots;
      out, expired, terms, slots := SendChunks(subject, questions, cached, ask, chunks, out);
      r := CallRecord(now, cached, ask, published, chunks, terms, slots);
      Assembled(r, out);
      if expired {
        // The deadline cut the call: no decision of the call is given, also the answered ones and the kept ones.
        out := seq(|out|, _ => FAILED);
      }
    }

    // ---- the question of a use ----

    /** The question of one use. One request at most, which is never sent again: the history has it exactly when the
        question is about a node, no answer to it is kept and the metadata is usable. */
    method DecideUse(subject: string, q: Question)
      returns (out: Decision, ghost now: nat, ghost published: Option<Published>)
      requires Valid() && Clean(subject, q)
      modifies this
      ensures Valid() && old(clock) <= now <= clock
      ensures var asks := q.how == OnNode && !HasKept(options.bounds.ttl, old(index), KeyOf(true, subject, q), now);
              UseLeft(options, Looked(old(State()), asks, published), State(), subject, q, out,
                      if asks then published else None)
      ensures if q.how == OnNode && HasKept(options.bounds.ttl, old(index), KeyOf(true, subject, q), now) then
                exists ev | ev in old(log) :: KeptUse(ev, options.bounds.ttl, subject, q, out, now)
              else sent == old(sent) ==> out == FAILED
    {
      hide PdpClient.Valid, Clean, KeyOf, HasKept, UseLeft, KeptUse, StillGood, ProtocolAnswer;
      out, now, published := FAILED, clock, None;
      NoUseLeft(options, old(State()), subject, q);
      if q.how == OnNode {
        var at := Tick();
        now := at;
        var kept, expires, ev := Kept(true, subject, q, at);
        if kept.Some? {
          out := DecisionFrom(kept.value, FromCache);
          if out.retryAfter.Some? {
            // The time that remains, never more than the first retry_after.
            var left := expires - at;
            out := out.(retryAfter := Some(Max(1, Min(out.retryAfter.value, (left + 999) / 1000))));
          }
          WaitIsExact(ev, options.bounds.ttl, subject, q, out, at);
        } else {
          var known := EnsureMetadata();
          published := known;
          if known.Some? {
            out := SendUse(subject, q, known.value);
          }
        }
      }
    }

    /** Sends the question of a use once. */
    method SendUse(subject: string, q: Question, published: Published) returns (out: Decision)
      requires Valid() && Clean(subject, q)
      modifies `order, `index, `usedBytes, `sweepAfter, `clock, `log, `sent
      ensures Valid() && old(clock) <= clock
      ensures UseLeft(options, old(State()), State(), subject, q, out, Some(published))
      ensures sent != old(sent)
    {
      hide PdpClient.Valid, Clean, ParseAnswer, ProtocolAnswer, UseDecision, Stored, KeyOf;
      var http, took;
      ghost var started;
      var timeout := UsageTimeout(options.timeout, published.usageSeconds);
      http, took, started := Post(true, subject, [q], timeout);
      ghost var req := sent[|sent| - 1];
      var reply := ReplyOf(http, took, timeout, options.maxAnswerBytes, 1);
      out := UseDecision(reply);
      if reply.Answers? {
        ParsedInOrder(http.body, 1);
        NoteUse(subject, q, reply.answers, req);
      }
    }

    method NoteUse(subject: string, q: Question, answers: seq<Answer>, ghost req: Request)
      requires Valid() && Clean(subject, q) && |answers| == 1 && ProtocolAnswer(answers[0])
      requires req in sent && req.use && req.subject == subject && req.asked == [q]
      requires ReplyTo(req, options.maxAnswerBytes) == Answers(answers) && req.started + req.elapsed <= clock
      modifies `order, `index, `usedBytes, `sweepAfter, `clock, `log
      ensures Valid() && old(clock) <= clock
      ensures exists at :: UseNoted(options.bounds, old(log), old(order), log, order, subject, q, answers[0], at)
    {
      hide PdpClient.Valid, Clean, ReplyTo, ProtocolAnswer, Stored, KeyOf;
      var used := UseAnswerOf(answers[0]);
      var keepable := UseKeepable(used);
      KeepableMeaning(answers[0]);
      var at := Tick();
      assert req.asked[0] == q;
      Note(true, subject, q, answers[0], at, keepable, req);
      assert UseNoted(options.bounds, old(log), old(order), log, order, subject, q, answers[0], at);
    }
  }

  /** What the question of a use leaves. Sent: one request with this one question, which waits longer than the PDP takes
      for a use; its reply gives the decision, and an answer goes to the log and, when it may, to the cache. Not sent:
      nothing. */
  ghost predicate UseLeft(options: Options, before: Trail, after: Trail, subject: string, q: Question, out: Decision,
                          published: Option<Published>) {
    if published.Some? then
      && after.metadata == before.metadata
      && |after.sent| == |before.sent| + 1 && before.sent <= after.sent
      && var req := after.sent[|before.sent|];
         && req.use && req.subject == subject && req.asked == [q]
         && WaitsForAUse(req.timeout, options.timeout, published.value.usageSeconds)
         && var reply := ReplyTo(req, options.maxAnswerBytes);
            && out == UseDecision(reply)
            && if reply.Answers? then
                 && |reply.answers| == 1 && ProtocolAnswer(reply.answers[0])
                 && exists at :: UseNoted(options.bounds, before.log, before.order, after.log, after.order, subject, q,
                                          reply.answers[0], at)
               else after.log == before.log && after.order == before.order
    else after == before
  }

  /** The wait is the least one that is not below the option and is longer, by a second, than the published time. */
  predicate WaitsForAUse(wait: nat, timeout: nat, usageSeconds: Option<nat>) {
    && timeout <= wait
    && (usageSeconds.Some? ==> (usageSeconds.value + 1) * 1000 <= wait)
    && (wait == timeout || (usageSeconds.Some? && wait == (usageSeconds.value + 1) * 1000))
  }

  /** Longer than the longest time that the PDP takes for a use, when it publishes one. */
  function UsageTimeout(timeout: nat, usageMaxSeconds: Option<nat>): nat {
    if usageMaxSeconds.None? then timeout else Max(timeout, (usageMaxSeconds.value + 1) * 1000)
  }

  lemma WaitIsExact(ev: Event, ttl: nat, subject: string, q: Question, out: Decision, now: nat)
    requires StillGood(ev, ttl, true, subject, q, now) && ProtocolAnswer(ev.answer)
    requires var left := ev.at + Life(ttl, ev.answer) - now;
             out == DecisionFrom(ev.answer, FromCache).(retryAfter :=
               if ev.answer.retryAfter.None? then None
               else Some(Max(1, Min(ev.answer.retryAfter.value, (left + 999) / 1000))))
    ensures KeptUse(ev, ttl, subject, q, out, now)
  {
    LifeIsTheLower(ttl, ev.answer);
  }

  /** The decision for the reply to a use: a true answer without its units is false, and the caller can see that it was
      not a plain denial. */
  function UseDecision(reply: Reply): Decision {
    if reply.Answers? && reply.answers != [] then
      var a := reply.answers[0];
      DecisionFrom(UseAnswerOf(a), FromPdp).(usageInvalid := a.decision && !UseAnswerOf(a).decision)
    else FAILED
  }

  lemma NoUseLeft(options: Options, t: Trail, subject: string, q: Question)
    ensures forall out :: UseLeft(options, Looked(t, false, None), t, subject, q, out, None)
    ensures forall out :: UseLeft(options, Looked(t, true, None), Looked(t, true, None), subject, q, out, None)
  {
  }

  lemma SplitInBatch(cached: seq<Option<Answer>>, ask: Chunk, questions: seq<Question>)
    requires Split(cached, ask) && |cached| == |questions|
    ensures InBatch(ask, questions)
  {
  }

  lemma PlanFlattens(quote: Quote, subject: string, questions: seq<Question>, most: nat, published: Published,
                     ask: Chunk, chunks: seq<Chunk>)
    requires PublishedPlan(quote, subject, questions, most, published, ask, chunks)
    ensures Flatten(chunks) == ask
  {
  }

  lemma ChunksInBatch(cached: seq<Option<Answer>>, questions: seq<Question>, ask: Chunk, chunks: seq<Chunk>)
    requires |cached| == |questions| && Split(cached, ask) && Flatten(chunks) == ask
    ensures AllInBatch(chunks, questions)
  {
    hide Flatten, Split;
    forall c | 0 <= c < |chunks| ensures InBatch(chunks[c], questions) {
      ChunksApart(cached, ask, chunks, c);
    }
  }

  lemma BatchAt(questions: seq<Question>, chunks: seq<Chunk>, c: nat)
    requires AllInBatch(chunks, questions) && c < |chunks|
    ensures InBatch(chunks[c], questions) && Batches(questions, chunks)[c] == Asked(questions, chunks[c])
  {
  }

  lemma NothingLeft(b: Bounds, t: Trail, subject: string, questions: seq<Question>, r: CallRecord, now: nat)
    requires r.chunks == [] && r.slots == []
    ensures Left(b, t, Looked(t, r.ask != [], r.published), subject, questions, r) && InTurn(now, r.slots, now)
  {
  }

  lemma FlattenNothing()
    ensures Flatten([]) == []
  {
  }

  lemma Assembled(r: CallRecord, out: seq<Decision>)
    requires |r.slots| == |r.chunks| && (r.ask != [] ==> r.published.Some?) && KeptPlaced(r.cached, out)
    requires PlacedSoFar(r.chunks, Run(r.terms, Counts(r.chunks), r.slots).steps, out)
    ensures DecidedBy(r, if Run(r.terms, Counts(r.chunks), r.slots).expired then seq(|out|, _ => FAILED) else out)
  {
    hide Run;
  }

  /** Without usable metadata nothing is sent, and every question that has no kept answer fails. */
  lemma NothingSent(r: CallRecord, out0: seq<Decision>, out: seq<Decision>)
    requires KeptPlaced(r.cached, out0) && Split(r.cached, r.ask) && Places(out0, out, r.ask, NotSent)
    requires r.published.None? && r.chunks == [] && r.slots == []
    ensures DecidedBy(r, out)
  {
    assert Run(r.terms, Counts(r.chunks), r.slots) == START;
    forall i | i in r.ask ensures i < |out| && out[i] == FAILED {
      var k :| 0 <= k < |r.ask| && r.ask[k] == i;
    }
    forall i | 0 <= i < |out| && r.cached[i].Some? ensures out[i] == out0[i] {
      assert i !in r.ask;
    }
  }

  lemma RunStart(t: Terms, chunks: seq<Chunk>, out: seq<Decision>)
    ensures Run(t, Counts(chunks)[..0], []) == START && PlacedSoFar(chunks, [], out)
  {
  }

  lemma RunNext(t: Terms, chunks: seq<Chunk>, slots: seq<Slot>, slot: Slot)
    requires |slots| < |chunks|
    ensures var j := |slots|;
            Run(t, Counts(chunks)[..j + 1], slots + [slot]) ==
              Advance(t, Run(t, Counts(chunks)[..j], slots), |chunks[j]|, slot)
  {
    hide Advance;
    var j := |slots|;
    assert (slots + [slot])[..j] == slots;
    assert Counts(chunks)[..j + 1][..j] == Counts(chunks)[..j];
  }

  lemma KeptLength(cached: seq<Option<Answer>>, out: seq<Decision>)
    requires KeptPlaced(cached, out)
    ensures |out| == |cached|
  {
  }

  /** The loop over the requests of a call: the run so far, its decisions and what it left. */
  ghost predicate Progressed(b: Bounds, t0: Trail, t: Trail, subject: string, batches: seq<seq<Question>>,
                             cached: seq<Option<Answer>>, ask: Chunk, chunks: seq<Chunk>, terms: Terms, p: Progress,
                             slots: seq<Slot>, out: seq<Decision>) {
    && Split(cached, ask) && Flatten(chunks) == ask && |slots| <= |chunks| == |batches|
    && p == Run(terms, Counts(chunks)[..|slots|], slots)
    && t == TrailOf(b, t0, subject, batches[..|slots|], p.steps, slots)
    && PlacedSoFar(chunks, p.steps, out) && KeptPlaced(cached, out)
  }

  lemma ProgressStart(b: Bounds, t: Trail, subject: string, batches: seq<seq<Question>>, cached: seq<Option<Answer>>,
                      ask: Chunk, chunks: seq<Chunk>, terms: Terms, out: seq<Decision>)
    requires Split(cached, ask) && Flatten(chunks) == ask && |chunks| == |batches| && KeptPlaced(cached, out)
    ensures Progressed(b, t, t, subject, batches, cached, ask, chunks, terms, START, [], out)
    ensures |out| == |cached|
  {
    hide Split, Flatten;
    RunStart(terms, chunks, out);
    TrailStart(b, t, subject, batches);
  }

  lemma ProgressNext(b: Bounds, t0: Trail, t: Trail, after: Trail, subject: string, batches: seq<seq<Question>>,
                     cached: seq<Option<Answer>>, ask: Chunk, chunks: seq<Chunk>, terms: Terms, p: Progress,
                     slots: seq<Slot>, slot: Slot, out0: seq<Decision>, out: seq<Decision>)
    returns (next: Progress)
    requires Progressed(b, t0, t, subject, batches, cached, ask, chunks, terms, p, slots, out0)
    requires |slots| < |chunks| && |p.steps| == |slots|
    requires Places(out0, out, chunks[|slots|], Advance(terms, p, |chunks[|slots|]|, slot).steps[|slots|])
    requires after == Taken(b, t, subject, batches[|slots|],
                            Advance(terms, p, |chunks[|slots|]|, slot).steps[|slots|], slot)
    ensures next == Advance(terms, p, |chunks[|slots|]|, slot) && |next.steps| == |slots| + 1
    ensures Progressed(b, t0, after, subject, batches, cached, ask, chunks, terms, next, slots + [slot], out)
    ensures |out| == |cached|
  {
    hide Split, Flatten, PlacedSoFar, KeptPlaced, Places, Taken, TrailOf, Advance, Run;
    var j := |slots|;
    next := Advance(terms, p, |chunks[j]|, slot);
    RunNext(terms, chunks, slots, slot);
    AdvanceAppends(terms, p, |chunks[j]|, slot);
    assert next.steps == p.steps + [next.steps[j]];
    TrailNext(b, t0, subject, batches, p.steps, slots, next.steps[j], slot);
    PlaceNext(cached, ask, chunks, p.steps, next.steps[j], out0, out);
    KeptLength(cached, out);
  }

  lemma ProgressEnd(b: Bounds, t0: Trail, t: Trail, subject: string, batches: seq<seq<Question>>,
                    cached: seq<Option<Answer>>, ask: Chunk, chunks: seq<Chunk>, terms: Terms, p: Progress,
                    slots: seq<Slot>, out: seq<Decision>)
    requires Progressed(b, t0, t, subject, batches, cached, ask, chunks, terms, p, slots, out) && |slots| == |chunks|
    ensures p == Run(terms, Counts(chunks), slots) && PlacedSoFar(chunks, p.steps, out) && KeptPlaced(cached, out)
    ensures t == TrailOf(b, t0, subject, batches, p.steps, slots)
  {
    hide Split, Flatten, PlacedSoFar, KeptPlaced, TrailOf, Run;
    assert Counts(chunks)[..|chunks|] == Counts(chunks) && batches[..|chunks|] == batches;
  }

  lemma SplitStart()
    ensures Split([], [])
  {
  }

  lemma SplitNext(cached: seq<Option<Answer>>, ask: Chunk, kept: Option<Answer>)
    requires Split(cached, ask)
    ensures Split(cached + [kept], if kept.Some? then ask else ask + [|cached|])
  {
    if kept.None? {
      var more := ask + [|cached|];
      assert forall i | i in ask :: i in more;
      assert more[|ask|] == |cached|;
    }
  }

  lemma FilterStart(order: seq<Entry>, now: nat)
    ensures Live(order[..0], now) == [] && order[0..] == order
  {
  }

  lemma FilterNext(order: seq<Entry>, k: nat, now: nat)
    requires k < |order|
    ensures Live(order[..k + 1], now) == Live(order[..k], now) + (if order[k].expires > now then [order[k]] else [])
  {
    assert order[..k + 1][..k] == order[..k];
  }
}
