/** The split of a batch of questions into requests (PdpClient::plan_chunks, src/access_pdp.cpp): the greedy plan
    keeps both limits of the PDP on the bytes that request_body really writes, and no plan needs fewer requests. */
module PdpPlan {
  import opened Common
  import opened AccessResource
  import opened PdpModel

  // ---- the text of a batch request ----

  /** The JSON text of a string: the escapes are those of the JSON writer, a parameter of the model. */
  type Quote = string -> string

  /** A member of an object; the names of the members need no escapes. */
  function MemberJson(name: string, value: string): string {
    "\"" + name + "\":" + value
  }

  function EntityJson(quote: Quote, kind: string, id: string): string {
    "{" + MemberJson("type", quote(kind)) + "," + MemberJson("id", quote(id)) + "}"
  }

  function AncestorsJson(quote: Quote, nodes: seq<Node>): string {
    if nodes == [] then ""
    else if |nodes| == 1 then EntityJson(quote, nodes[0].kind, nodes[0].id)
    else EntityJson(quote, nodes[0].kind, nodes[0].id) + "," + AncestorsJson(quote, nodes[1..])
  }

  function ResourceJson(quote: Quote, r: Resource): string {
    if r.ancestors == [] then EntityJson(quote, r.kind, r.id)
    else
      "{" + MemberJson("type", quote(r.kind)) + "," + MemberJson("id", quote(r.id)) + ","
      + MemberJson("properties", "{" + MemberJson("ancestors", "[" + AncestorsJson(quote, r.ancestors) + "]") + "}")
      + "}"
  }

  /** One item of "evaluations". */
  function ItemJson(quote: Quote, q: Question): string {
    "{" + MemberJson("action", "{" + MemberJson("name", quote(q.action)) + "}")
    + "," + MemberJson("resource", ResourceJson(quote, q.resource))
    + (if q.how == Subtree then "," + MemberJson("context", "{" + MemberJson("match", "\"subtree\"") + "}") else "")
    + "}"
  }

  function WithCommas(items: seq<string>): string {
    if items == [] then ""
    else if |items| == 1 then items[0]
    else WithCommas(items[..|items| - 1]) + "," + items[|items| - 1]
  }

  function Items(quote: Quote, questions: seq<Question>): seq<string> {
    seq(|questions|, i requires 0 <= i < |questions| => ItemJson(quote, questions[i]))
  }

  /** The body of a request with a number of questions other than one. */
  function BatchBody(quote: Quote, subject: string, questions: seq<Question>): string {
    "{" + MemberJson("subject", EntityJson(quote, "user", subject)) + ","
    + MemberJson("evaluations", "[" + WithCommas(Items(quote, questions)) + "]") + "}"
  }

  // ---- the limits ----

  /** The largest number of questions of one request, and the largest body (0: no limit). */
  datatype Limits = Limits(maxItems: nat, maxBytes: nat)

  /** What the metadata publishes: the maxima of a batch and the longest time for a use; metadata_number accepts only
      whole numbers from 1. */
  datatype Published = Published(items: Option<nat>, bytes: Option<nat>, usageSeconds: Option<nat>)

  predicate FromOne(n: Option<nat>) {
    n.Some? ==> n.value >= 1
  }

  function LimitsOf(maxEvaluations: nat, published: Published): (l: Limits) {
    var items := Max(maxEvaluations, 1);
    Limits(if published.items.Some? then Min(items, published.items.value) else items,
           if published.bytes.Some? then published.bytes.value else 0)
  }

  /** The questions of one request, as indices into the batch. */
  type Chunk = seq<nat>

  predicate InBatch(chunk: Chunk, questions: seq<Question>) {
    forall k | 0 <= k < |chunk| :: chunk[k] < |questions|
  }

  function Asked(questions: seq<Question>, chunk: Chunk): (asked: seq<Question>)
    requires InBatch(chunk, questions)
    ensures |asked| == |chunk|
  {
    seq(|chunk|, k requires 0 <= k < |chunk| => questions[chunk[k]])
  }

  /** One request may carry this chunk. The limit of the bytes is for a batch: a question that is too large alone
      still goes, and the PDP refuses it. */
  predicate Fits(quote: Quote, subject: string, questions: seq<Question>, limits: Limits, chunk: Chunk)
  {
    && InBatch(chunk, questions)
    && 1 <= |chunk| <= limits.maxItems
    && (|chunk| >= 2 && limits.maxBytes > 0 ==> |BatchBody(quote, subject, Asked(questions, chunk))| <= limits.maxBytes)
  }

  function Flatten(chunks: seq<Chunk>): Chunk {
    if chunks == [] then [] else Flatten(chunks[..|chunks| - 1]) + chunks[|chunks| - 1]
  }

  /** A plan: an in-order partition of the questions to ask, each part within the limits. */
  predicate Plan(quote: Quote, subject: string, questions: seq<Question>, limits: Limits, ask: Chunk,
                 chunks: seq<Chunk>) {
    && InBatch(ask, questions)
    && Flatten(chunks) == ask
    && forall c | c in chunks :: Fits(quote, subject, questions, limits, c)
  }

  /** A request for this chunk keeps the option of the client and both published maxima, the bytes from two questions
      on. */
  predicate WithinPublished(quote: Quote, subject: string, questions: seq<Question>, maxEvaluations: nat,
                            published: Published, chunk: Chunk) {
    && InBatch(chunk, questions)
    && 1 <= |chunk| <= Max(maxEvaluations, 1)
    && (published.items.Some? ==> |chunk| <= published.items.value)
    && (published.bytes.Some? && |chunk| >= 2 ==>
          |BatchBody(quote, subject, Asked(questions, chunk))| <= published.bytes.value)
  }

  /** An in-order partition of the questions to ask, each part within the published maxima. */
  predicate PublishedPlan(quote: Quote, subject: string, questions: seq<Question>, maxEvaluations: nat,
                          published: Published, ask: Chunk, chunks: seq<Chunk>) {
    && InBatch(ask, questions)
    && Flatten(chunks) == ask
    && forall c | c in chunks :: WithinPublished(quote, subject, questions, maxEvaluations, published, c)
  }

  /** The limits of the planner are the published maxima and the option. */
  lemma LimitsArePublished(quote: Quote, subject: string, questions: seq<Question>, maxEvaluations: nat,
                           published: Published, chunk: Chunk)
    requires FromOne(published.bytes)
    ensures Fits(quote, subject, questions, LimitsOf(maxEvaluations, published), chunk) <==>
              WithinPublished(quote, subject, questions, maxEvaluations, published, chunk)
  {
    hide BatchBody;
  }

  lemma PlansArePublished(quote: Quote, subject: string, questions: seq<Question>, maxEvaluations: nat,
                          published: Published, ask: Chunk, chunks: seq<Chunk>)
    requires FromOne(published.bytes)
    ensures Plan(quote, subject, questions, LimitsOf(maxEvaluations, published), ask, chunks) <==>
              PublishedPlan(quote, subject, questions, maxEvaluations, published, ask, chunks)
  {
    hide Fits, WithinPublished, LimitsOf;
    forall c ensures Fits(quote, subject, questions, LimitsOf(maxEvaluations, published), c) <==>
                       WithinPublished(quote, subject, questions, maxEvaluations, published, c) {
      LimitsArePublished(quote, subject, questions, maxEvaluations, published, c);
    }
  }

  // ---- the size of a body is the sum that the planner keeps ----

  function ItemBytes(quote: Quote, questions: seq<Question>, chunk: Chunk): nat
    requires InBatch(chunk, questions)
  {
    if chunk == [] then 0
    else
      var last := |chunk| - 1;
      ItemBytes(quote, questions, chunk[..last])
      + |ItemJson(quote, questions[chunk[last]])| + (if last == 0 then 0 else 1)
  }

  lemma {:induction false} CommasBytes(quote: Quote, questions: seq<Question>, chunk: Chunk)
    requires InBatch(chunk, questions)
    ensures |WithCommas(Items(quote, Asked(questions, chunk)))| == ItemBytes(quote, questions, chunk)
  {
    hide ItemJson;
    if chunk != [] {
      var last := |chunk| - 1;
      CommasBytes(quote, questions, chunk[..last]);
      var items := Items(quote, Asked(questions, chunk));
      assert items[..last] == Items(quote, Asked(questions, chunk[..last]));
    }
  }

  /** The envelope plus the items plus the commas is the length of the body. */
  lemma BodyBytes(quote: Quote, subject: string, questions: seq<Question>, chunk: Chunk)
    requires InBatch(chunk, questions)
    ensures |BatchBody(quote, subject, Asked(questions, chunk))|
         == |BatchBody(quote, subject, [])| + ItemBytes(quote, questions, chunk)
  {
    CommasBytes(quote, questions, chunk);
    assert Items(quote, []) == [];
  }

  lemma {:induction false} ItemBytesOfPart(quote: Quote, questions: seq<Question>, chunk: Chunk, from: nat, to: nat)
    requires InBatch(chunk, questions) && from <= to <= |chunk|
    ensures InBatch(chunk[from..to], questions)
    ensures ItemBytes(quote, questions, chunk[from..to]) <= ItemBytes(quote, questions, chunk)
    decreases |chunk|
  {
    hide ItemJson;
    var last := |chunk| - 1;
    if to < |chunk| {
      SliceOfSlice(chunk, 0, last, from, to);
      ItemBytesOfPart(quote, questions, chunk[..last], from, to);
    } else if from < to {
      var part := chunk[from..to];
      SliceOfSlice(chunk, from, to, 0, |part| - 1);
      SliceOfSlice(chunk, 0, last, from, last);
      ItemBytesOfPart(quote, questions, chunk[..last], from, last);
    } else {
      assert chunk[from..to] == [];
    }
  }

  /** A part of a chunk that fits also fits. */
  lemma PartFits(quote: Quote, subject: string, questions: seq<Question>, limits: Limits, chunk: Chunk, from: nat,
                 to: nat)
    requires from < to <= |chunk|
    requires Fits(quote, subject, questions, limits, chunk)
    ensures Fits(quote, subject, questions, limits, chunk[from..to])
  {
    hide BatchBody, ItemBytes;
    ItemBytesOfPart(quote, questions, chunk, from, to);
    BodyBytes(quote, subject, questions, chunk);
    BodyBytes(quote, subject, questions, chunk[from..to]);
  }

  // ---- the planner ----

  /** A chunk that cannot take the next question. */
  predicate Closed(quote: Quote, subject: string, questions: seq<Question>, limits: Limits, chunk: Chunk, next: nat) {
    !Fits(quote, subject, questions, limits, chunk + [next])
  }

  /** Every chunk but the last is closed against the first question of the next one. */
  predicate Greedy(quote: Quote, subject: string, questions: seq<Question>, limits: Limits, chunks: seq<Chunk>) {
    && (forall i | 0 <= i < |chunks| :: chunks[i] != [])
    && (forall i | 0 < i < |chunks| :: Closed(quote, subject, questions, limits, chunks[i - 1], chunks[i][0]))
  }

  /** The next chunk of the plan: as many questions from `from` as the limits allow. */
  method NextChunk(quote: Quote, subject: string, questions: seq<Question>, limits: Limits, ask: Chunk, from: nat)
    returns (chunk: Chunk)
    requires InBatch(ask, questions) && from < |ask| && limits.maxItems >= 1
    ensures chunk != [] && from + |chunk| <= |ask| && chunk == ask[from..from + |chunk|]
    ensures Fits(quote, subject, questions, limits, chunk)
    ensures from + |chunk| < |ask| ==>
              Closed(quote, subject, questions, limits, chunk, ask[from + |chunk|])
  {
    hide BatchBody, ItemJson;
    var envelope := if limits.maxBytes > 0 then |BatchBody(quote, subject, [])| else 0;
    chunk := [];
    var i, bytes := from, envelope;
    while i < |ask| && |chunk| < limits.maxItems
      invariant from <= i <= |ask| && chunk == ask[from..i] && InBatch(chunk, questions)
      invariant |chunk| <= limits.maxItems
      invariant limits.maxBytes > 0 ==> bytes == envelope + ItemBytes(quote, questions, chunk)
      invariant chunk != [] ==> Fits(quote, subject, questions, limits, chunk)
    {
      var next := ask[i];
      ghost var longer := chunk + [next];
      assert InBatch(longer, questions) && longer[..|chunk|] == chunk && longer == ask[from..i + 1];
      BodyBytes(quote, subject, questions, longer);
      if limits.maxBytes > 0 {
        var item := |ItemJson(quote, questions[next])| + (if chunk == [] then 0 else 1);
        if chunk != [] && bytes + item > limits.maxBytes {
          break;
        }
        bytes := bytes + item;
      }
      chunk := chunk + [next];
      i := i + 1;
    }
  }

  /** The requests for the questions to ask: a partition within the published maxima, and no shorter one exists. */
  method PlanChunks(quote: Quote, subject: string, questions: seq<Question>, maxEvaluations: nat, published: Published,
                    ask: Chunk)
    returns (chunks: seq<Chunk>)
    requires InBatch(ask, questions) && FromOne(published.items) && FromOne(published.bytes)
    ensures PublishedPlan(quote, subject, questions, maxEvaluations, published, ask, chunks)
    ensures forall other | PublishedPlan(quote, subject, questions, maxEvaluations, published, ask, other) ::
              |chunks| <= |other|
  {
    hide PublishedPlan, Plan;
    var limits := LimitsOf(maxEvaluations, published);
    chunks := PlanWithin(quote, subject, questions, limits, ask);
    PlansArePublished(quote, subject, questions, maxEvaluations, published, ask, chunks);
    forall other | PublishedPlan(quote, subject, questions, maxEvaluations, published, ask, other)
      ensures |chunks| <= |other|
    {
      PlansArePublished(quote, subject, questions, maxEvaluations, published, ask, other);
    }
  }

  method PlanWithin(quote: Quote, subject: string, questions: seq<Question>, limits: Limits, ask: Chunk)
    returns (chunks: seq<Chunk>)
    requires InBatch(ask, questions) && limits.maxItems >= 1
    ensures Plan(quote, subject, questions, limits, ask, chunks)
    ensures forall other | Plan(quote, subject, questions, limits, ask, other) :: |chunks| <= |other|
  {
    hide Fits;
    chunks := [];
    var i := 0;
    assert ask[..0] == [];
    while i < |ask|
      invariant i <= |ask| && Flatten(chunks) == ask[..i]
      invariant forall c | c in chunks :: Fits(quote, subject, questions, limits, c)
      invariant Greedy(quote, subject, questions, limits, chunks)
      invariant chunks != [] && i < |ask| ==>
                  Closed(quote, subject, questions, limits, chunks[|chunks| - 1], ask[i])
    {
      var chunk := NextChunk(quote, subject, questions, limits, ask, i);
      assert (chunks + [chunk])[..|chunks|] == chunks;
      assert ask[..i] + ask[i..i + |chunk|] == ask[..i + |chunk|];
      assert chunk[0] == ask[i];
      chunks := chunks + [chunk];
      i := i + |chunk|;
    }
    assert ask[..|ask|] == ask;
    forall other | Plan(quote, subject, questions, limits, ask, other) ensures |chunks| <= |other| {
      GreedyIsShortest(quote, subject, questions, limits, ask, chunks, other);
    }
  }

  // ---- no plan is shorter ----

  lemma {:induction false} FlattenPrefix(chunks: seq<Chunk>, k: nat)
    requires k <= |chunks|
    ensures Flatten(chunks[..k]) <= Flatten(chunks)
  {
    var last := |chunks| - 1;
    if k < |chunks| {
      assert chunks[..last][..k] == chunks[..k];
      FlattenPrefix(chunks[..last], k);
    } else {
      assert chunks[..k] == chunks;
    }
  }

  lemma {:induction false} FlattenHas(chunks: seq<Chunk>, i: nat) returns (c: nat, k: nat)
    requires i in Flatten(chunks)
    ensures c < |chunks| && k < |chunks[c]| && chunks[c][k] == i
  {
    var last := |chunks| - 1;
    if i in chunks[last] {
      c := last;
      k :| k < |chunks[last]| && chunks[last][k] == i;
    } else {
      c, k := FlattenHas(chunks[..last], i);
    }
  }

  /** The first k + 1 chunks are the first k and the questions of chunk k, at their place in the batch. */
  lemma ChunkPlace(ask: Chunk, chunks: seq<Chunk>, k: nat)
    requires k < |chunks| && Flatten(chunks) == ask
    ensures var from, to := |Flatten(chunks[..k])|, |Flatten(chunks[..k + 1])|;
            from <= to <= |ask| && chunks[k] == ask[from..to] && to == from + |chunks[k]|
  {
    assert chunks[..k + 1][..k] == chunks[..k];
    FlattenPrefix(chunks, k + 1);
  }

  /** A request that starts no later than a greedy one ends no later: it cannot hold the question that closed it. */
  lemma CannotOvertake(quote: Quote, subject: string, questions: seq<Question>, limits: Limits, ask: Chunk,
                       from: nat, to: nat, a: nat, b: nat)
    requires a <= from < to < |ask| && a <= b <= |ask|
    requires Closed(quote, subject, questions, limits, ask[from..to], ask[to])
    requires Fits(quote, subject, questions, limits, ask[a..b])
    ensures b <= to
  {
    hide Fits;
    if b > to {
      assert ask[from..to] + [ask[to]] == ask[from..to + 1];
      SliceOfSlice(ask, a, b, from - a, to + 1 - a);
      PartFits(quote, subject, questions, limits, ask[a..b], from - a, to + 1 - a);
    }
  }

  /** After k requests, no plan has asked more questions than the greedy one. */
  lemma {:induction false} GreedyStaysAhead(quote: Quote, subject: string, questions: seq<Question>, limits: Limits,
                                            ask: Chunk, chunks: seq<Chunk>, other: seq<Chunk>, k: nat)
    requires Plan(quote, subject, questions, limits, ask, chunks)
    requires Greedy(quote, subject, questions, limits, chunks)
    requires Plan(quote, subject, questions, limits, ask, other)
    requires k < |chunks| && k <= |other|
    ensures |Flatten(other[..k])| <= |Flatten(chunks[..k])|
  {
    hide Fits;
    if k > 0 {
      GreedyStaysAhead(quote, subject, questions, limits, ask, chunks, other, k - 1);
      ChunkPlace(ask, chunks, k - 1);
      ChunkPlace(ask, chunks, k);
      ChunkPlace(ask, other, k - 1);
      var from, to := |Flatten(chunks[..k - 1])|, |Flatten(chunks[..k])|;
      assert Closed(quote, subject, questions, limits, chunks[k - 1], chunks[k][0]);
      assert other[k - 1] in other;
      CannotOvertake(quote, subject, questions, limits, ask, from, to, |Flatten(other[..k - 1])|,
                     |Flatten(other[..k])|);
    }
  }

  lemma GreedyIsShortest(quote: Quote, subject: string, questions: seq<Question>, limits: Limits,
                         ask: Chunk, chunks: seq<Chunk>, other: seq<Chunk>)
    requires Plan(quote, subject, questions, limits, ask, chunks)
    requires Greedy(quote, subject, questions, limits, chunks)
    requires Plan(quote, subject, questions, limits, ask, other)
    ensures |chunks| <= |other|
  {
    hide Fits;
    if |other| < |chunks| {
      var k := |other|;
      assert chunks[k] != [] && other[..k] == other;
      ChunkPlace(ask, chunks, k);
      GreedyStaysAhead(quote, subject, questions, limits, ask, chunks, other, k);
    }
  }
}
