# The access layer and the plumbing of ChDash, verified

ChDash asks a policy decision point (PDP) what a person may do, lists resources page by page, draws traces, finds out what
a ClickHouse identity can read, and lends connections. This project models those parts in Dafny and proves what they
promise. `dafny verify dfyconfig.toml` checks all of it.

| files | the component |
|---|---|
| `PdpModel`, `PdpReading`, `PdpPlan`, `PdpBody`, `PdpCache`, `PdpCall`, `AccessPdp`, `AccessHistory` | the PDP client: reading answers and what they say, the cache and its keys, the batch plan, the batched call with its deadline, the question of a use, and what the history of its requests says |
| `AccessSearch` | the paged resource search and the databases that it shows |
| `AccessResource`, `Utf8`, `PercentForm`, `Base64`, `Base64Form`, `OptionsOrder`, `OptionsPage`, `OptionsChain`, `AccessOptions`, `OptionsRules` | ids, labels and paths; their encodings; cursors; the order, one page and the chain of pages; the query |
| `AccessCeilings`, `AccessRun`, `RunReading` | the ceilings, the meter, which action pays for a run, and what the run gets from the answers of the PDP |
| `TracePixels`, `TraceUnion`, `TraceGraph`, `TraceNodes` | the compaction of a trace |
| `AclColumns`, `AclDiscovery`, `AllowedObjects` | what an identity can read |
| `ClientPool`, `BlockEncoder`, `Admission` | the concurrent parts, one method for each atomic step |
| `AccessIdentity`, `IdentityRules` | the token verifier, its cache, and whom it accepts |

A class has the fields of the class that it models and a `Valid()` invariant; a ghost history says what happened, and the
methods tie the new state to a function of the old one. The PDP, ClickHouse, the clock and the encoder are
nondeterministic: a method that stands for one of them may give any answer that its contract admits. In the concurrent
parts every region under a mutex is one method, so the invariant holds over every interleaving.

Some promises do not hold of the code on every input. Here is where, with the member that shows an input and the one that gives
the exact condition:

- A page of options that needs more than 200 questions for one id shows nothing and gives no cursor
  (`OptionsChain.TooManyQuestionsLoseTheList`, `OptionsChain.CompleteExactlyWhenOneIdFits`). The only route asks at most the 12
  actions about one id (`src/access_actions.cpp:69-84`, `src/api_resources.cpp:138`), so no caller of the repository gets there.
- The merged pixels of a leaf group can lack the pixel of a span without a length
  (`TraceUnion.TouchingPointIsLost`, `TraceUnion.SameUnionExactlyWhenNoneIsLost`).
- A readable database can be in neither list, with its listing given and no bound reached, exactly when ClickHouse may fail
  about each of its readable objects (`AclDiscovery.ErrorsHideADatabase`, `AclDiscovery.LostExactlyWhen`); a failure is
  reported exactly when fewer than 64 came before it (`AclDiscovery.FailureIsReported`).
- The encoder can finish normally without a block that was submitted, when the block came after the worker had left
  (`BlockEncoder.LateBlockIsLost`); it has encoded all of them exactly when its queue is empty
  (`BlockEncoder.BlockEncoder.Finish`).
- A ceiling of 2^64 - 1 never stops a run (`AccessCeilings.HighestCeilingNeverBreaks`,
  `AccessCeilings.BreachExactlyWhenExceeded`).

Two limits are by design, and their exact form is proved: a kept identity is what the verifier says unless the clock goes back
before the start of the token (`AccessIdentity.KeptAnswerExactly`), and an answer keeps the first 64 issues only. In one place
the code and its comment differ, and the model follows the code:

- The comment of the meter says that a run is past its duration when more than the ceiling has passed; the code needs
  one whole second more (`AccessCeilings.CeilingMeter.OnClock`).

What the model takes as given: subjects and actions hold no U+001F, the types of nodes no `:`, `/` or U+001F, the ids of
spans no U+001F, the names of databases no NUL; SHA-256 gives different tokens different keys; the clock does not go
back; the published maxima are at least 1, as `metadata_number` makes sure; a byte text is a sequence of characters below
U+0100; sizes do not overflow `size_t`, and dates and their differences do not overflow 64 bits.

## Model

| member | source | states |
|---|---|---|
| `PdpPlan.PlanChunks` | src/access_pdp.cpp:739-763 | on the option of the client and the published numbers: the plan is an in-order partition of the questions to ask, no request has more questions than max(max_evaluations, 1) and the published items, the real body of two or more questions is within the published bytes, and no other such partition has fewer requests |
| `PdpPlan.PlanWithin` | src/access_pdp.cpp:739-763 | the loop makes the greedy plan within any limits |
| `PdpPlan.LimitsArePublished` | src/access_pdp.cpp:741-744 | a chunk fits the limits of the loop exactly when it keeps the option of the client and the published numbers |
| `PdpPlan.NextChunk` | src/access_pdp.cpp:739-763 | one chunk takes questions from its start until the next one does not fit |
| `PdpPlan.BodyBytes` | src/access_pdp.cpp:312-334 | the running count of envelope, items and commas is the length of the body that request_body writes |
| `PdpBody.BodyIsWritten` | src/access_pdp.cpp:26-92 | the text whose length the plan keeps is the JSON text of the subject and of each question with its action, its resource, its ancestors and its match |
| `PdpPlan.PartFits` | src/access_pdp.cpp:739-763 | any part of a chunk that fits also fits, which is what the optimality rests on |
| `PdpPlan.GreedyStaysAhead` | src/access_pdp.cpp:739-763 | after k requests no plan has asked more questions than the greedy one |
| `PdpPlan.GreedyIsShortest` | src/access_pdp.cpp:739-763 | every plan that closes a chunk only when the next question does not fit is a shortest plan |
| `PdpModel.ReadAnswersFollowTheProtocol` | src/access_pdp.cpp:144-182 | an answer that is read carries limits and units only when it is true, with the limits in the order of their names, a reason only when it is false, and a wait of at least a second exactly for an exceeded budget |
| `PdpModel.LimitsAreTheMembers` | src/access_pdp.cpp:117-126 | the limits that are read are exactly the members, each with its value |
| `PdpModel.ReadAnswer` | src/access_pdp.cpp:336-357 | a body is read as exactly the asked number of answers, in their order, or refused as a whole; what each answer says of its item is PdpReading.BodyIsRead |
| `PdpModel.ParsedInOrder` | src/access_pdp.cpp:336-357 | answer i of a body is the reading of item i |
| `PdpReading.AnswerIsRead` | src/access_pdp.cpp:117-182 | on the members of the JSON value: the decision of an answer is the boolean member "decision"; the limits and the units of a true answer and the reason and the wait of a false one are the members of its context; and the exact values that are refused |
| `PdpReading.BodyIsRead` | src/access_pdp.cpp:336-357 | a body is read exactly when every item of it is readable and there is one for each question, and then answer k carries what item k says |
| `PdpReading.ReplyMeaning` | src/access_pdp.cpp:715-737 | a request is silent exactly when the transport failed or came too late, and answered exactly when the result has status 200, is within the bytes and is readable |
| `PdpReading.TrueOnTheWireMeaning` | src/access_pdp.cpp:715-737 | answer k of a reply is true exactly when the result came in time, with status 200 and within the bytes, is readable, and has true under "decision" of item k |
| `PdpModel.RefusalOf` | src/access_pdp.cpp:240-249 | the refusal is the first failure, else the first of the exceeded budgets with the longest wait, else the first decision |
| `PdpModel.KeyInjective` | src/access_pdp.cpp:359-376 | a cache key belongs to one kind of question, one subject, one action, one resource with its whole chain and one match |
| `PdpModel.KeySpacesDisjoint` | src/access_pdp.cpp:372-376 | no key of a use is a key of a plain question |
| `PdpModel.CacheKeyInjective` | src/access_pdp.cpp:359-370 | two plain questions with one key are the same question of the same subject |
| `PdpCache.StoreKeepsTheBounds` | src/access_pdp.cpp:397-436 | a store keeps the keys distinct and both bounds, and it can bring only the new answer, never one that took units |
| `PdpCache.StoreAnswersTheKey` | src/access_pdp.cpp:378-436 | after a store the key has the stored answer with its life, accounted as the bytes of the key and of the names of its limits, 160 more and 64 for each limit |
| `PdpCache.StoreLeavesTheOthers` | src/access_pdp.cpp:397-436 | when a store changes nothing, when it only ends the older answer of its key, and when all the other answers stay in their order |
| `PdpCache.StoreEvictsOnlyForRoom` | src/access_pdp.cpp:414-430 | a live answer leaves the cache only when it and newer answers would not fit with the new one |
| `PdpCache.EvictionLeavesRoom` | src/access_pdp.cpp:429-430 | the eviction loop ends with room for the new entry, and what is left is a suffix, the newest answers |
| `PdpCache.EvictionIsLeast` | src/access_pdp.cpp:429-430 | the eviction removes not one answer more than needed |
| `PdpCache.LifeIsTheLower` | src/access_pdp.cpp:401-409 | the comparison in whole seconds gives exactly the lower of cache_ttl and retry_after |
| `AccessPdp.PdpClient.CacheStore` | src/access_pdp.cpp:397-436 | list, map, byte count and watermark stay in agreement, and the cache is exactly the one that an always-sweeping store leaves, although the sweep is skipped before the watermark |
| `AccessPdp.PdpClient.Sweep` | src/access_pdp.cpp:415-428 | an answer stays exactly when it expires later than now, and the watermark is no later than any expiry |
| `AccessPdp.PdpClient.EvictOldest` | src/access_pdp.cpp:429-430 | the oldest answers go, list and map together, until the new entry fits |
| `AccessPdp.PdpClient.CacheErase` | src/access_pdp.cpp:391-395 | one entry leaves the list, the map and the byte count |
| `AccessPdp.PdpClient.Kept` | src/access_pdp.cpp:813-823 | a kept answer is found exactly while it is not expired, and it is an answer that the PDP gave to this very question of this kind |
| `AccessPdp.StoredIsFound` | src/access_pdp.cpp:397-436 | an answer that was stored is found exactly while both cache_ttl and its own wait last |
| `AccessPdp.PdpClient.AskChunk` | src/access_pdp.cpp:765-805 | one request goes into the history; each answer sets the decision at its own question, is logged and stored under that question; a request without a valid answer fails its own questions only, logs and stores nothing |
| `AccessPdp.PdpClient.SetAnswers` | src/access_pdp.cpp:786-793 | the log grows by exactly the answers of the request, each with its own question, and the cache after it is one store for each answer in their order |
| `AccessPdp.PdpClient.Decide` | src/access_pdp.cpp:807-889 | one decision for each question in order: a kept answer exactly when the cache has one that is not expired, else what the answer at the question's own place says, field by field, in a shortest plan within the published numbers; when the deadline cuts the call every decision is a failure; the requests that were sent, the log, the cache and the look at the metadata are exactly what these requests leave |
| `AccessPdp.PdpClient.EnsureMetadata` | src/access_pdp.cpp:462-472 | the published numbers are from 1 on, and each look at them is in the history |
| `AccessPdp.PdpClient.Post` | src/access_pdp.cpp:765-805 | every request goes into the history with its questions, its time and what came of it, and no answer is in the log without a request that has it |
| `AccessHistory.AllowedExactlyByAnAnswer` | src/access_pdp.cpp:807-889 | a decision allows exactly when the call was not cut and the kept answer is true, or else the history of HTTP results has true under "decision" of the item at the question's own place, in a readable reply that came in time with status 200 and within the bytes |
| `AccessHistory.WhatADecisionSays` | src/access_pdp.cpp:807-889 | a decision that no kept answer gives says, field by field, what the JSON value at the question's own place in the history says, or it is a failure, exactly when there is no readable reply with such a value or the call was cut |
| `AccessHistory.TrueAnswersWereSent` | src/access_pdp.cpp:715-737 | a true answer in the log was on the wire: a request asked this very question, and the item at its place says true |
| `AccessHistory.HistoryOfACall` | src/access_pdp.cpp:739-872 | the requests that a call adds to the history are those of the first chunks of its plan, one for each, each within the option of the client and the published items, and within the published bytes from two questions on; only the last may be without an answer in time; and the call stops early only for such a request or for its deadline |
| `AccessHistory.NothingAllowedUnasked` | src/access_pdp.cpp:807-889 | an allowed decision has a true answer to this very question in the log, one of this call or an earlier one that is still good, and a request in the history that asked it with true under "decision" of its item |
| `PdpCall.NothingAfterSilence` | src/access_pdp.cpp:849-872 | after a request with no answer in time, no later request is sent |
| `PdpCall.NothingAfterAGap` | src/access_pdp.cpp:849-872 | after a request that is not sent, no later request is sent |
| `PdpCall.AnAnswerStopsNothing` | src/access_pdp.cpp:849-872 | an answered request, valid or not, stops nothing: the next one goes unless the deadline has passed |
| `PdpCall.NoWaitPastTheDeadline` | src/access_pdp.cpp:856-867 | no request waits longer than its own timeout, and no request of a split call waits past the deadline |
| `PdpCall.CutByTheDeadline` | src/access_pdp.cpp:849-882 | the exact runs that the deadline cuts: some request, after answered ones only, was due or still silent when the deadline had passed |
| `PdpCall.AnswersMatchTheQuestions` | src/access_pdp.cpp:715-737 | the answers of a request are as many as its questions |
| `AccessPdp.PdpClient.DecideUse` | src/access_pdp.cpp:910-1006 | the history grows by one request with this one question, which waits one second more than the published longest time of a use and never less than the timeout of the client, exactly when the question is about a node, nothing is kept for it and the metadata is usable, else by nothing; the reply to that request gives the decision, and its answer is logged, and stored exactly when it may be kept; a kept answer is one to this very use |
| `AccessPdp.WaitIsExact` | src/access_pdp.cpp:940-945 | a kept exceeded budget gives the least whole number of seconds that covers the rest of its life, never more than the first wait |
| `AccessSearch.SearchResources` | src/access_pdp.cpp:1126-1167 | a search is whole only with the complete concatenation of all pages, it stops within its page and item bounds, and it fails exactly on a bad page or a token that comes again |
| `AccessSearch.TakeIds` | src/access_pdp.cpp:1140-1146 | ids are added while there is room, and the rest is reported as cut |
| `AccessSearch.SearchDatabases` | src/access_search.cpp:21-61 | the four outcomes, each exactly when: not usable, covered by a grant on the host, the union of whole searches of all actions, or a fallback; each result is one of the paged search |
| `AccessSearch.SearchShowsTheSame` | src/access_search.cpp:34-60 | with a PDP whose grants cover a node and everything below it, the search shows a database exactly when the evaluations with the match subtree would |
| `AccessSearch.CompletePagesShowTheSame` | src/access_search.cpp:21-61 | the same from the pages of the PDP on: when whoever follows its pages to the last one has all that it allows, a search that gives a result shows a database exactly when the evaluations would |
| `AccessSearch.WholeSearchIsFaithful` | src/access_pdp.cpp:1126-1167 | with complete pages, a search that is whole has all that the PDP allows |
| `AccessSearch.DatabaseGrant` | src/access_search.cpp:34-52 | a grant that covers a database is on the database or covers its host |
| `AccessResource.IsValidId` | src/access_resource.cpp:27-37 | decides exactly the valid ids |
| `AccessResource.ValidIdMeaning` | src/access_resource.cpp:27-37 | an id is 1 to 256 bytes of UTF-8 whose characters are not controls: the byte test finds exactly the C0, DEL and C1 code points |
| `Utf8.ValidTextIsEncoded` | src/json_text.hpp:16-46 | a valid text is the encoding of its code points, all of which are Unicode scalar values (section 3 of RFC 3629) |
| `Utf8.EncodedTextIsValid` | src/json_text.hpp:16-46 | the encoding of any sequence of scalar values is valid and gives these code points back |
| `AccessResource.EncodeId` | src/access_resource.cpp:39-54 | writes the percent-encoded form of an id |
| `AccessResource.DecodeUndoesEncode` | src/access_options.cpp:47-63 | percent-decoding gives back every encoded id |
| `PercentForm.EncodedByteMeaning` | src/access_resource.cpp:39-54 | a byte is written as itself exactly when it is one of the unreserved characters, else as a percent sign and its two digits in capital letters |
| `PercentForm.PiecesAreDecoded` | src/access_options.cpp:47-63 | a text of plain characters and escapes in any case is decoded to what they stand for |
| `PercentForm.DecodedIsOfPieces` | src/access_options.cpp:47-63 | nothing else is decoded |
| `AccessResource.PercentDecode` | src/access_options.cpp:47-63 | one decoding pass; a percent sign without two hexadecimal digits refuses the text |
| `AccessResource.ResourcePath` | src/access_resource.cpp:56-69 | writes the path of a resource, segment by segment |
| `AccessResource.PathInjective` | src/access_resource.cpp:56-69 | two resources with one path are the same resource with the same chain of ancestors |
| `AccessResource.LabelMeaning` | src/access_resource.cpp:71-86 | a label is valid UTF-8: the first 60 characters, with a space for each control character; it is empty only for an empty text or one that is not UTF-8 |
| `AccessResource.CutLabel` | src/access_resource.cpp:71-86 | the loop over the bytes makes that label |
| `Base64.EncodingUnique` | src/access_options.cpp:65-86 | one encoding for each byte text |
| `Base64.CursorTextInjective` | src/access_options.cpp:65-86 | different ids have different cursors |
| `Base64.CursorEncode` | src/access_options.cpp:65-86 | the loop over groups of three bytes writes the base64url text without padding (section 5 of RFC 4648) |
| `Base64.CursorDecode` | src/access_options.cpp:88-106 | accepts exactly the cursor texts of the valid ids, and gives the id |
| `Base64.CursorReadsBack` | src/access_options.cpp:88-106 | whatever is read from the cursor of an id is that id, with no unused bits left |
| `Base64.UrlEncode` | src/access_identity.cpp:70-85 | the encoder with the wrapping 32-bit accumulator writes the same text |
| `Base64.Decode` | src/access_identity.cpp:43-68 | accepts exactly the well-spelled texts, and undoes the encoder despite the wrapping 32-bit accumulator |
| `Base64.ShiftIn` | src/access_identity.cpp:57-59 | the pending bits survive the wrap of the 32-bit accumulator |
| `Base64Form.CharValueMeaning` | src/access_identity.cpp:28-40 | the value of a character is its place in the alphabet of RFC 4648, in either form, and no other character has one |
| `Base64Form.WellSpelledMeaning` | src/access_identity.cpp:43-68 | the exact texts that are accepted: letters in a length that can be, and in the standard form as much padding as fills the last four |
| `OptionsOrder.ComesBefore` | src/access_options.cpp:186-195 | the loop decides the order: the ids without the case of the ASCII letters, then the bytes |
| `OptionsOrder.LessIsStrictTotal` | src/access_options.cpp:186-195 | the order is irreflexive, transitive and total |
| `OptionsOrder.LessMeaning` | src/access_options.cpp:186-195 | of two ids that differ in more than the case of the letters, one comes first exactly when it is a first part of the other, or the first character that differs is the lower one |
| `OptionsPage.CandidateList` | src/access_options.cpp:206-218 | the list of a page: the valid candidates, sorted, each id once, with the search text, after the cursor |
| `OptionsPage.FullListMeaning` | src/access_options.cpp:206-218 | what a query goes through: ascending, each valid id once, and with one candidate for each id exactly those that have the search text in the id or the caption, in any case of the ASCII letters |
| `OptionsPage.SearchIgnoresCase` | src/access_options.cpp:212-216 | a candidate is found exactly when its id or its caption has the search text somewhere, character for character but for the case of the ASCII letters |
| `OptionsPage.AfterIsTheRest` | src/access_options.cpp:214-218 | after the id of an element comes exactly the rest of the list |
| `OptionsPage.Examine` | src/access_options.cpp:242-255 | the visible ids of a group become items until one does not fit in the bytes |
| `OptionsPage.MakePage` | src/access_options.cpp:204-264 | a page shows exactly the visible ones among the candidates that it examined, within the items, the 200 questions and the 61440 bytes of the texts, stops early only for one of these bounds, and examines at least one candidate exactly when the questions about one id fit; its number of questions is that of the ids that were asked, the first ones of the list, each once; a page fails only without a valid answer of the PDP, and shows nothing then |
| `OptionsChain.ChainIsTheFilter` | src/access_options.cpp:204-264 | pages chained by their cursors, with any limits, concatenate to exactly the unpaged filter, and no chain has more pages than candidates |
| `OptionsChain.ChainSoFar` | src/access_options.cpp:227-263 | at every point of a chain, what was shown is the filter of the candidates examined so far, and the cursor is empty exactly when none is left |
| `OptionsChain.ShownMeaning` | src/access_options.cpp:242-255 | the items of a list are its visible ids, each once, in the order |
| `OptionsChain.ItemsAreLabelled` | src/access_options.cpp:242-255 | each item is a visible candidate with the label of its caption, or of its id where the caption makes none, and never with an empty label |
| `OptionsChain.CompleteExactlyWhenOneIdFits` | src/access_options.cpp:227-263 | a page without a cursor is complete exactly when one id needs at most 200 questions, or nothing visible was left |
| `OptionsChain.TooManyQuestionsLoseTheList` | src/access_options.cpp:221-263 | a list that is lost silently: one visible candidate with 201 questions, all of which would be answered |
| `AccessOptions.Parse` | src/access_options.cpp:108-184 | the parser gives the request or the first rule that is broken |
| `OptionsRules.AcceptedExactly` | src/access_options.cpp:131-184 | on the parameters: a query is accepted exactly when it asks for the hosts without a parent, or for the databases of one host by the path of a valid id, with the search text, the limit from 1 to 50 and the cursor that it says, or none of them and 50 |
| `OptionsRules.RefusedForTheFirst` | src/access_options.cpp:131-184 | a query whose parameters could be read is refused for the reason of the first of seven rules that it breaks |
| `OptionsRules.RefusedForAPiece` | src/access_options.cpp:109-129 | the parameters are refused for the first piece that names a known parameter for the second time or has a bad escape, and never without one |
| `OptionsRules.PieceMeaning` | src/access_options.cpp:117-127 | a piece names a known parameter before its first equals sign and has what follows as its value |
| `AccessOptions.ReadSlots` | src/access_options.cpp:109-129 | the loop over the pieces fills each known parameter at most once |
| `AccessOptions.SlotsMeaning` | src/access_options.cpp:109-129 | accepted parameters: no known name twice, each value the decoded value of its own piece, everything else ignored |
| `AccessOptions.AcceptedIsWellFormed` | src/access_options.cpp:131-184 | an accepted request is about the hosts or about the databases of one host with a valid id; the search text, the limit and the cursor are in their bounds |
| `AccessOptions.PathReadsBack` | src/access_options.cpp:136-156 | the encoded path of a chain parses back to the chain |
| `AccessOptions.ParametersReadBack` | src/access_options.cpp:109-129 | percent-encoded parameters are read back with their exact values, for any list of known names |
| `AccessOptions.RequestReadsBack` | src/access_options.cpp:108-184 | every well-formed request, with a search text of up to 256 bytes, that is written with its encoded values is accepted and read back as it is |
| `AccessOptions.EmittedCursorIsAccepted` | src/access_options.cpp:175-181 | every cursor that a page gives is accepted by the parser and names the last id examined |
| `AccessCeilings.LowestIsTheMeet` | src/access_ceilings.hpp:57-67 | the lower of two sets of ceilings is their greatest lower bound in the order where 0 is the top |
| `AccessCeilings.ResolveMeaning` | src/access_ceilings.cpp:43-55 | the ceilings of a run never loosen the base, an unsure class is bounded by read and write, and nothing else tightens them |
| `AccessCeilings.ValuesAreTheLimits` | src/access_ceilings.cpp:57-61 | the ceilings of an answer are its known limits and no other |
| `AccessCeilings.Enforceable` | src/access_ceilings.cpp:140-149 | true exactly when each limit is declared for the action and at least 1; else it names the first that is not, which among limits in the order of their names is the one with the lowest name |
| `AccessCeilings.CanApplyMeaning` | src/access_ceilings.cpp:94-149 | a limit is applied exactly when it is at least 1 and its ceiling is published for the action, by the table of the ceilings and the pages that are on |
| `AccessCeilings.EnforceCeilings` | src/access_ceilings.cpp:251-273 | in place: each decision becomes the enforced one, and nothing beyond the questions changes |
| `AccessCeilings.EnforcedMeaning` | src/access_ceilings.cpp:251-273 | the exact decisions that are left as they are; an allowed decision about a node carries only ceilings that are applied, no decision is made true, a changed one is a denial, and a second pass changes nothing |
| `AccessCeilings.CeilingMeter.OnProgress` | src/access_ceilings.hpp:176-186 | the saturating counters follow the packets, and the kept breach is the first one of the unbounded sums |
| `AccessCeilings.CeilingMeter.OnResult` | src/access_ceilings.hpp:188-198 | the same for the result |
| `AccessCeilings.CeilingMeter.OnClock` | src/access_ceilings.hpp:200-207 | the duration breaks exactly from one whole second after the ceiling, unless a breach is kept |
| `AccessCeilings.BreachExactlyWhenExceeded` | src/access_ceilings.hpp:176-233 | a breach is reported exactly when an unbounded sum exceeds a non-zero ceiling below 2^64 - 1 |
| `AccessCeilings.BreachStays` | src/access_ceilings.hpp:230-233 | the first breach of a run never changes |
| `AccessCeilings.HighestCeilingNeverBreaks` | src/access_ceilings.hpp:222 | a ceiling of 2^64 - 1 never stops a run |
| `AccessRun.UseRun` | src/access_ceilings.cpp:199-249 | the questions of a run follow the protocol and its requests in the history are exactly theirs, at most one of which may have taken a unit; the run is allowed exactly when a use was true and the other action did not fail; an allowed run has a true answer to its use in the log; read_only is the refusal of write, and the refusal has the strictest status of its answers; its ceilings are the limits of those answers (RunReading.CeilingsOfTheRun) |
| `RunReading.CeilingsOfTheRun` | src/access_ceilings.cpp:199-249 | on the JSON values of the replies and the kept events: for each action that was allowed, the ceilings of an allowed run are the limits of a true answer about it, all of which apply, 0 for a name that it lacks; an action that was not allowed has none |
| `RunReading.RefusalOfTheRun` | src/access_ceilings.cpp:240-249 | the refusal of a run is the decision about one of its questions: a failure when one failed, which has no readable answer, else an exceeded budget when one is exceeded, with the wait of the answer of the PDP |
| `RunReading.UnappliedNeverRuns` | src/access_ceilings.cpp:251-273 | a true answer with a limit that cannot be applied never gives an allowed run: the decision about it is a denial |
| `RunReading.DecisionOfAUse` | src/access_pdp.cpp:910-1006 | the decision about a use says what a kept answer or the JSON value of its reply says, or it is a failure when there is neither |
| `AccessRun.OneUnitAtMost` | src/access_ceilings.cpp:199-249 | of the requests that a run adds to the history at most one may have taken a unit, and no use is asked after it |
| `AccessRun.PlainFalseTookNothing` | src/access_ceilings.cpp:222-230 | a plain false is a false answer of the PDP to this very question |
| `AccessRun.AllowedRunNamesTheUse` | src/access_ceilings.cpp:236-248 | an allowed run names the action whose use the PDP answered true for this subject, with units and with ceilings that are applied; it may write only with a true answer about writing |
| `AccessRun.AskUse` | src/server_access.cpp:779-797 | a use asked through the client, with the answer of the PDP kept apart from the decision after the ceilings; nothing is sent only for a kept answer or without usable metadata |
| `AccessRun.Ask` | src/server_access.cpp:305-312 | the other action without a use: the decision of a call about this one question, with the requests of that call and the ceilings applied |
| `TracePixels.MakeTimeline` | src/api_analysis.cpp:177-190 | the origin is the least start that is set, and the duration goes to the greatest finish and is at least 1 |
| `TracePixels.LoHiMonotone` | src/api_analysis.cpp:192-202 | the floor and the ceiling on the pixels go up with the time |
| `TracePixels.Edge` | src/api_analysis.cpp:192-202 | a time that begins a pixel is apart from every other time |
| `TracePixels.ProjectedIs` | src/api_analysis.cpp:192-202 | without more than 64 bits in the quotient, a projection is the pixels from the floor of the start to the ceiling of the finish, at least one |
| `TracePixels.MergeSpans` | src/api_analysis.cpp:390-400 | the merge of the overlapping spans, updating the last one in place |
| `TracePixels.LeafPixels` | src/api_analysis.cpp:390-475 | the segments of a leaf group: merged, projected and merged again |
| `TracePixels.PixelsAreSeparated` | src/api_analysis.cpp:461-473 | for any spans at all, the segments are not empty, inside the timeline, in order, and apart |
| `TracePixels.CompactedCovers` | src/api_analysis.cpp:467-472 | the second merge keeps every pixel and adds none |
| `TraceUnion.MergedIsMerge` | src/api_analysis.cpp:388-400 | merged spans are apart, hold every span, and are covered by spans without a gap |
| `TraceUnion.PixelsAreTheUnion` | src/api_analysis.cpp:388-476 | the pixels of a group are exactly the pixels of its spans one by one, without the lost ones |
| `TraceUnion.SameUnionExactlyWhenNoneIsLost` | src/api_analysis.cpp:388-476 | the two unions are the same exactly when no span without a length touches the end of an earlier one at the very start of a pixel that nothing else enters |
| `TraceUnion.TouchingPointIsLost` | src/api_analysis.cpp:388-476 | three rows of a trace, and a group of two of them for which the unions differ |
| `TraceUnion.InstantsAreCovered` | src/api_analysis.cpp:388-476 | every instant inside a span falls in a covered pixel, despite both merges and the clamping |
| `TraceUnion.WellFormedFit` | src/api_analysis.cpp:192-202 | spans that do not start after they finish never need more than 64 bits |
| `TraceGraph.OperationName` | src/api_analysis.cpp:228-237 | the value is the name and instance numbers after it, and the name ends in none |
| `TraceGraph.ParentKeys` | src/api_analysis.cpp:270-309 | the set of keys holds the key of a span exactly when the span has a child in the input |
| `TraceGraph.GroupRows` | src/api_analysis.cpp:304-341 | every row has one home; two rows share it exactly when both are leaves of one trace, parent and operation; a node is exactly the spans at home there, with their common host |
| `TraceNodes.SortedOfIsSorted` | src/api_analysis.cpp:392 | the sorted spans of a group are its spans |
| `TraceNodes.SortNodes` | src/api_analysis.cpp:402-410 | the nodes are rearranged so that none comes before its left neighbour |
| `TraceNodes.NodeBeforeMeaning` | src/api_analysis.cpp:402-410 | the order is that of the first start, then of the first of trace, parent, operation and span id that differs |
| `TraceNodes.ParentRefMeaning` | src/api_analysis.cpp:425-456 | in any order of the nodes, parent_ref is non-zero exactly when the parent span is in the input, and then it names a node of that span |
| `TraceNodes.ParentRefs` | src/api_analysis.cpp:425-456 | the index keeps the first node of each span, and gives the references |
| `TraceNodes.BuildTrace` | src/api_analysis.cpp:248-482 | the whole build without the overlay: the groups of the rows, merged, in order, with their parents and their pixels; and for every row, leaf or not, a node that holds it and draws every instant of it in pixels inside the timeline |
| `TraceNodes.EveryRowIsDrawn` | src/api_analysis.cpp:440-476 | for every row there is a node that holds it, with pixels that are not empty and inside 0 to 3840, and each instant from its start to its finish is in them; a node of a span with children has exactly one segment, from the floor of its start to the ceiling of its finish |
| `TraceNodes.ParentIsDrawn` | src/api_analysis.cpp:461-473 | the one segment of a span with children |
| `TraceNodes.GroupPixels` | src/api_analysis.cpp:388-476 | from the rows of the input: the pixels of a leaf group are those of its rows without the lost ones, apart, and every instant of each row is drawn |
| `AclColumns.DiscoverColumns` | src/allowed_objects.cpp:231-252 | exactly the readable columns, whether CHECK GRANT or the probe answers, in at most 1 + 2 d k steps for 2^k columns with d denied |
| `AclColumns.DiscoverAll` | src/allowed_objects.cpp:275-284 | the chunks of 64 together: exactly the readable columns, in at most one step for each chunk and twelve for each denied column |
| `AclColumns.InspectTable` | src/allowed_objects.cpp:254-287 | a table that is granted or described allows a column exactly when it is readable, and all of them at once exactly when the grant says so, or, without its answer, when all are readable; a table that may not be described allows nothing |
| `AclColumns.CheckTableAccess` | src/allowed_objects.cpp:395-425 | the table-level check says readable exactly when the identity can read something of the table, unless ClickHouse answers with an error; the table is whole exactly when its grant is, or, without the answer about it, when all its described columns are readable |
| `AclDiscovery.DiscoverObjects` | src/allowed_objects.cpp:427-466 | the objects found by the checks in their order, the first 64 failures, cut exactly when the budget ended, with no more checks than the budget |
| `AclDiscovery.ObjectsMeaning` | src/allowed_objects.cpp:453-464 | an object is listed exactly when it is readable and its check came before the budget and was answered |
| `AclDiscovery.ListedTables` | src/allowed_objects.cpp:453-464 | the listed objects keep the sorted order and are the ones found readable |
| `AclDiscovery.FailureIsReported` | src/allowed_objects.cpp:188-190 | a failed check is reported exactly when fewer than 64 failed before it |
| `AclDiscovery.Contains` | src/allowed_objects.cpp:382-386 | the binary search answers like a search through the whole list |
| `AclDiscovery.ProbeDatabase` | src/allowed_objects.cpp:491-517 | the first readable object decides; a database is left unverified only when a bound ended its checks |
| `AclDiscovery.VerdictMeaning` | src/allowed_objects.cpp:491-517 | for the checks that were made: a database is hidden exactly when all its objects were checked and each readable one failed |
| `AclDiscovery.HiddenExactlyWhen` | src/allowed_objects.cpp:491-517 | checked to its end, a database can be hidden exactly when ClickHouse may answer with an error about each object that the identity can read |
| `AclDiscovery.DiscoverDatabases` | src/allowed_objects.cpp:468-522 | how each shown database was judged, with its checks; sorted lists without duplicates of the shown and the unverified ones, truncated exactly when something is unverified, the first 64 failures, within the budget |
| `AclDiscovery.DatabasesMeaning` | src/allowed_objects.cpp:468-522 | nothing unreadable is listed; a visible database is in neither list exactly when its listing was not given or all its objects were checked and each readable one failed; one with a readable object that ClickHouse answers about is listed, or unverified with truncated, or its listing was not given |
| `AclDiscovery.LostExactlyWhen` | src/allowed_objects.cpp:468-522 | a visible database whose listing is given can be in neither list, with no bound reached, exactly when ClickHouse may answer with an error about each object that the identity can read |
| `AclDiscovery.ErrorsHideADatabase` | src/allowed_objects.cpp:491-517 | readable databases that can be in neither list: any number of readable objects, and ClickHouse may fail about each |
| `AllowedObjects.AllowedObjectSet.AddTable` | src/allowed_objects.cpp:349-362 | the lists and the two indexes stay in agreement with everything that was added |
| `AllowedObjects.AllowedObjectSet.AllowsTable` | src/allowed_objects.cpp:335-337 | answers like a last-write-wins scan |
| `AllowedObjects.AllowedObjectSet.AllowsColumnOf` | src/allowed_objects.cpp:339-347 | answers like a last-write-wins scan |
| `AllowedObjects.AllowedObjectSet.AllowsDatabase` | src/allowed_objects.cpp:331-333 | true exactly when some table of the database was added with some access |
| `AllowedObjects.LastWriteMeaning` | src/allowed_objects.cpp:349-362 | the last write is the latest table of these names that was added with some access: all columns, some by name, or an incomplete list; a table without a name or without any access is never found |
| `AllowedObjects.TableKeyInjective` | src/allowed_objects.cpp:322-329 | one key for each table while database names hold no NUL |
| `AllowedObjects.NulMixesTables` | src/allowed_objects.cpp:322-329 | two tables that share a key when a database name holds a NUL |
| `ClientPool.ClientPool.Begin` | src/ch_client_pool.cpp:71-119 | no lease beyond the maximum; on the times in the bucket before: the connection that is taken is the last one that is idle for less than the whole ttl and, when it is due for a validation, has a receive timeout, and it must answer a ping exactly when it is due; none is taken exactly when each one is unfit; the connections before it stay and all after it are closed |
| `ClientPool.ChoiceMeaning` | src/ch_client_pool.cpp:71-119 | the sweep and the walk from the end of the bucket together take the last fit connection |
| `ClientPool.ClientPool.Lend` | src/ch_client_pool.cpp:157-163 | a clean connection of the right key, pinged first when it was stale, goes to one caller |
| `ClientPool.ClientPool.Ping` | src/ch_client_pool.cpp:126-134 | a stale connection that does not answer is closed |
| `ClientPool.ClientPool.Open` | src/ch_client_pool.cpp:147-163 | a new connection for an acquire in progress |
| `ClientPool.ClientPool.GiveBack` | src/ch_client_pool.cpp:137-154 | the lease of a failed open is given back, and its count is not 0 before |
| `ClientPool.ClientPool.Release` | src/ch_client_pool.cpp:178-211 | the lease ends and its count is not 0 before; the connection is idle again exactly when the pool runs, it is clean and its bucket has room |
| `ClientPool.ClientPool.Invalidate` | src/ch_client_pool.cpp:166-170 | only a lent connection becomes dirty |
| `ClientPool.ClientPool.Reap` | src/ch_client_pool.cpp:238-249 | one round of the reaper closes exactly the expired idle connections, unless the pool stops |
| `ClientPool.ClientPool.Clear` | src/ch_client_pool.cpp:251-259 | no connection stays idle, and the leases are untouched |
| `ClientPool.ClientPool.Sweep` | src/ch_client_pool.cpp:213-236 | exactly the expired idle connections go, and empty buckets with them |
| `ClientPool.LeasesWithinTheMaximum` | src/ch_client_pool.cpp:58-236 | in every reachable state no address has more leases and acquires in progress than the maximum |
| `ClientPool.OneHolder` | src/ch_client_pool.cpp:58-236 | in every reachable state a connection has one holder, which has its key, and is not idle meanwhile |
| `ClientPool.IdleInOnePlace` | src/ch_client_pool.cpp:58-236 | in every reachable state an idle connection is clean, in one place and not lent, and its bucket is within its bound |
| `BlockEncoder.BlockEncoder.Submit` | src/block_encoder.hpp:43-50 | a block is queued exactly when there is room and neither a failure nor a cancel; the queue never exceeds its depth |
| `BlockEncoder.BlockEncoder.Take` | src/block_encoder.hpp:72-80 | the worker takes the first block, leaves when the end is marked and nothing waits, and its remaining steps go down |
| `BlockEncoder.BlockEncoder.Encode` | src/block_encoder.hpp:82-92 | a block is encoded after the ones before it; after a failure nothing is |
| `BlockEncoder.BlockEncoder.Close` | src/block_encoder.hpp:60-68 | the end is marked; the destructor drops what waits |
| `BlockEncoder.BlockEncoder.Finish` | src/block_encoder.hpp:53-57 | when it returns normally, what was submitted before the end is encoded, each block once and in order, and all that was submitted is encoded exactly when nothing is left in the queue |
| `BlockEncoder.LateBlockIsLost` | src/block_encoder.hpp:43-57 | a run in which finish returns normally and a submitted block is not encoded: it came when the worker had left |
| `BlockEncoder.BlockEncoder.Join` | src/block_encoder.hpp:60-68 | once the end is marked, the worker leaves within the remaining steps; after the destructor it encodes no more than the block in its hand |
| `BlockEncoder.EncodedIsAPrefix` | src/block_encoder.hpp:43-94 | in every reachable state the encoded blocks are the first submitted ones, and after the destructor only the block in the hand of the worker can still come |
| `Admission.Admission.Enter` | src/admission.hpp:69-76 | a ticket at once exactly when there is no limit or room, else a waiting call |
| `Admission.Admission.Wake` | src/admission.hpp:79-98 | a waiting call is admitted within the limit, refused when it gives up, or waits on |
| `Admission.Admission.GiveBack` | src/admission.hpp:116-123 | the place of a live ticket ends, and its count is not 0 before |
| `Admission.Admission.MoveFrom` | src/admission.hpp:31 | a move keeps the number of places |
| `Admission.Admission.MoveAssign` | src/admission.hpp:32-40 | a move assignment gives back the old place of the target and takes over the other |
| `Admission.CountersOf` | src/admission.hpp:67-123 | in every reachable state the places in use are the live tickets, and every call was admitted, refused or waits |
| `AccessIdentity.KeptAnswerExactly` | src/access_identity.cpp:287-426 | a kept answer is right at another time exactly when that time is past the end of the token or not before its start |
| `AccessIdentity.KeptAnswerIsRight` | src/access_identity.cpp:287-426 | so it is right whenever the clock did not go back |
| `AccessIdentity.IdentityVerifier.Verify` | src/access_identity.cpp:287-318 | the answer of the verifier without a cache, for any eviction; the token is kept with its answer exactly when it is accepted, and a kept answer changes nothing; whom the verifier accepts is IdentityRules.AcceptedByTheRules |
| `IdentityRules.AcceptedByTheRules` | src/access_identity.cpp:287-426 | a token of three parts is accepted exactly when it keeps each of nineteen rules on its own members: spelling, algorithm, type, crit, kid, a configured key of that kind and kid that signed header and payload, issuer, audience or a list that holds it, exp, iat, nbf and the life against now and the skew, and the subject; and it is refused for the reason of the first rule that it breaks |
| `IdentityRules.RefusedWithoutParts` | src/access_identity.cpp:287-345 | every other token is refused: an empty one as missing, any other as malformed |
| `AccessIdentity.IdentityVerifier.VerifyAll` | src/access_identity.cpp:287-318 | any sequence of calls at times that do not go back gives the answers of the verifier without a cache |
| `AccessIdentity.IdentityVerifier.Lookup` | src/access_identity.cpp:294-308 | a kept token is answered from its entry, an expired entry goes |
| `AccessIdentity.IdentityVerifier.Store` | src/access_identity.cpp:309-317 | an accepted token is kept, and of the other entries exactly those stay that the eviction leaves; the cache stays within its size |
| `AccessIdentity.IdentityVerifier.MakeRoom` | src/access_identity.cpp:312-315 | a cache with room stays as it is; of a full one exactly the entries that are not expired stay, and none when these are still too many |

## Left out

- JSON, HTTP, TLS, sockets, signatures, SHA-256 and the ClickHouse protocol are parameters or nondeterministic methods; of the bodies of requests only the text of a batch is modelled, with the escapes of the JSON writer as a parameter, and of the answers the JSON value.
- The discovery of the metadata and its retry times (`src/access_pdp.cpp:571-699`): the model takes any published maxima of at least 1, or none.
- Time is in whole milliseconds in the PDP client and in whole nanoseconds in the meter; the finer resolution of the clock is not modelled.
- std::sort is one fixed sorted arrangement; which of two candidates with the same id it puts first is not modelled, and neither is the order of equal nodes of a trace. `TraceNodes.ParentRefMeaning` holds for every arrangement.
- AccessSearch.SearchDatabases: takes the decisions and the pages of the PDP as functions, so it does not model a PDP that changes its mind between two questions of one search.
- AccessPdp.PdpClient.Decide: one call at a time. In the source the look-up and the stores of each answered request are regions of their own under `mu_` (src/access_pdp.cpp:813, 791), so the stores of other calls can come between them; the model makes a call atomic.
- AccessPdp.PdpClient.DecideUse: one call at a time, as above (src/access_pdp.cpp:937, 994).
- OptionsPage.MakePage: the PDP decides by one visibility or gives no valid answer; a visibility that changes between pages is not modelled.
- AccessRun.UseRun: the classification of the SQL text is a parameter.
- AccessCeilings.Enforceable: of the features of a server, only those that publish an action with ceilings.
- The messages of the ceilings, the declared maxima (`src/access_ceilings.cpp:151-160`) and `apply_ceilings`: tables and texts.
- The deadline thread of the ceilings (`src/access_ceilings.cpp:170-197`): it starts a callback once after a wait.
- The processor-summary overlay of a trace, the interning of names, and the counts beside the nodes.
- TraceNodes.BuildTrace: timestamps are unbounded naturals; only the 64-bit cut of the quotient is modelled.
- AclColumns.CheckTableAccess: a transport error, which ends the whole discovery, is not modelled.
- ClientPool.ClientPool.Begin: the wait for a lease is the state at its end; wake-ups, fairness and time-outs of the condition variables are not modelled. The text of a bucket key is a record of its parts.
- ClientPool.ClientPool.Open: an open that throws is `GiveBack`.
- BlockEncoder.BlockEncoder.Submit: nobody submits while the object is destroyed; the content of a block is a number.
- Admission.Admission.MoveAssign: an assignment of a ticket to itself does nothing in the code and is not a call here.
- AccessIdentity.IdentityVerifier.Verify: a token part is parsed by a parameter after its base64url form is checked; the two regions of a call are not interleaved with other calls. `Lookup` and `Store` are separate steps with their own contracts.
- The keys of the identity verifier and their PEM and JWK forms: parsers of external text.
- `TtlCache`, the Explorer, the usage store, HTTP handlers, pages, the route table, logs and telemetry.
