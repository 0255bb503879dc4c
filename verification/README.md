# Reply resolution for the intent-based chat backend

This project models the decision at the heart of the chat backend. A message has already
been scored by an external intent classifier, which yields a list of `(name, confidence)`
intents. The backend picks one intent, looks up a canned reply for it in the `Reply`
collection, and answers with `{ reply }`. It has two variants, and both are modelled
over the same `Intent` datatype:

- `GetReplyController.getReply` (module `ReplyController`) is read-only. It answers with the
  not-found sentinel when the list is absent or empty, or when every confidence is below
  0.4. Otherwise it looks up the most confident intent's name and returns the stored reply,
  or the sentinel when that reply is missing or empty. It is a pure function of the intent
  list and the collection's contents, so it cannot change the store. Its `query` component
  records the name passed to `findOne`, or `None` when the store is not consulted.
- The mounted `POST /getReply` handler (module `GetReplyRoute`) has no threshold. When no
  document matches, it saves a new one. Its answer falls back from the stored reply to the
  intent's name, and from the name to the sentinel. It is a method that updates the shared
  `ReplyCollection` and Express's response object. `Respond` is the pure function that
  specifies it.

Both variants select with `prev.confidence > curr.confidence ? prev : curr`. On equal
confidence this keeps `curr`, so the last of the equally most confident intents wins.
`Intents.IsLastMax` states this. The mounted route saves a document for an unmatched
intent, and the model follows the route.

On a miss, the route as written saves a document that has no `intent` key (see Findings).
`RespondAsWritten` models that. `Respond`, which the handler method is proved against,
saves the corrected document `{ intent: name }` instead. Both are instances of
`RespondWith`, which takes the document to save as a parameter.

The sentinel `Responses.NotFound` is the literal `'Sorry, no reply found.'` that the route
uses. The controller reads it from `src/util/Constants.ts`, which is not part of this model.
The proofs use only the fact that it is non-empty.

## Model

| member | source | states |
|---|---|---|
| `Intents.ReduceFrom` | src/controllers/ReplyController.ts:38-40 | Continuing the reduce from an accumulator that is so far the last maximum ends at the last index of maximal confidence. |
| `Intents.HighestConfidence` | src/routes/getReply.ts:27-29 | The reduce over a non-empty list returns an index whose confidence is at least every element's, and no later element reaches it. |
| `Intents.SelectHighest` | src/routes/getReply.ts:27-29 | The result is null exactly for the empty list. Otherwise it is an element of the list, at least as confident as every element, and sits at the last maximal position. |
| `Intents.HighestConfidenceIsTheLastMax` | src/controllers/ReplyController.ts:38-40 | An index satisfies the "last maximum" definition if and only if it is the one the reduce returns. |
| `Intents.TieGoesToTheLater` | src/controllers/ReplyController.ts:39 | When two positions share the maximal confidence, the earlier one is never selected and the winner is at or after the later one. |
| `Intents.HighestConfidenceSnoc` | src/controllers/ReplyController.ts:38-40 | Appending an intent changes the winner exactly as one more reduce step does: the old winner stays only if it is strictly more confident. |
| `Intents.AllBelowIffWinnerBelow` | src/controllers/ReplyController.ts:34-40 | `every(confidence < t)` holds on a non-empty list if and only if the selected intent's confidence is below `t`. |
| `ReplyStore.FindFirst` | src/util/db.ts:3-8 | The result is the position of the first document whose `intent` equals the name, or none when no document has it. |
| `ReplyStore.FindOne` | src/controllers/ReplyController.ts:46 | `findOne({ intent: name })` returns a document of the collection carrying that intent. It returns null if and only if no document carries it. |
| `ReplyStore.StoredReply` | src/controllers/ReplyController.ts:48 | `replyDoc?.reply` counts as given only when the document exists and its reply is present and non-empty. |
| `ReplyStore.FindOneAppend` | src/routes/getReply.ts:35-40 | Appending a document keeps every earlier hit. It turns a miss into a hit only when the new document carries the name. |
| `ReplyStore.ReplyCollection.Save` | src/routes/getReply.ts:38-39 | Saving appends exactly the given document and changes nothing else in the collection. |
| `ReplyController.GetReply` | src/controllers/ReplyController.ts:26-49 | The reply is never empty. The store is queried if and only if the list is present, non-empty and not entirely below 0.4; otherwise the answer is the sentinel. The key queried is the name of the last most confident intent, whose confidence is at least 0.4. The answer is that document's non-empty reply, else the sentinel. |
| `ReplyController.LowConfidenceExample` | __tests__/test.ts:106-118 | For confidences 0.3 and 0.2 the answer is the sentinel, and no lookup is made. |
| `ReplyController.MostConfidentExample` | __tests__/test.ts:130-143 | Between Farewell at 0.7 and Greeting at 0.9, Greeting is looked up and its stored reply is returned. |
| `ReplyController.MissingDocumentExample` | src/controllers/ReplyController.ts:46-48 | A confident intent with no stored document is looked up, and the answer is the sentinel. |
| `GetReplyRoute.HttpResponse.Json` | src/routes/getReply.ts:42 | Each `res.json` call sends exactly one body. |
| `GetReplyRoute.AsWrittenRecord` | src/routes/getReply.ts:38 | No lookup by any name finds the document built from the intent object as written, and it carries no reply text. |
| `GetReplyRoute.SeedRecord` | src/routes/getReply.ts:37-39 | The seeded document is found by the selected intent's name and carries no reply text. |
| `GetReplyRoute.FallbackReply` | src/routes/getReply.ts:42 | The reply is never empty. It is the stored non-empty reply, else the intent's non-empty name, else the sentinel. |
| `GetReplyRoute.RespondWith` | src/routes/getReply.ts:27-42 | An empty list gives the sentinel and leaves the collection unchanged. Otherwise the key is the last most confident intent's name. A hit leaves the collection unchanged, and a miss appends exactly the given document. The reply follows the three-way fallback and is never empty. |
| `GetReplyRoute.RespondAsWritten` | src/routes/getReply.ts:27-42 | The same as `RespondWith`, where a miss appends the document without `intent` that the code builds. |
| `GetReplyRoute.Respond` | src/routes/getReply.ts:27-42 | An empty list gives the sentinel and leaves the collection unchanged. Otherwise the key is the last most confident intent's name. A hit leaves the collection unchanged, and a miss appends exactly one seed document. The reply follows the three-way fallback and is never empty. |
| `GetReplyRoute.HandleGetReply` | src/routes/getReply.ts:22-44 | An undefined intent list rejects with a TypeError, and nothing is sent or saved. Otherwise the handler completes. Exactly one body is sent, and the collection becomes what `Respond` gives. |
| `GetReplyRoute.NoThreshold` | src/routes/getReply.ts:27-40 | On a miss, any non-empty list seeds a document for its most confident intent, however low that intent's confidence. |
| `GetReplyRoute.RepeatedRequestIsStable` | src/routes/getReply.ts:35-42 | A second identical request sends the same reply and leaves the collection exactly as the first request left it. |
| `GetReplyRoute.AsWrittenSeedStaysMissing` | src/routes/getReply.ts:38-39 | After the as-written insert, looking up the same name still misses. |
| `GetReplyRoute.AsWrittenMissRepeats` | src/routes/getReply.ts:35-42 | As written, repeating a request that missed sends the same reply and saves a second identical document. |
| `GetReplyRoute.VariantsAgreeOnStoredReply` | src/routes/getReply.ts:27-42 | When the controller finds a non-empty stored reply, the route sends the same text and writes nothing. |
| `GetReplyRoute.LowConfidenceThroughRoute` | __tests__/test.ts:106-118 | For the parsed intents `{ name: "some_intent" }` at confidences 0.3 and 0.2, with no document, the route as written answers `some_intent` and saves a document without `intent`. The controller answers with the sentinel. |
| `GetReplyRoute.MostConfidentThroughRoute` | __tests__/test.ts:130-143 | Between Farewell at 0.7 and Greeting at 0.9, the route sends Greeting's stored reply and writes nothing. |

## Left out

- The intent classifier call (`fetchIntents`: the HTTP request, the API key, JSON decoding and schema parsing) is out of scope. Its answer is the input `Option<seq<Intent>>`. A classifier failure, which the handlers propagate, is not modelled.
- Request-body validation (`validateSchema`), the promise adapter (`onPromise`), the error middleware (`onError`), server bootstrapping, database seeding and the test-only error route are library glue or I/O, and are not modelled. The route's rejection is modelled only as `Rejected(LengthOfUndefined)`, not as the 500 answer the middleware then produces.
- The MongoDB collection is a sequence of documents in insertion order, and `findOne` returns the first match. Document ids, fields outside the schema, store failures and concurrent writers are not modelled.
- `src/util/Constants.ts` is not part of this model. The controller's sentinel is assumed to be the route's literal.
- The awaits run one after another, so they are modelled as ordinary calls. The store read in the controller is a read of the `records` value it is given.
- `GetReplyRoute.HandleGetReply`: on a miss it saves `SeedRecord` (`{ intent: name }`), not the key-less document the code builds. See Findings. `AsWrittenRecord` models what the code saves.
- `GetReplyRoute.SeedRecord`: this is the corrected document for a miss, not the one the code builds. `GetReplyRoute.AsWrittenRecord` is the one the code builds.
- `GetReplyRoute.Respond`: on a miss it appends the corrected `SeedRecord`. `GetReplyRoute.RespondAsWritten` appends what the code saves.
- `GetReplyRoute.LowConfidenceThroughRoute`: its input is the parsed `{ name, confidence }` shape. The test it mirrors stubs the classifier with objects that also carry `intent: 'some_intent'`, and the stub skips the schema parse, so in that test the saved document does have that `intent`. An `Intent` here cannot hold the extra key. The reply, `some_intent`, is the same either way.
- `GetReplyRoute.NoThreshold`: its statement that the appended document carries the name holds for the corrected seed. As written, the appended document has no `intent` (`GetReplyRoute.AsWrittenSeedStaysMissing`).

## Findings

| source | as written | input that shows it | evidently intended | confidence | as-written member | corrected member |
|---|---|---|---|---|---|---|
| src/routes/getReply.ts:38 | `new Reply(highestConfidenceIntent)` builds the document from an object whose keys are `name` and `confidence`. The schema keys are `intent` and `reply`, so the saved document has no `intent`. | An empty collection and intents `[{ name: "Greeting", confidence: 0.9 }]`, posted twice. After the first save, `findOne({ intent: "Greeting" })` still misses, so the second request saves another document. Every later request does the same. | Save `{ intent: name }`, so that the next request finds the seeded document and the collection stops growing. | medium, not executed | `GetReplyRoute.AsWrittenMissRepeats` | `GetReplyRoute.RepeatedRequestIsStable` |
| src/routes/getReply.ts:27-29 | The mounted handler has no confidence threshold. The test at `__tests__/test.ts:106-118` posts to it and expects the sentinel for two intents under 0.4. | Intents `[{ name: "some_intent", confidence: 0.3 }, { name: "some_intent", confidence: 0.2 }]`, with `findOne` answering null. The route answers `some_intent`. | Apply the 0.4 threshold before selecting, as `GetReplyController.getReply` does, and answer with the sentinel. | medium, not executed | `GetReplyRoute.LowConfidenceThroughRoute` | `ReplyController.LowConfidenceExample` |
