/** The `POST /getReply` handler: no threshold, and a missing document is seeded. */
module GetReplyRoute {
  import opened Wrappers
  import opened Intents
  import opened ReplyStore
  import opened Responses
  import ReplyController

  /** The one failure modelled: the classifier gave `undefined` and
      `intents.length` throws a TypeError, which the error middleware answers. */
  datatype RouteError = LengthOfUndefined

  /** How the async handler ends: its promise resolves, or rejects with an error. */
  datatype Completion = Completed | Rejected(error: RouteError)

  /** The outcome of one request on intents and a collection: the reply text
      and the collection afterwards. */
  datatype RouteResult = RouteResult(reply: string, records: seq<ReplyRecord>)

  /** Express's response object: every `res.json(body)` sends one body. */
  class HttpResponse {
    var sent: seq<ReplyBody>

    constructor ()
      ensures sent == []
    {
      sent := [];
    }

    method Json(body: ReplyBody)
      modifies this
      ensures sent == old(sent) + [body]
    {
      sent := sent + [body];
    }
  }

  /** `new Reply(highestConfidenceIntent)` as written: the intent object has
      the keys `name` and `confidence`, neither of which is a schema key, so the
      document carries no `intent` and no `reply`. */
  function AsWrittenRecord(selected: Intent): (doc: ReplyRecord)
    ensures forall name :: FindOne([doc], name).None?
    ensures StoredReply(Some(doc)).None?
  {
    ReplyRecord(None, None)
  }

  /** The document the miss branch evidently means to store: one keyed by the
      selected intent's name, with no reply text yet. */
  function SeedRecord(selected: Intent): (doc: ReplyRecord)
    ensures FindOne([doc], selected.name) == Some(doc)
    ensures StoredReply(Some(doc)).None?
  {
    ReplyRecord(Some(selected.name), None)
  }

  /** `replyDoc?.reply || highestConfidenceIntent.name || 'Sorry, no reply found.'`. */
  function FallbackReply(replyDoc: Option<ReplyRecord>, selected: Intent): (r: string)
    ensures r != ""
    ensures StoredReply(replyDoc).Some? ==> r == StoredReply(replyDoc).value
    ensures StoredReply(replyDoc).None? && selected.name != "" ==> r == selected.name
    ensures StoredReply(replyDoc).None? && selected.name == "" ==> r == NotFound
  {
    if StoredReply(replyDoc).Some? then StoredReply(replyDoc).value
    else if selected.name != "" then selected.name
    else NotFound
  }

  /** What one request does to a collection holding `records`, for a defined
      intent list, when a miss saves `seed(selected)`: the reply it sends and
      the collection it leaves behind. */
  function RespondWith(intents: seq<Intent>, records: seq<ReplyRecord>, seed: Intent -> ReplyRecord): (r: RouteResult)
    ensures r.reply != ""
    ensures |intents| == 0 ==> r == RouteResult(NotFound, records)
    ensures |intents| > 0 ==>
      var selected := intents[HighestConfidence(intents)];
      && (FindOne(records, selected.name).Some? ==> r.records == records)
      && (FindOne(records, selected.name).None? ==> r.records == records + [seed(selected)])
      && r.reply == FallbackReply(FindOne(records, selected.name), selected)
  {
    match SelectHighest(intents)
    case None => RouteResult(NotFound, records)
    case Some(selected) =>
      var replyDoc := FindOne(records, selected.name);
      var after := if replyDoc.None? then records + [seed(selected)] else records;
      RouteResult(FallbackReply(replyDoc, selected), after)
  }

  /** The route as written: a miss saves the document without an `intent`. */
  function RespondAsWritten(intents: seq<Intent>, records: seq<ReplyRecord>): (r: RouteResult)
    ensures r.reply != ""
    ensures |intents| == 0 ==> r == RouteResult(NotFound, records)
    ensures |intents| > 0 ==>
      var selected := intents[HighestConfidence(intents)];
      && (FindOne(records, selected.name).Some? ==> r.records == records)
      && (FindOne(records, selected.name).None? ==> r.records == records + [AsWrittenRecord(selected)])
      && r.reply == FallbackReply(FindOne(records, selected.name), selected)
  {
    RespondWith(intents, records, AsWrittenRecord)
  }

  /** The route with the corrected seed: a miss saves a document keyed by the
      selected intent's name. */
  function Respond(intents: seq<Intent>, records: seq<ReplyRecord>): (r: RouteResult)
    ensures r.reply != ""
    ensures |intents| == 0 ==> r == RouteResult(NotFound, records)
    ensures |intents| > 0 ==>
      var selected := intents[HighestConfidence(intents)];
      && (FindOne(records, selected.name).Some? ==> r.records == records)
      && (FindOne(records, selected.name).None? ==> r.records == records + [SeedRecord(selected)])
      && r.reply == FallbackReply(FindOne(records, selected.name), selected)
  {
    RespondWith(intents, records, SeedRecord)
  }

  /** The handler body, on the classifier's answer `fetched`, the shared
      collection and the response object. */
  method HandleGetReply(fetched: Option<seq<Intent>>, store: ReplyCollection, res: HttpResponse)
    returns (c: Completion)
    modifies store, res
    ensures fetched.None? ==>
      c == Rejected(LengthOfUndefined) && store.records == old(store.records) && res.sent == old(res.sent)
    ensures fetched.Some? ==> c == Completed
    ensures fetched.Some? ==>
      var r := Respond(fetched.value, old(store.records));
      && store.records == r.records
      && res.sent == old(res.sent) + [ReplyBody(r.reply)]
  {
    if fetched.None? {
      return Rejected(LengthOfUndefined);
    }
    var intents := fetched.value;
    var highestConfidenceIntent := SelectHighest(intents);
    if highestConfidenceIntent.None? {
      res.Json(ReplyBody(NotFound));
    } else {
      var selected := highestConfidenceIntent.value;
      var replyDoc := FindOne(store.records, selected.name);
      if replyDoc.None? {
        store.Save(SeedRecord(selected));
      }
      res.Json(ReplyBody(FallbackReply(replyDoc, selected)));
    }
    return Completed;
  }

  /** No threshold: a non-empty list always consults the store for its most
      confident intent, however low that confidence is. */
  lemma {:induction false} NoThreshold(intents: seq<Intent>, records: seq<ReplyRecord>)
    requires |intents| > 0
    requires FindOne(records, intents[HighestConfidence(intents)].name).None?
    ensures |Respond(intents, records).records| == |records| + 1
    ensures Respond(intents, records).records[|records|].intent == Some(intents[HighestConfidence(intents)].name)
  {
  }

  /** A second identical request finds the document the first one seeded: it
      sends the same reply and leaves the collection as it was. */
  lemma {:induction false} RepeatedRequestIsStable(intents: seq<Intent>, records: seq<ReplyRecord>)
    ensures Respond(intents, Respond(intents, records).records)
            == RouteResult(Respond(intents, records).reply, Respond(intents, records).records)
  {
    if |intents| > 0 {
      var selected := intents[HighestConfidence(intents)];
      if FindOne(records, selected.name).None? {
        FindOneAppend(records, SeedRecord(selected), selected.name);
      }
    }
  }

  /** As written, the seeded document can never be found by the name it was
      seeded for: a lookup after the insert misses again, so every later
      request for that intent inserts yet another document. */
  lemma {:induction false} AsWrittenSeedStaysMissing(records: seq<ReplyRecord>, selected: Intent)
    requires FindOne(records, selected.name).None?
    ensures FindOne(records + [AsWrittenRecord(selected)], selected.name).None?
  {
    FindOneAppend(records, AsWrittenRecord(selected), selected.name);
  }

  /** The two variants agree when the controller's lookup succeeds with a
      non-empty reply: the route sends the same text and writes nothing. */
  lemma {:induction false} VariantsAgreeOnStoredReply(intents: seq<Intent>, records: seq<ReplyRecord>)
    requires |intents| > 0
    requires !AllBelow(intents, ReplyController.ConfidenceThreshold)
    requires StoredReply(FindOne(records, intents[HighestConfidence(intents)].name)).Some?
    ensures Respond(intents, records) == RouteResult(ReplyController.GetReply(Some(intents), records).body.reply, records)
  {
    var s := intents;
    var h := HighestConfidence(s);
    var q := ReplyController.GetReply(Some(s), records).query;
    assert q.Some?;
    HighestConfidenceIsTheLastMax(s, h);
    assert q == Some(s[h].name);
  }

  /** Two parsed intents under 0.4 and no stored document: the route as written
      answers with the more confident intent's name and saves a document without
      `intent`, where the controller (and the expectation written beside the
      route's tests) gives the sentinel. */
  lemma LowConfidenceThroughRoute()
    ensures RespondAsWritten([Intent("some_intent", 0.3), Intent("some_intent", 0.2)], [])
            == RouteResult("some_intent", [AsWrittenRecord(Intent("some_intent", 0.3))])
    ensures ReplyController.GetReply(Some([Intent("some_intent", 0.3), Intent("some_intent", 0.2)]), []).body
            == ReplyBody(NotFound)
  {
    assert HighestConfidence([Intent("some_intent", 0.3), Intent("some_intent", 0.2)]) == 0;
  }

  /** The more confident of two intents is looked up, its stored reply sent,
      and nothing is written. */
  lemma MostConfidentThroughRoute()
    ensures Respond([Intent("Farewell", 0.7), Intent("Greeting", 0.9)],
                    [ReplyRecord(Some("Greeting"), Some("Greeting"))])
            == RouteResult("Greeting", [ReplyRecord(Some("Greeting"), Some("Greeting"))])
  {
    assert HighestConfidence([Intent("Farewell", 0.7), Intent("Greeting", 0.9)]) == 1;
  }

  /** As written, a request that misses leaves the collection still missing:
      the same request again sends the same reply and saves a second document. */
  lemma {:induction false} AsWrittenMissRepeats(intents: seq<Intent>, records: seq<ReplyRecord>)
    requires |intents| > 0
    requires FindOne(records, intents[HighestConfidence(intents)].name).None?
    ensures
      var selected := intents[HighestConfidence(intents)];
      var first := RespondAsWritten(intents, records);
      var second := RespondAsWritten(intents, first.records);
      && second.reply == first.reply
      && second.records == records + [AsWrittenRecord(selected), AsWrittenRecord(selected)]
  {
    AsWrittenSeedStaysMissing(records, intents[HighestConfidence(intents)]);
  }
}
