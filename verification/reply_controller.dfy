/** `GetReplyController.getReply`: the thresholded, read-only variant. */
module ReplyController {
  import opened Wrappers
  import opened Intents
  import opened ReplyStore
  import opened Responses

  /** Below this confidence an intent counts as not recognised at all. */
  const ConfidenceThreshold: real := 0.4

  /** What one call produces: the `{ reply }` body, and the intent name passed
      to `Reply.findOne`, or None when the store is not consulted. */
  datatype Resolution = Resolution(body: ReplyBody, query: Option<string>)

  /** The controller action, given the classifier's answer (`undefined` is None)
      and the current contents of the reply collection, which it only reads. */
  function GetReply(intents: Option<seq<Intent>>, records: seq<ReplyRecord>): (r: Resolution)
    ensures r.body.reply != ""
    ensures r.query.None? <==>
      intents.None? || |intents.value| == 0 || AllBelow(intents.value, ConfidenceThreshold)
    ensures r.query.None? ==> r.body.reply == NotFound
    ensures r.query.Some? ==> exists k :: && IsLastMax(intents.value, k)
                                          && intents.value[k].confidence >= ConfidenceThreshold
                                          && r.query.value == intents.value[k].name
    ensures r.query.Some? ==> match FindOne(records, r.query.value)
                              case Some(doc) => r.body.reply == if doc.reply.Some? && doc.reply.value != ""
                                                                then doc.reply.value else NotFound
                              case None => r.body.reply == NotFound
  {
    if intents.None? || |intents.value| == 0 then Resolution(ReplyBody(NotFound), None)
    else if AllBelow(intents.value, ConfidenceThreshold) then Resolution(ReplyBody(NotFound), None)
    else
      var highest := SelectHighest(intents.value);
      if highest.None? then Resolution(ReplyBody(NotFound), None)
      else
        AllBelowIffWinnerBelow(intents.value, ConfidenceThreshold);
        var replyDoc := FindOne(records, highest.value.name);
        Resolution(ReplyBody(StoredReply(replyDoc).GetOr(NotFound)), Some(highest.value.name))
  }

  /** Two intents both under the threshold: the sentinel, and no lookup. */
  lemma LowConfidenceExample(records: seq<ReplyRecord>)
    ensures GetReply(Some([Intent("some_intent", 0.3), Intent("some_intent", 0.2)]), records)
            == Resolution(ReplyBody(NotFound), None)
  {
  }

  /** The more confident of two intents is looked up, and its stored reply returned. */
  lemma MostConfidentExample()
    ensures GetReply(Some([Intent("Farewell", 0.7), Intent("Greeting", 0.9)]),
                     [ReplyRecord(Some("Greeting"), Some("Greeting"))])
            == Resolution(ReplyBody("Greeting"), Some("Greeting"))
  {
    var s := [Intent("Farewell", 0.7), Intent("Greeting", 0.9)];
    assert HighestConfidence(s) == 1;
  }

  /** A confident intent with no stored document still gets the sentinel. */
  lemma MissingDocumentExample()
    ensures GetReply(Some([Intent("Greeting", 0.9)]), []) == Resolution(ReplyBody(NotFound), Some("Greeting"))
  {
    assert HighestConfidence([Intent("Greeting", 0.9)]) == 0;
  }
}
