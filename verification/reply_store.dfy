/** The `Reply` collection: documents `{ intent, reply }`, looked up by intent name. */
module ReplyStore {
  import opened Wrappers

  /** A stored document. Both schema fields are optional strings: a document
      may lack either of them. */
  datatype ReplyRecord = ReplyRecord(intent: Option<string>, reply: Option<string>)

  /** Position of the first document whose `intent` equals `name`, if any. */
  function FindFirst(records: seq<ReplyRecord>, name: string): (r: Option<nat>)
    ensures r.Some? ==> r.value < |records| && records[r.value].intent == Some(name)
    ensures r.Some? ==> forall j :: 0 <= j < r.value ==> records[j].intent != Some(name)
    ensures r.None? ==> forall j :: 0 <= j < |records| ==> records[j].intent != Some(name)
  {
    if |records| == 0 then None
    else if records[0].intent == Some(name) then Some(0)
    else
      match FindFirst(records[1..], name)
      case None => None
      case Some(k) => Some(k + 1)
  }

  /** `Reply.findOne({ intent: name })`: the first matching document, or null. */
  function FindOne(records: seq<ReplyRecord>, name: string): (doc: Option<ReplyRecord>)
    ensures doc.Some? ==> doc.value in records && doc.value.intent == Some(name)
    ensures doc.None? <==> forall j :: 0 <= j < |records| ==> records[j].intent != Some(name)
  {
    match FindFirst(records, name)
    case None => None
    case Some(k) => Some(records[k])
  }

  /** `replyDoc?.reply` when it is truthy: the document exists and its reply
      is present and non-empty (JavaScript treats `""` as false). */
  function StoredReply(doc: Option<ReplyRecord>): (r: Option<string>)
    ensures r.Some? ==> r.value != ""
    ensures r.Some? ==> doc.Some? && doc.value.reply == r
    ensures r.None? ==> doc.None? || doc.value.reply.None? || doc.value.reply == Some("")
  {
    if doc.Some? && doc.value.reply.Some? && doc.value.reply.value != "" then doc.value.reply
    else None
  }

  /** Appending a document never changes what an earlier match answers; it can
      only turn a miss into a hit on the appended document. */
  lemma {:induction false} FindOneAppend(records: seq<ReplyRecord>, doc: ReplyRecord, name: string)
    ensures FindOne(records + [doc], name) ==
      if FindOne(records, name).Some? then FindOne(records, name)
      else if doc.intent == Some(name) then Some(doc)
      else None
  {
    var t := records + [doc];
    assert forall j :: 0 <= j < |records| ==> t[j] == records[j];
    match FindFirst(records, name)
    case Some(k) =>
      var k' := FindFirst(t, name);
      assert k'.Some? by { assert t[k].intent == Some(name); }
    case None =>
      assert t[|records|] == doc;
  }

  /** The shared `Reply` collection, updated in place by `save()`. */
  class ReplyCollection {
    var records: seq<ReplyRecord>

    constructor (initial: seq<ReplyRecord>)
      ensures records == initial
    {
      records := initial;
    }

    /** `new Reply(doc).save()`: the collection gains exactly this one document. */
    method Save(doc: ReplyRecord)
      modifies this
      ensures records == old(records) + [doc]
    {
      records := records + [doc];
    }
  }
}
