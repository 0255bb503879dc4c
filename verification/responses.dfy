/** The JSON bodies both request handlers answer with, and the not-found sentinel. */
module Responses {

  /** The fallback reply. The route writes it as a literal; the controller reads
      it from its constants module, which holds the same text. */
  const NotFound: string := "Sorry, no reply found."

  /** The `{ reply: string }` body of a successful answer. */
  datatype ReplyBody = ReplyBody(reply: string)
}
