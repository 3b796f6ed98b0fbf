/** The generative-text backend, seen only through its results. A request is one
    `client.models.generate_content(model=..., contents=...)` call; its outcome is the
    response's text, a response without text, or the message of the exception the call
    raised. */
module Gemini {

  /** One `generate_content` request: the model identifier and the prompt text. */
  datatype Call = Call(model: string, contents: string)

  /** What a request produced: the response's text; a response whose `text` is `None`
      (no candidate or no text part, as for a blocked prompt); or `str(e)` for the
      exception `e` the call raised. */
  datatype Reply = Ok(text: string) | NoText | Err(msg: string)

  /** The backend as a whole: which reply each request would get. */
  type Backend = Call -> Reply

  /** A service result together with the backend requests issued to compute it, in order. */
  datatype Traced<T> = Traced(value: T, calls: seq<Call>)
}
