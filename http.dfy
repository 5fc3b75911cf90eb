/** What the handlers read from a request and write back, as values. */
module Http {

  const StatusOK: int := 200
  const StatusAccepted: int := 202
  const StatusNoContent: int := 204
  const StatusBadRequest: int := 400
  const StatusInternalServerError: int := 500

  /**
   * A reply body: text, or the message of the strconv error raised on parsing input (followed
   * by the newline http.Error adds), whose wording belongs to the library and is not spelled out.
   */
  datatype Body = Text(text: string) | ParseErrorText(input: string)

  datatype Response = Response(code: int, body: Body)

  /** A POST to a status endpoint: the reply and the status it leaves behind. */
  datatype PostOutcome = PostOutcome(reply: Response, status: int)

  /** The outcome of io.ReadAll on a request body: its error message, or the bytes read as text. */
  datatype BodyRead = ReadFailed(message: string) | Received(content: string)
}
