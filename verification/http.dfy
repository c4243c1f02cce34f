/** The few pieces of `net/http` the handlers' replies are made of. */
module Http {
  const StatusOK := 200
  const StatusTemporaryRedirect := 307
  const StatusBadRequest := 400
  const StatusUnauthorized := 401
  const StatusNotFound := 404
  const StatusInternalServerError := 500

  /** A reply body: text this code composes, or the message of an error
      raised by a library outside the model (transport, store, status line). */
  datatype Body = Text(text: string) | LibraryMessage

  /** A `Redirect` records the target as passed to `http.Redirect`, before
      it is resolved against the request path. */
  datatype Reply =
    | Plain(status: int, body: Body)
    | Redirect(status: int, target: string)

  /** `http.StatusText` for the codes the handlers answer with themselves. */
  function StatusText(code: int): string {
    if code == StatusUnauthorized then "Unauthorized"
    else if code == StatusNotFound then "Not Found"
    else ""
  }

  /** `http.Error`: the status, and the message followed by a newline. */
  function Error(message: string, code: int): (r: Reply)
    ensures r.Plain? && r.status == code
    ensures r.body.Text? && |r.body.text| == |message| + 1
    ensures r.body.text[..|message|] == message && r.body.text[|message|] == '\n'
  {
    Plain(code, Text(message + "\n"))
  }

  /** An error whose message comes from a library: `handleHTTPError(w, err.Error(), code)`. */
  function LibraryError(code: int): (r: Reply)
    ensures r.Plain? && r.status == code && r.body == LibraryMessage
  {
    Plain(code, LibraryMessage)
  }
}
