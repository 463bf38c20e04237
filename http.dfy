/** What the HTTP layer hands back to main.py: a status code and a body. */
module Http {

  datatype HttpResponse = HttpResponse(status: int, text: string)

  /** The outcome of one call into requests: a response, or an exception
      (timeout, connection error, ...) that was raised instead. */
  datatype CallOutcome = Responded(response: HttpResponse) | Raised
}
