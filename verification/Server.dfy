/**
 * The HTTP surface: the POST /api/send-email handler as a decision from the
 * parsed JSON body and the outcome of `sendEmail` to a status and a JSON
 * body, and the constant GET / liveness answer. `Serve` wires the handler to
 * the modelled `sendEmail` to state end-to-end properties.
 */
module Server {
  import opened Wrappers
  import opened EmailService

  /** A parsed JSON request body whose values are strings. */
  type JsonObject = map<string, string>

  /** How the awaited call to `sendEmail` ends: it returns, or it throws. */
  datatype Callee = Returned(result: SendResult) | Threw

  /** `{message}` or `{error}` as JSON, or a plain-text body. */
  datatype Body = Message(message: string) | Error(error: string) | Text(text: string)

  datatype Response = Response(status: nat, body: Body)

  /** The response, and the argument `sendEmail` was called with, if it was called. */
  datatype Handled = Handled(response: Response, call: Option<Submission>)

  const AllFieldsRequired := "All fields are required"
  const EmailSent := "Email sent successfully"
  const FailedToSend := "Failed to send email"
  const SomethingWentWrong := "Something went wrong"
  const BackendRunning := "Backend is running \U{1F680}"

  /** Destructuring one property of the body: absent keys are `undefined`. */
  function Field(body: JsonObject, key: string): Option<string>
  {
    if key in body then Some(body[key]) else None
  }

  /** `name`, `email`, `phone` and `message` are all present and truthy. */
  predicate AllFieldsPresent(body: JsonObject)
  {
    Truthy(Field(body, "name")) && Truthy(Field(body, "email"))
    && Truthy(Field(body, "phone")) && Truthy(Field(body, "message"))
  }

  /** The four destructured fields, the only ones handed to `sendEmail`. */
  function Destructure(body: JsonObject): Submission
    requires AllFieldsPresent(body)
  {
    Submission(body["name"], body["email"], body["phone"], body["message"])
  }

  /**
   * The POST /api/send-email handler. `sendEmail` stands for the awaited
   * call; its outcome is consulted only once the four fields are present.
   */
  function HandleSendEmail(body: JsonObject, sendEmail: Submission -> Callee): (h: Handled)
    ensures h.call.None? <==> !AllFieldsPresent(body)
    ensures h.call.None? ==> h.response == Response(400, Error(AllFieldsRequired))
    ensures h.call.Some? ==> h.call.value == Submission(body["name"], body["email"], body["phone"], body["message"])
    ensures h.call.Some? && sendEmail(h.call.value) == Returned(Success) ==>
              h.response == Response(200, Message(EmailSent))
    ensures h.call.Some? && sendEmail(h.call.value).Returned? && sendEmail(h.call.value).result.Failure? ==>
              h.response == Response(500, Error(FailedToSend))
    ensures h.call.Some? && sendEmail(h.call.value).Threw? ==>
              h.response == Response(500, Error(SomethingWentWrong))
    ensures h.response.status == 200 <==> h.call.Some? && sendEmail(h.call.value) == Returned(Success)
  {
    if !AllFieldsPresent(body) then
      Handled(Response(400, Error(AllFieldsRequired)), None)
    else
      var submission := Destructure(body);
      var response :=
        match sendEmail(submission)
        case Returned(Success) => Response(200, Message(EmailSent))
        case Returned(Failure(_)) => Response(500, Error(FailedToSend))
        case Threw => Response(500, Error(SomethingWentWrong));
      Handled(response, Some(submission))
  }

  /** GET /: always 200 with the fixed liveness text, whatever the request. */
  function Liveness(): (r: Response)
    ensures r.status == 200 && r.body.Text? && r.body.text == BackendRunning
  {
    Response(200, Text(BackendRunning))
  }

  /** Keys other than the four fields never change what the handler does. */
  lemma OtherFieldsIgnored(b1: JsonObject, b2: JsonObject, sendEmail: Submission -> Callee)
    requires forall k :: k in {"name", "email", "phone", "message"} ==>
               Field(b1, k) == Field(b2, k)
    ensures HandleSendEmail(b1, sendEmail) == HandleSendEmail(b2, sendEmail)
  {
    assert Field(b1, "name") == Field(b2, "name");
    assert Field(b1, "email") == Field(b2, "email");
    assert Field(b1, "phone") == Field(b2, "phone");
    assert Field(b1, "message") == Field(b2, "message");
  }

  /**
   * The handler's check is at least as strict as `sendEmail`'s own: what it
   * passes on always has the four fields, so the duplicate check in
   * `sendEmail` never fires on this route.
   */
  lemma HandlerCallPassesServiceCheck(body: JsonObject, sendEmail: Submission -> Callee)
    ensures HandleSendEmail(body, sendEmail).call.Some? ==>
              HasRequiredFields(HandleSendEmail(body, sendEmail).call.value)
  {
  }

  // ---------------------------------------------------------------- end to end

  /** The route's response, and the payload posted to the provider, if any. */
  datatype Exchange = Exchange(response: Response, outbound: Option<Payload>)

  /** The route wired to the modelled `sendEmail`, under configuration `c`. */
  function Serve(body: JsonObject, c: Config, outcome: ProviderOutcome): Exchange
  {
    var h := HandleSendEmail(body, s => Returned(SendEmail(s, c, outcome).result));
    var outbound := if h.call.Some? then SendEmail(h.call.value, c, outcome).request else None;
    Exchange(h.response, outbound)
  }

  /**
   * End to end: a missing field is 400 with no outbound call; otherwise
   * exactly one call is made iff the configuration is complete, 200 comes
   * exactly from an accepted call, and every other case is 500
   * 'Failed to send email'. The exception branch is never taken, since the
   * modelled `sendEmail` does not throw.
   */
  lemma ServeOutcomes(body: JsonObject, c: Config, outcome: ProviderOutcome)
    ensures var x := Serve(body, c, outcome);
      && (!AllFieldsPresent(body) ==> x == Exchange(Response(400, Error(AllFieldsRequired)), None))
      && (AllFieldsPresent(body) ==> (x.outbound.Some? <==> ConfigComplete(c)))
      && (x.response.status == 200 <==> AllFieldsPresent(body) && ConfigComplete(c) && outcome == Accepted)
      && (x.response.status == 200 ==> x.response.body == Message(EmailSent))
      && (AllFieldsPresent(body) && x.response.status != 200 ==>
            x.response == Response(500, Error(FailedToSend)))
      && x.response.body != Error(SomethingWentWrong)
  {
  }

  /**
   * Whenever the route posts to the provider, the HTML body carries the
   * submitted name, email, phone and message verbatim, in that order.
   */
  lemma ServeForwardsFields(body: JsonObject, c: Config, outcome: ProviderOutcome)
    requires Serve(body, c, outcome).outbound.Some?
    ensures AllFieldsPresent(body)
    ensures var p := Serve(body, c, outcome).outbound.value;
      |p.content| == 1 && p.content[0].contentType == HtmlType
      && InOrder(p.content[0].value, [body["name"], body["email"], body["phone"], body["message"]])
  {
    var s := Destructure(body);
    SentPayload(s, c, outcome);
  }

  /**
   * The sample request `{name: "Jo", email: "jo@x.com", phone: "555",
   * message: "hi"}` with a complete configuration and an accepting provider
   * is answered 200 'Email sent successfully'.
   */
  lemma AcceptedSampleRequest(c: Config)
    requires ConfigComplete(c)
    ensures Serve(map["name" := "Jo", "email" := "jo@x.com", "phone" := "555", "message" := "hi"], c, Accepted).response
            == Response(200, Message(EmailSent))
  {
    ServeOutcomes(map["name" := "Jo", "email" := "jo@x.com", "phone" := "555", "message" := "hi"], c, Accepted);
  }
}
