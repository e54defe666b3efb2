# Contact-form relay — Dafny model

The repository is a small Express backend. Its one route, POST
`/api/send-email`, takes a contact-form submission (`name`, `email`, `phone`,
`message`). It hands the submission to `sendEmail`. `sendEmail` re-checks the
fields, reads the provider configuration (`SENDGRID_API_KEY`, `FROM_EMAIL`,
and a comma-separated `TO_EMAILS`), builds one SendGrid mail-send payload
whose HTML body embeds the four fields verbatim, posts it once, and folds the
outcome into `{success: true}` or `{success: false, error}`. The handler maps
that result to 200, 400 or 500 with a JSON body. `GET /` is a constant
liveness answer.

Both source files are pure decision and string logic around one network call,
so the model is functions and lemmas:

- `Strings.dfy` — JavaScript `split` on one character, `trim` (the ECMAScript
  WhiteSpace and LineTerminator set) and `join`, with the split/join round
  trip in both directions and an exact characterisation of `trim`.
- `EmailService.dfy` — `sendEmail` as `SendEmail(submission, config, outcome)`.
  The environment is the explicit `Config` (`None` = unset variable). The
  result of the one `axios.post` is the input `ProviderOutcome` (`Accepted` is
  a 2xx answer, `Rejected` a non-2xx answer, `TransportError` no answer). The
  returned `SendAttempt` holds the `SendResult` and, exactly when the call is
  made, the payload posted.
- `Server.dfy` — the POST handler as `HandleSendEmail(body, sendEmail)`, where
  `sendEmail` is a function returning `Returned(result)` or `Threw` (so the
  `catch` branch is covered). Also the `GET /` answer, and `Serve`, which wires
  the handler to `SendEmail` for end-to-end properties.
- `Wrappers.dfy` — `Option`.

JavaScript falsiness is modelled exactly: an unset value or the empty string
fails a check. The model follows the code where a stricter reading of the
system would differ:

- Required fields are checked for falsiness only (`!name`), not for being
  non-empty after trimming. A whitespace-only field passes
  (`EmailService.WhitespaceFieldsAccepted`).
- The HTML body embeds the fields without HTML escaping
  (`EmailService.HtmlBodyEmbedsFields` states containment of the raw text).
- Configuration is read on every call, which the explicit `Config` argument of
  every `SendEmail` call reflects.

## Model

| member | source | states |
|---|---|---|
| `Strings.Split` | services/email.service.js:36-37 | `split(',')` yields at least one piece, and no piece contains the separator |
| `Strings.JoinSplit` | services/email.service.js:37 | joining the pieces of a split with the separator gives the input back |
| `Strings.SplitJoin` | services/email.service.js:37 | splitting a join of separator-free pieces gives the pieces back |
| `Strings.SplitAppend` | services/email.service.js:37 | a separator splits `a,b` into `a` followed by the pieces of `b` |
| `Strings.SplitNoSeparator` | services/email.service.js:37 | a string without the separator is a single piece |
| `Strings.TrimSpec` | services/email.service.js:38 | `Trim(s)` is `s` minus a whitespace prefix and a whitespace suffix, with no whitespace left at either end |
| `Strings.TrimOfIsTrim` | services/email.service.js:38 | any string related to `s` that way equals `Trim(s)`, so the characterisation is complete |
| `Strings.TrimOfUnique` | services/email.service.js:38 | a string has only one trim |
| `Strings.TrimIdempotent` | services/email.service.js:38 | trimming twice is trimming once |
| `Strings.TrimAddsNothing` | services/email.service.js:38 | a trim has no whitespace at either end and contains no character absent from its input |
| `Strings.TrimOfTrimmed` | services/email.service.js:38 | a string without edge whitespace is its own trim |
| `Strings.TrimOfWhitespace` | services/email.service.js:38 | an all-whitespace string trims to the empty string |
| `EmailService.TrimEachWellFormed` | services/email.service.js:38 | trimming each comma-free piece gives pieces that are trimmed and comma-free |
| `EmailService.DropEmpty` | services/email.service.js:39 | the filter keeps exactly the non-empty entries and never grows the list |
| `EmailService.DropEmptyAppend` | services/email.service.js:39 | the filter distributes over concatenation, so it keeps order and duplicates |
| `EmailService.RecipientsWellFormed` | services/email.service.js:36-39 | every parsed recipient is non-empty, has no leading or trailing whitespace and contains no comma; an unset or empty `TO_EMAILS` gives no recipient |
| `EmailService.ParseRecipientsAppend` | services/email.service.js:36-39 | parsing `a,b` is the trimmed `a` (if non-empty) followed by parsing `b`: original order, empty pieces dropped, duplicates kept |
| `EmailService.ParseRecipientsSingle` | services/email.service.js:36-39 | a comma-free `TO_EMAILS` gives its trim, or nothing if that is empty |
| `EmailService.BlankPieceDropped` | services/email.service.js:38-39 | a whitespace-only piece (of any length, including empty) followed by a comma contributes no recipient, whatever follows |
| `EmailService.TrailingCommaDropped` | services/email.service.js:37-39 | for every comma-free `b`, `b,` parses like `b` alone: the trailing comma contributes no recipient |
| `EmailService.ParseRecipientsExample` | services/email.service.js:36-39 | `a, ,b,` parses to exactly `[a, b]` for any two trimmed, comma-free, non-empty addresses |
| `EmailService.ParseRecipientsLiteralExample` | services/email.service.js:36-39 | `"a@x.com, ,b@x.com,"` parses to exactly `["a@x.com", "b@x.com"]` |
| `EmailService.HtmlBodyEmbedsFields` | services/email.service.js:56-62 | the HTML body contains name, email, phone and message verbatim, unescaped, in that order and without overlap |
| `EmailService.SendEmail` | services/email.service.js:30-79 | a payload is posted iff the fields and the configuration both pass; missing fields give 'Missing required fields'; otherwise a missing configuration gives 'Email configuration is missing'; success iff a call is made and accepted; a rejected or failed call gives 'Failed to send email' |
| `EmailService.SentPayload` | services/email.service.js:45-65 | the posted payload has one personalization addressed to the parsed recipients (non-empty, trimmed) with subject 'New Contact Us Submission', the configured sender, and one `text/html` block carrying the four fields in order |
| `EmailService.MissingFieldsComeFirst` | services/email.service.js:31-43 | a submission missing a field fails with 'Missing required fields' and no call, whatever the configuration and provider |
| `EmailService.NoCallNoOutcome` | services/email.service.js:41-43 | when no call is made, the provider outcome does not affect the result |
| `EmailService.WhitespaceFieldsAccepted` | services/email.service.js:31-33 | every submission whose four fields are non-empty but entirely whitespace passes the field check: it never yields 'Missing required fields' |
| `Server.HandleSendEmail` | server.js:35-56 | a missing or empty field gives 400 'All fields are required' with no call; otherwise `sendEmail` is called once with exactly the four fields; success gives 200 'Email sent successfully', any failure result 500 'Failed to send email', an exception 500 'Something went wrong'; 200 iff the call returned success |
| `Server.Liveness` | server.js:59-61 | GET / always answers 200 with the text 'Backend is running 🚀' |
| `Server.OtherFieldsIgnored` | server.js:36-43 | bodies that agree on the four fields get the same response and the same `sendEmail` argument |
| `Server.HandlerCallPassesServiceCheck` | server.js:38-43 | whatever the handler passes to `sendEmail` passes its duplicate field check |
| `Server.ServeOutcomes` | server.js:35-56 | end to end: missing field gives 400 with no outbound call; otherwise a call iff the configuration is complete; 200 iff fields, configuration and provider all succeed; every other case gives 500 'Failed to send email'; 'Something went wrong' never occurs |
| `Server.ServeForwardsFields` | server.js:43 | whenever the route posts to the provider, the HTML body carries the request's four fields verbatim and in order |
| `Server.AcceptedSampleRequest` | server.js:35-56 | `{name:"Jo", email:"jo@x.com", phone:"555", message:"hi"}` with a complete configuration and an accepting provider gets 200 'Email sent successfully' |

## Left out

- The `axios.post` call is not modelled: the SendGrid URL, the `Authorization: Bearer` and `Content-Type` headers, and the HTTP client. Its outcome is the input `ProviderOutcome`.
- Reading `process.env` and loading `.env` are not modelled. Configuration is the explicit `Config` parameter.
- The Express middleware (helmet, hpp, cors, body-parser) is not modelled. These are library configuration with no logic in this repository.
- Rate limiting (100 requests per IP per 15 minutes) is not modelled. Its window and counters live inside the library, and it rejects requests before the route runs.
- `app.listen`, the `PORT` default, async scheduling and every `console.log`/`console.error` line are not modelled. They are I/O with no effect on the responses.
- Request body values that are not strings (numbers, booleans, `null`, objects) are not modelled. The body is a map from keys to strings. Truthiness and template interpolation of other JSON values are therefore not covered.
- Strings are sequences of Unicode scalar values, not UTF-16 code units, so lone surrogates are not represented.
