/**
 * The email-sending component: `sendEmail` checks the four contact-form
 * fields, reads the provider configuration, builds one mail-send payload
 * whose HTML body embeds the fields verbatim, makes one outbound call and
 * folds the provider's outcome into `{success}` or `{success: false, error}`.
 *
 * The environment is an explicit `Config`, and the outcome of the one
 * outbound call is an input (`ProviderOutcome`); the returned `SendAttempt`
 * records the payload exactly when that call is made.
 */
module EmailService {
  import opened Wrappers
  import opened Strings

  /** One contact-form submission; the empty string is JavaScript's falsy value. */
  datatype Submission = Submission(name: string, email: string, phone: string, message: string)

  /** SENDGRID_API_KEY, FROM_EMAIL and TO_EMAILS; `None` is an unset variable. */
  datatype Config = Config(apiKey: Option<string>, fromEmail: Option<string>, toEmails: Option<string>)

  /** How the one outbound POST ends: a 2xx answer, a non-2xx answer, or no answer. */
  datatype ProviderOutcome = Accepted | Rejected | TransportError

  /** `{success: true}` or `{success: false, error}`. */
  datatype SendResult = Success | Failure(error: string)

  datatype Address = Address(email: string)
  datatype Personalization = Personalization(to: seq<Address>, subject: string)
  datatype Content = Content(contentType: string, value: string)
  /** The JSON body posted to the provider's mail-send endpoint. */
  datatype Payload = Payload(personalizations: seq<Personalization>, from: Address, content: seq<Content>)

  /** What one call of `sendEmail` returns, and the payload it posted, if it posted one. */
  datatype SendAttempt = SendAttempt(result: SendResult, request: Option<Payload>)

  const MissingFieldsError := "Missing required fields"
  const ConfigMissingError := "Email configuration is missing"
  const SendFailedError := "Failed to send email"
  const Subject := "New Contact Us Submission"
  const HtmlType := "text/html"

  /** The fixed fragments of the HTML template, around the four fields. */
  const Indent := "          "
  const HtmlIntro := "\n" + Indent + "<h3>New Contact Form Submission</h3>\n"
                     + Indent + "<p><strong>Name:</strong> "
  const HtmlAfterName := "</p>\n" + Indent + "<p><strong>Email:</strong> "
  const HtmlAfterEmail := "</p>\n" + Indent + "<p><strong>Phone:</strong> "
  const HtmlAfterPhone := "</p>\n" + Indent + "<p><strong>Message:</strong><br>"
  const HtmlOutro := "</p>\n        "

  /** JavaScript truthiness of a possibly unset string. */
  predicate Truthy(v: Option<string>)
  {
    v.Some? && v.value != ""
  }

  /** The guard `!name || !email || !phone || !message` fails. */
  predicate HasRequiredFields(s: Submission)
  {
    s.name != "" && s.email != "" && s.phone != "" && s.message != ""
  }

  // ---------------------------------------------------------------- recipients

  /** `.map(email => email.trim())` */
  function TrimEach(pieces: seq<string>): (r: seq<string>)
    ensures |r| == |pieces|
    ensures forall i :: 0 <= i < |r| ==> r[i] == Trim(pieces[i])
    decreases |pieces|
  {
    if pieces == [] then [] else [Trim(pieces[0])] + TrimEach(pieces[1..])
  }

  /** `.filter(entry => entry.email)`: keeps the non-empty strings, in order. */
  function DropEmpty(pieces: seq<string>): (r: seq<string>)
    ensures |r| <= |pieces|
    ensures forall x :: x in r <==> x in pieces && x != ""
    decreases |pieces|
  {
    if pieces == [] then []
    else if pieces[0] == "" then DropEmpty(pieces[1..])
    else [pieces[0]] + DropEmpty(pieces[1..])
  }

  /** `raw.split(',').map(trim).filter(nonEmpty)` */
  function ParseList(raw: string): seq<string>
  {
    DropEmpty(TrimEach(Split(raw, ',')))
  }

  /** `(TO_EMAILS || '')`, parsed into the recipient list. */
  function ParseRecipients(toEmails: Option<string>): seq<string>
  {
    ParseList(if Truthy(toEmails) then toEmails.value else "")
  }

  /** The recipient that one comma-free piece of TO_EMAILS contributes. */
  function PieceRecipients(piece: string): seq<string>
  {
    var t := Trim(piece);
    if t == "" then [] else [t]
  }

  /** The filter distributes over concatenation: it keeps order and duplicates. */
  lemma {:induction false} DropEmptyAppend(a: seq<string>, b: seq<string>)
    ensures DropEmpty(a + b) == DropEmpty(a) + DropEmpty(b)
    decreases |a|
  {
    if a == [] {
      assert a + b == b;
    } else {
      assert (a + b)[0] == a[0];
      assert (a + b)[1..] == a[1..] + b;
      DropEmptyAppend(a[1..], b);
      if a[0] != "" {
        assert DropEmpty(a + b) == [a[0]] + (DropEmpty(a[1..]) + DropEmpty(b));
      }
    }
  }

  /** Trimmed separator-free pieces are trimmed and still separator-free. */
  lemma TrimEachWellFormed(pieces: seq<string>, sep: char)
    requires forall i :: 0 <= i < |pieces| ==> sep !in pieces[i]
    ensures forall x :: x in TrimEach(pieces) ==> IsTrimmed(x) && sep !in x
  {
    var trimmed := TrimEach(pieces);
    forall x | x in trimmed ensures IsTrimmed(x) && sep !in x {
      var k :| 0 <= k < |trimmed| && trimmed[k] == x;
      TrimAddsNothing(pieces[k]);
    }
  }

  /**
   * Every parsed recipient is non-empty, has no leading or trailing
   * whitespace and contains no comma; an unset or empty TO_EMAILS gives none.
   */
  lemma RecipientsWellFormed(toEmails: Option<string>)
    ensures forall x :: x in ParseRecipients(toEmails) ==> x != "" && IsTrimmed(x) && ',' !in x
    ensures !Truthy(toEmails) ==> ParseRecipients(toEmails) == []
  {
    var raw := if Truthy(toEmails) then toEmails.value else "";
    TrimEachWellFormed(Split(raw, ','), ',');
    if !Truthy(toEmails) {
      assert Split("", ',') == [""];
      TrimOfWhitespace("");
      assert TrimEach([""]) == [""];
    }
  }

  /**
   * Parsing `a,b` is parsing `a`, then parsing `b`: the recipients are the
   * trimmed comma-separated pieces in their original order, with empty
   * pieces dropped and duplicates kept.
   */
  lemma ParseRecipientsAppend(a: string, b: string)
    requires ',' !in a
    ensures ParseRecipients(Some(a + "," + b)) == PieceRecipients(a) + ParseRecipients(Some(b))
  {
    var s := a + "," + b;
    var rest := Split(b, ',');
    assert ParseRecipients(Some(s)) == ParseList(s);
    assert ParseRecipients(Some(b)) == ParseList(b);
    assert Split(s, ',') == [a] + rest by {
      SplitAppend(a, b, ',');
    }
    assert TrimEach([a] + rest) == [Trim(a)] + TrimEach(rest) by {
      assert ([a] + rest)[1..] == rest;
    }
    assert DropEmpty([Trim(a)] + TrimEach(rest)) == PieceRecipients(a) + DropEmpty(TrimEach(rest)) by {
      DropEmptyAppend([Trim(a)], TrimEach(rest));
    }
  }

  /** A TO_EMAILS without a comma names at most its own trimmed self. */
  lemma ParseRecipientsSingle(a: string)
    requires ',' !in a
    ensures ParseRecipients(Some(a)) == PieceRecipients(a)
  {
    SplitNoSeparator(a, ',');
    assert TrimEach([a]) == [Trim(a)];
    if a == "" {
      assert Split("", ',') == [""];
      assert Trim("") == "";
    }
  }

  /** A whitespace-only piece contributes no recipient. */
  lemma BlankPieceDropped(w: string, t: string)
    requires AllWhitespace(w)
    ensures ParseRecipients(Some(w + "," + t)) == ParseRecipients(Some(t))
  {
    assert ',' !in w by {
      forall j | 0 <= j < |w| ensures w[j] != ',' {
        assert IsJsWhitespace(w[j]);
      }
    }
    TrimOfWhitespace(w);
    ParseRecipientsAppend(w, t);
  }

  /** A trailing comma contributes no recipient: only the piece before it counts. */
  lemma TrailingCommaDropped(b: string)
    requires ',' !in b
    ensures ParseRecipients(Some(b + ",")) == PieceRecipients(b)
  {
    TrimOfWhitespace("");
    ParseRecipientsSingle("");
    assert b + "," == b + "," + "";
    ParseRecipientsAppend(b, "");
  }

  /**
   * The shape of `"a@x.com, ,b@x.com,"`: for any two addresses `a` and `b`,
   * `a, ,b,` parses to exactly `[a, b]`.
   */
  lemma ParseRecipientsExample(a: string, b: string)
    requires a != "" && b != "" && IsTrimmed(a) && IsTrimmed(b) && ',' !in a && ',' !in b
    ensures ParseRecipients(Some(a + ", ," + b + ",")) == [a, b]
  {
    var tail := b + ",";
    var t := " " + "," + tail;
    assert a + ", ," + b + "," == a + "," + t;
    assert ParseRecipients(Some(tail)) == [b] by {
      TrailingCommaDropped(b);
      TrimOfTrimmed(b);
    }
    assert ParseRecipients(Some(t)) == [b] by {
      assert AllWhitespace(" ") by { assert " "[0] == ' '; }
      BlankPieceDropped(" ", tail);
    }
    assert ParseRecipients(Some(a + "," + t)) == [a, b] by {
      TrimOfTrimmed(a);
      ParseRecipientsAppend(a, t);
    }
  }

  // ---------------------------------------------------------------- payload

  /** The HTML body: the template with the four fields interpolated, unescaped. */
  function HtmlBody(s: Submission): string
  {
    HtmlIntro + (s.name + (HtmlAfterName + (s.email + (HtmlAfterEmail
    + (s.phone + (HtmlAfterPhone + (s.message + HtmlOutro)))))))
  }

  /** `needle` occurs in `hay` starting at index `i`. */
  predicate OccursAt(hay: string, needle: string, i: int)
  {
    0 <= i <= |hay| - |needle| && hay[i..i + |needle|] == needle
  }

  /** `needles` occur in `hay` one after another, without overlapping. */
  ghost predicate InOrder(hay: string, needles: seq<string>)
    decreases |needles|
  {
    needles == [] ||
    exists i :: OccursAt(hay, needles[0], i) && InOrder(hay[i + |needles[0]|..], needles[1..])
  }

  lemma InOrderCons(before: string, needle: string, after: string, rest: seq<string>)
    requires InOrder(after, rest)
    ensures InOrder(before + (needle + after), [needle] + rest)
  {
    var hay := before + (needle + after);
    var needles := [needle] + rest;
    var i := |before|;
    assert needles[0] == needle && needles[1..] == rest;
    assert hay[i..i + |needle|] == needle;
    assert OccursAt(hay, needles[0], i);
    assert hay[i + |needles[0]|..] == after;
    assert InOrder(hay[i + |needles[0]|..], needles[1..]);
  }

  /** The HTML body carries name, email, phone and message verbatim, in that order. */
  lemma HtmlBodyEmbedsFields(s: Submission)
    ensures InOrder(HtmlBody(s), [s.name, s.email, s.phone, s.message])
  {
    var tail4 := HtmlOutro;
    var tail3 := HtmlAfterPhone + (s.message + tail4);
    var tail2 := HtmlAfterEmail + (s.phone + tail3);
    var tail1 := HtmlAfterName + (s.email + tail2);
    assert InOrder(tail4, []);
    InOrderCons(HtmlAfterPhone, s.message, tail4, []);
    assert [s.message] + [] == [s.message];
    InOrderCons(HtmlAfterEmail, s.phone, tail3, [s.message]);
    assert [s.phone] + [s.message] == [s.phone, s.message];
    InOrderCons(HtmlAfterName, s.email, tail2, [s.phone, s.message]);
    assert [s.email] + [s.phone, s.message] == [s.email, s.phone, s.message];
    InOrderCons(HtmlIntro, s.name, tail1, [s.email, s.phone, s.message]);
    assert [s.name] + [s.email, s.phone, s.message] == [s.name, s.email, s.phone, s.message];
  }

  /** The object literal posted to the provider. */
  function BuildPayload(s: Submission, fromEmail: string, recipients: seq<string>): Payload
  {
    Payload(
      [Personalization(seq(|recipients|, i requires 0 <= i < |recipients| => Address(recipients[i])), Subject)],
      Address(fromEmail),
      [Content(HtmlType, HtmlBody(s))])
  }

  // ---------------------------------------------------------------- sendEmail

  /** The check on SENDGRID_API_KEY, FROM_EMAIL and the parsed recipient list passes. */
  predicate ConfigComplete(c: Config)
  {
    Truthy(c.apiKey) && Truthy(c.fromEmail) && |ParseRecipients(c.toEmails)| > 0
  }

  /**
   * `sendEmail`. The fields are checked first, the configuration second;
   * the one outbound call is made exactly when both checks pass, and only an
   * accepted call is a success.
   */
  function SendEmail(s: Submission, c: Config, outcome: ProviderOutcome): (r: SendAttempt)
    ensures r.request.Some? <==> HasRequiredFields(s) && ConfigComplete(c)
    ensures r.result == Success <==> r.request.Some? && outcome == Accepted
    ensures !HasRequiredFields(s) ==> r.result == Failure(MissingFieldsError)
    ensures HasRequiredFields(s) && !ConfigComplete(c) ==> r.result == Failure(ConfigMissingError)
    ensures r.request.Some? && outcome != Accepted ==> r.result == Failure(SendFailedError)
  {
    if !HasRequiredFields(s) then
      SendAttempt(Failure(MissingFieldsError), None)
    else
      var recipients := ParseRecipients(c.toEmails);
      if !Truthy(c.apiKey) || !Truthy(c.fromEmail) || |recipients| == 0 then
        SendAttempt(Failure(ConfigMissingError), None)
      else
        var payload := BuildPayload(s, c.fromEmail.value, recipients);
        match outcome
        case Accepted => SendAttempt(Success, Some(payload))
        case Rejected => SendAttempt(Failure(SendFailedError), Some(payload))
        case TransportError => SendAttempt(Failure(SendFailedError), Some(payload))
  }

  /**
   * The payload of the one call: a single personalization addressed to the
   * parsed recipients (each non-empty and trimmed) with the fixed subject,
   * the configured sender, and a single `text/html` block that carries the
   * four fields verbatim and in order.
   */
  lemma SentPayload(s: Submission, c: Config, outcome: ProviderOutcome)
    requires SendEmail(s, c, outcome).request.Some?
    ensures var p := SendEmail(s, c, outcome).request.value;
      && |p.personalizations| == 1
      && |p.personalizations[0].to| == |ParseRecipients(c.toEmails)| > 0
      && (forall i :: 0 <= i < |p.personalizations[0].to| ==>
            p.personalizations[0].to[i].email == ParseRecipients(c.toEmails)[i])
      && (forall a :: a in p.personalizations[0].to ==> a.email != "" && IsTrimmed(a.email))
      && p.personalizations[0].subject == Subject
      && c.fromEmail == Some(p.from.email) && p.from.email != ""
      && |p.content| == 1
      && p.content[0].contentType == HtmlType
      && InOrder(p.content[0].value, [s.name, s.email, s.phone, s.message])
  {
    var rs := ParseRecipients(c.toEmails);
    var p := SendEmail(s, c, outcome).request.value;
    assert p == BuildPayload(s, c.fromEmail.value, rs);
    var to := p.personalizations[0].to;
    assert forall a :: a in to ==> a.email != "" && IsTrimmed(a.email) by {
      RecipientsWellFormed(c.toEmails);
      forall a | a in to ensures a.email != "" && IsTrimmed(a.email) {
        var i :| 0 <= i < |to| && to[i] == a;
        assert a.email == rs[i];
      }
    }
    HtmlBodyEmbedsFields(s);
  }

  /**
   * A submission missing a field fails with 'Missing required fields'
   * whatever the configuration and the provider would do: neither is consulted.
   */
  lemma MissingFieldsComeFirst(s: Submission, c1: Config, c2: Config, o1: ProviderOutcome, o2: ProviderOutcome)
    requires !HasRequiredFields(s)
    ensures SendEmail(s, c1, o1) == SendEmail(s, c2, o2) == SendAttempt(Failure(MissingFieldsError), None)
  {
  }

  /** Without a call, the provider's outcome cannot matter. */
  lemma NoCallNoOutcome(s: Submission, c: Config, o1: ProviderOutcome, o2: ProviderOutcome)
    requires SendEmail(s, c, o1).request.None?
    ensures SendEmail(s, c, o1) == SendEmail(s, c, o2)
  {
  }

  /**
   * Whitespace is truthy: a submission whose fields are non-empty but
   * entirely whitespace passes the field check, whatever the configuration.
   */
  lemma WhitespaceFieldsAccepted(s: Submission, c: Config, o: ProviderOutcome)
    requires s.name != "" && s.email != "" && s.phone != "" && s.message != ""
    requires AllWhitespace(s.name) && AllWhitespace(s.email)
    requires AllWhitespace(s.phone) && AllWhitespace(s.message)
    ensures HasRequiredFields(s)
    ensures SendEmail(s, c, o).result != Failure(MissingFieldsError)
  {
  }

  /** The literal `"a@x.com, ,b@x.com,"` parses to `a@x.com` and `b@x.com`. */
  lemma ParseRecipientsLiteralExample()
    ensures ParseRecipients(Some("a@x.com, ,b@x.com,")) == ["a@x.com", "b@x.com"]
  {
    assert IsTrimmed("a@x.com");
    assert IsTrimmed("b@x.com");
    assert "a@x.com" + ", ," + "b@x.com" + "," == "a@x.com, ,b@x.com,";
    ParseRecipientsExample("a@x.com", "b@x.com");
  }
}
