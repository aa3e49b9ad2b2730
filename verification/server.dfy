/** The `/api/contact` handler of server.js: presence and email checks on the posted
    body, the operator notification and submitter confirmation it composes, the two
    sends it awaits one after the other, and the JSON reply.

    Sending is abstract: the handler is given the outcome each send would have, and it
    reports the mails it attempted in order. */
module ContactServer {
  import opened Text
  import opened Patterns
  import opened Fields

  // ---------------------------------------------------------------------------
  // JavaScript values
  // ---------------------------------------------------------------------------

  /** A value of the parsed request body. Numbers are integers only. */
  datatype JsValue = Undefined | Null | Bool(b: bool) | Num(n: int) | Str(s: string)

  /** JavaScript truthiness: `undefined`, `null`, `false`, `0` and `""` are falsy. */
  predicate Truthy(v: JsValue) {
    match v
    case Undefined => false
    case Null => false
    case Bool(b) => b
    case Num(n) => n != 0
    case Str(s) => s != ""
  }

  function DigitChar(d: int): (c: char)
    requires 0 <= d < 10
    ensures IsDigit(c)
  {
    ('0' as int + d) as char
  }

  /** The number a string of decimal digits denotes, most significant digit first. */
  function DecimalValue(s: string): nat
    requires AllDigits(s)
  {
    if |s| == 0 then 0
    else 10 * DecimalValue(s[..|s| - 1]) + (s[|s| - 1] as int - '0' as int)
  }

  /** Decimal numeral of a natural number: the digits denote `n`, and only `0` itself
      starts with the digit zero, so there are no leading zeros. */
  function Digits(n: nat): (r: string)
    ensures |r| > 0 && AllDigits(r)
    ensures DecimalValue(r) == n
    ensures r[0] == '0' <==> n == 0
    ensures |r| > 1 ==> r[0] != '0'
    decreases n
  {
    if n < 10 then [DigitChar(n)]
    else
      var r := Digits(n / 10) + [DigitChar(n % 10)];
      assert r[..|r| - 1] == Digits(n / 10);
      r
  }

  /** JavaScript's ToString, as applied by template literals and by `RegExp.prototype.test`. */
  function ToJsString(v: JsValue): string {
    match v
    case Undefined => "undefined"
    case Null => "null"
    case Bool(b) => if b then "true" else "false"
    case Num(n) => if n < 0 then "-" + Digits(-n) else Digits(n)
    case Str(s) => s
  }

  /** The destructured `req.body`; a key the client did not send is `Undefined`. */
  datatype Body = Body(
    firstName: JsValue,
    lastName: JsValue,
    email: JsValue,
    phone: JsValue,
    country: JsValue,
    program: JsValue,
    message: JsValue,
    newsletter: JsValue,
    privacy: JsValue)

  function Get(b: Body, f: Field): JsValue {
    match f
    case FirstName => b.firstName
    case LastName => b.lastName
    case Email => b.email
    case Phone => b.phone
    case Country => b.country
    case Program => b.program
    case Message => b.message
    case Newsletter => b.newsletter
    case Privacy => b.privacy
  }

  /** The keys the handler insists on. */
  const RequiredKeys: seq<Field> := [FirstName, LastName, Email, Country, Program, Message, Privacy]

  // ---------------------------------------------------------------------------
  // Validation
  // ---------------------------------------------------------------------------

  datatype Problem = MissingRequired | InvalidEmail {
    function Message(): string {
      match this
      case MissingRequired => "Please fill in all required fields."
      case InvalidEmail => "Please enter a valid email address."
    }
  }

  datatype Check = Pass | Fail(problem: Problem)

  /** The handler's two checks, in order: every required key truthy (no trimming),
      then the email pattern on the email's string form. Phone is not looked at. */
  function Validate(b: Body): Check {
    if !Truthy(b.firstName) || !Truthy(b.lastName) || !Truthy(b.email) || !Truthy(b.country)
       || !Truthy(b.program) || !Truthy(b.message) || !Truthy(b.privacy)
    then Fail(MissingRequired)
    else if !IsEmail(ToJsString(b.email)) then Fail(InvalidEmail)
    else Pass
  }

  /** Presence: the body is refused as incomplete exactly when some required key is
      absent, null, false, zero or the empty string. */
  lemma ValidateRequired(b: Body)
    ensures Validate(b) == Fail(MissingRequired) <==> exists f :: f in RequiredKeys && !Truthy(Get(b, f))
  {
    if !Truthy(b.firstName) { assert FirstName in RequiredKeys; }
    if !Truthy(b.lastName) { assert LastName in RequiredKeys; }
    if !Truthy(b.email) { assert Email in RequiredKeys; }
    if !Truthy(b.country) { assert Country in RequiredKeys; }
    if !Truthy(b.program) { assert Program in RequiredKeys; }
    if !Truthy(b.message) { assert Message in RequiredKeys; }
    if !Truthy(b.privacy) { assert Privacy in RequiredKeys; }
  }

  /** Email: once every required key is present, the body is refused for its email
      exactly when the email's string form does not match the pattern. */
  lemma ValidateEmail(b: Body)
    requires forall f :: f in RequiredKeys ==> Truthy(Get(b, f))
    ensures Validate(b) == Fail(InvalidEmail) <==> !EmailPattern(ToJsString(b.email))
    ensures Validate(b) == Pass <==> EmailPattern(ToJsString(b.email))
  {
    assert Get(b, FirstName) == b.firstName && FirstName in RequiredKeys;
    assert LastName in RequiredKeys && Email in RequiredKeys && Country in RequiredKeys;
    assert Program in RequiredKeys && Message in RequiredKeys && Privacy in RequiredKeys;
    EmailCharacterization(ToJsString(b.email));
  }

  /** Only a string can pass: the string forms of `true` and of numbers hold no `@`. */
  lemma PassedEmailIsString(b: Body)
    requires Validate(b) == Pass
    ensures b.email.Str? && EmailPattern(b.email.s)
  {
    NonStringHasNoAt(b.email);
    EmailCharacterization(ToJsString(b.email));
  }

  lemma NonStringHasNoAt(v: JsValue)
    ensures !v.Str? ==> Count(ToJsString(v), '@') == 0
  {
    var s := ToJsString(v);
    if v.Num? && v.n < 0 {
      assert forall i :: 1 <= i < |s| ==> s[i] == Digits(-v.n)[i - 1];
    }
    if !v.Str? {
      CountZero(s, '@');
    }
  }

  // ---------------------------------------------------------------------------
  // The two mails
  // ---------------------------------------------------------------------------

  /** What a mail says. The HTML markup around these values and the submission time
      stamp are not modelled. */
  datatype Content =
    | Notification(
        fullName: string, email: string, phone: string, country: string,
        program: string, message: string, newsletter: string, privacy: string)
    | Confirmation(fullName: string, program: string, country: string, message: string)

  datatype Mail = Mail(from: string, to: string, subject: string, content: Content)

  const NotificationSubjectPrefix := "New Contact Form Submission - "
  const ConfirmationSubject := "Thank you for contacting Evmaria Services"

  /** The submitter's first and last name joined by one space. */
  function FullName(b: Body): string {
    ToJsString(b.firstName) + " " + ToJsString(b.lastName)
  }

  /** A flag rendered as one of two words by the value's truthiness. */
  function Flag(v: JsValue, yes: string, no: string): string {
    if Truthy(v) then yes else no
  }

  /** The operator notification, sent from and to the account `emailUser`. */
  function NotificationMail(b: Body, emailUser: string): Mail {
    Mail(emailUser, emailUser, NotificationSubjectPrefix + FullName(b),
      Notification(
        FullName(b), ToJsString(b.email),
        if Truthy(b.phone) then ToJsString(b.phone) else "Not provided",
        ToJsString(b.country), ToJsString(b.program), ToJsString(b.message),
        Flag(b.newsletter, "Yes", "No"), Flag(b.privacy, "Accepted", "Not Accepted")))
  }

  /** The confirmation, sent from `emailUser` to the submitter's address. */
  function ConfirmationMail(b: Body, emailUser: string): Mail {
    Mail(emailUser, ToJsString(b.email), ConfirmationSubject,
      Confirmation(FullName(b), ToJsString(b.program), ToJsString(b.country), ToJsString(b.message)))
  }

  // ---------------------------------------------------------------------------
  // The handler
  // ---------------------------------------------------------------------------

  /** How one send through the mail transport ends. */
  datatype SendResult = Delivered | Threw

  /** How the request ends. */
  datatype Verdict = Accepted | Refused(problem: Problem) | Failed

  datatype Outcome = Outcome(verdict: Verdict, attempted: seq<Mail>)

  /** The JSON reply: HTTP status, success flag and message. */
  datatype Reply = Reply(status: nat, success: bool, message: string)

  const SuccessMessage := "Thank you! Your message has been sent successfully. We'll get back to you within 24-48 hours."
  const FailureMessage := "Sorry, there was an error sending your message. Please try again later or contact us directly."

  /** The reply for each verdict: 200 on success, 400 with the check's message, 500 with
      the generic apology. Only an accepted request reports success. */
  function ToReply(v: Verdict): (r: Reply)
    ensures r.success <==> v.Accepted?
    ensures r.status == 200 <==> v.Accepted?
    ensures r.status == 400 <==> v.Refused?
    ensures v.Refused? ==> r.message == v.problem.Message()
    ensures v.Failed? ==> r == Reply(500, false, FailureMessage)
  {
    match v
    case Accepted => Reply(200, true, SuccessMessage)
    case Refused(p) => Reply(400, false, p.Message())
    case Failed => Reply(500, false, FailureMessage)
  }

  /** `POST /api/contact` for body `b`, with `first` and `second` the outcomes the
      notification and the confirmation sends would have. */
  function Handle(b: Body, emailUser: string, first: SendResult, second: SendResult): (o: Outcome)
    ensures o.verdict.Refused? <==> Validate(b).Fail?
    ensures Validate(b).Fail? ==> o == Outcome(Refused(Validate(b).problem), [])
    ensures Validate(b).Pass? ==> |o.attempted| > 0 && o.attempted[0] == NotificationMail(b, emailUser)
    ensures |o.attempted| == 2 ==> o.attempted[1] == ConfirmationMail(b, emailUser)
  {
    match Validate(b)
    case Fail(p) => Outcome(Refused(p), [])
    case Pass =>
      var notification := NotificationMail(b, emailUser);
      if first == Threw then Outcome(Failed, [notification])
      else
        var confirmation := ConfirmationMail(b, emailUser);
        if second == Threw then Outcome(Failed, [notification, confirmation])
        else Outcome(Accepted, [notification, confirmation])
  }

  /** Send order: a valid body first mails the operator, then, only if that send did
      not throw, the submitter; the request is accepted exactly when both sends went
      through, and fails with nothing rolled back otherwise. */
  lemma HandleSendOrder(b: Body, emailUser: string, first: SendResult, second: SendResult)
    requires Validate(b) == Pass
    ensures var o := Handle(b, emailUser, first, second);
      && 1 <= |o.attempted| <= 2
      && o.attempted[0].to == emailUser
      && (|o.attempted| == 2 <==> first == Delivered)
      && (|o.attempted| == 2 ==> o.attempted[1].to == b.email.s)
      && (o.verdict == Accepted <==> first == Delivered && second == Delivered)
      && (o.verdict == Accepted ==> ToReply(o.verdict) == Reply(200, true, SuccessMessage))
      && (o.verdict != Accepted ==> o.verdict == Failed && ToReply(o.verdict) == Reply(500, false, FailureMessage))
  {
    PassedEmailIsString(b);
  }

  /** A request is accepted exactly when the body passes both checks and both sends
      succeed; then exactly two mails went out. */
  lemma HandleAccepted(b: Body, emailUser: string, first: SendResult, second: SendResult)
    ensures Handle(b, emailUser, first, second).verdict == Accepted
        <==> (&& (forall f :: f in RequiredKeys ==> Truthy(Get(b, f)))
              && EmailPattern(ToJsString(b.email))
              && first == Delivered && second == Delivered)
    ensures Handle(b, emailUser, first, second).verdict == Accepted ==>
      |Handle(b, emailUser, first, second).attempted| == 2
  {
    ValidateRequired(b);
    if forall f :: f in RequiredKeys ==> Truthy(Get(b, f)) {
      ValidateEmail(b);
    }
  }

  /** The phone is never validated: replacing it by any value, malformed or not, leaves
      the verdict and the recipients unchanged. */
  lemma HandleIgnoresPhone(b: Body, phone: JsValue, emailUser: string, first: SendResult, second: SendResult)
    ensures var o := Handle(b, emailUser, first, second);
      var o' := Handle(b.(phone := phone), emailUser, first, second);
      && o'.verdict == o.verdict
      && |o'.attempted| == |o.attempted|
      && forall i :: 0 <= i < |o.attempted| ==> o'.attempted[i].to == o.attempted[i].to
  {
  }

  /** The operator notification's subject names the submitter, and its display values
      follow truthiness: a falsy phone shows as "Not provided", the newsletter flag as
      Yes or No. Privacy always shows "Accepted", since a falsy one never gets past
      validation. */
  lemma NotificationContents(b: Body, emailUser: string, first: SendResult, second: SendResult)
    requires Validate(b) == Pass
    ensures var m := Handle(b, emailUser, first, second).attempted[0];
      && m.subject == "New Contact Form Submission - " + ToJsString(b.firstName) + " " + ToJsString(b.lastName)
      && m.content.Notification?
      && m.content.phone == (if Truthy(b.phone) then ToJsString(b.phone) else "Not provided")
      && (m.content.newsletter == "Yes" <==> Truthy(b.newsletter))
      && (m.content.newsletter == "No" <==> !Truthy(b.newsletter))
      && m.content.privacy == "Accepted"
  {
    assert Privacy in RequiredKeys;
    ValidateRequired(b);
  }

  /** No trimming on the server: a body whose names and message are single spaces is
      accepted when the sends succeed. */
  lemma BlankNamesAccepted(emailUser: string)
    ensures var b := Body(Str(" "), Str(" "), Str("a@b.co"), Undefined, Str(" "), Str(" "), Str(" "),
                          Undefined, Bool(true));
      Handle(b, emailUser, Delivered, Delivered).verdict == Accepted
  {
    SampleEmailValid();
  }

}
