/** The contact form end to end: what the browser posts as JSON (public/js/main.js)
    and what the `/api/contact` handler of server.js makes of it. The client checks are
    stricter than the server's, and the lemmas below say exactly where the two differ. */
module Pipeline {
  import opened Options
  import opened Text
  import opened Patterns
  import opened Fields
  import C = ContactClient
  import S = ContactServer

  /** A present form value arrives as a JSON string; an absent one is a missing key.
      The server's falsiness test agrees with the client's `!value`, and the server's
      string form of the value is the text the client sent. */
  function Encode(v: Option<string>): (r: S.JsValue)
    ensures S.Truthy(r) <==> v.Some? && v.value != ""
    ensures v.Some? ==> S.ToJsString(r) == v.value
  {
    match v
    case None => S.Undefined
    case Some(s) => S.Str(s)
  }

  /** The request body the server sees for posted form data. */
  function ToBody(d: C.FormData): (b: S.Body)
    ensures forall f :: S.Get(b, f) == Encode(C.Get(d, f))
  {
    S.Body(Encode(d.firstName), Encode(d.lastName), Encode(d.email), Encode(d.phone),
      Encode(d.country), Encode(d.program), Encode(d.message), Encode(d.newsletter),
      Encode(d.privacy))
  }

  /** The server's presence check only asks for non-empty strings. */
  lemma ServerPresence(d: C.FormData)
    requires forall g :: g in C.RequiredFields ==> C.Get(d, g).Some? && C.Get(d, g).value != ""
    requires C.PrivacyPass(d)
    ensures forall g :: g in S.RequiredKeys ==> S.Truthy(S.Get(ToBody(d), g))
  {
    var b := ToBody(d);
    forall g | g in S.RequiredKeys ensures S.Truthy(S.Get(b, g)) {
      if g != Privacy {
        assert g in C.RequiredFields;
      }
    }
  }

  /** A form with every required value non-empty, an email matching the pattern and a
      ticked privacy box passes the server, whatever its phone. */
  lemma ServerPasses(d: C.FormData)
    requires forall g :: g in C.RequiredFields ==> C.Get(d, g).Some? && C.Get(d, g).value != ""
    requires C.PrivacyPass(d)
    requires d.email.Some? && EmailPattern(d.email.value)
    ensures S.Validate(ToBody(d)) == S.Pass
  {
    ServerPresence(d);
    S.ValidateEmail(ToBody(d));
  }

  /** Content after trimming implies a non-empty value. */
  lemma RequiredNonEmpty(d: C.FormData)
    requires C.RequiredPass(d)
    ensures forall g :: g in C.RequiredFields ==> C.Get(d, g).Some? && C.Get(d, g).value != ""
  {
    forall g | g in C.RequiredFields
      ensures C.Get(d, g).Some? && C.Get(d, g).value != ""
    {
      assert C.HasContent(C.Get(d, g));
    }
  }

  /** Everything the client posts passes the server's checks, so with both sends
      succeeding the request is accepted and exactly two mails go out, the second to
      the address typed in the form. */
  lemma ClientPostedPassesServer(d: C.FormData, emailUser: string)
    requires C.Submit(d).Posted?
    ensures S.Validate(ToBody(d)) == S.Pass
    ensures var o := S.Handle(ToBody(d), emailUser, S.Delivered, S.Delivered);
      && o.verdict == S.Accepted
      && |o.attempted| == 2
      && o.attempted[0].to == emailUser
      && o.attempted[1].to == d.email.value
  {
    C.SubmitCheckOrder(d);
    RequiredNonEmpty(d);
    ServerPasses(d);
    S.HandleSendOrder(ToBody(d), emailUser, S.Delivered, S.Delivered);
  }

  /** The server does not check the phone: a form the client refuses only for its phone
      is one the server accepts. */
  lemma ServerAcceptsClientBadPhone(d: C.FormData)
    requires C.Submit(d) == C.Rejected(C.InvalidPhone)
    requires C.PrivacyPass(d)
    ensures S.Validate(ToBody(d)) == S.Pass
  {
    C.SubmitCheckOrder(d);
    RequiredNonEmpty(d);
    ServerPasses(d);
  }

  /** The server does not trim: a form whose required values are all non-empty but
      one of which is only white space is refused by the client and, given a valid
      email and an accepted privacy box, passed by the server. */
  lemma ServerAcceptsBlankValues(d: C.FormData, f: Field)
    requires f in C.RequiredFields && C.Get(d, f).Some? && AllWs(C.Get(d, f).value)
    requires forall g :: g in C.RequiredFields ==> C.Get(d, g).Some? && C.Get(d, g).value != ""
    requires d.email.Some? && EmailPattern(d.email.value)
    requires C.PrivacyPass(d)
    ensures C.Submit(d) == C.Rejected(C.MissingRequired)
    ensures S.Validate(ToBody(d)) == S.Pass
  {
    C.SubmitRequiredFirst(d, f);
    ServerPasses(d);
  }

  /** A form refused on the client only for its privacy box is refused by the server as
      incomplete too: an unticked box never reaches the server as a truthy value. */
  lemma ServerAlsoRefusesWithoutPrivacy(d: C.FormData)
    requires C.Submit(d) == C.Rejected(C.PrivacyNotAccepted)
    ensures S.Validate(ToBody(d)) == S.Fail(S.MissingRequired)
  {
    C.SubmitCheckOrder(d);
  }

}
