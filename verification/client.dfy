/** The browser side of the contact form (`initContactForm` and `validateField` in
    public/js/main.js): the submit-time checks that decide whether the form is posted,
    and the per-field check run when a control loses focus. */
module ContactClient {
  import opened Options
  import opened Text
  import opened Patterns
  import opened Fields

  /** The form's entries as the submit handler collects them: each control's string
      value, or `None` when the browser submits nothing for it (an unchecked checkbox). */
  datatype FormData = FormData(
    firstName: Option<string>,
    lastName: Option<string>,
    email: Option<string>,
    phone: Option<string>,
    country: Option<string>,
    program: Option<string>,
    message: Option<string>,
    newsletter: Option<string>,
    privacy: Option<string>)

  function Get(d: FormData, f: Field): Option<string> {
    match f
    case FirstName => d.firstName
    case LastName => d.lastName
    case Email => d.email
    case Phone => d.phone
    case Country => d.country
    case Program => d.program
    case Message => d.message
    case Newsletter => d.newsletter
    case Privacy => d.privacy
  }

  const RequiredFields: seq<Field> := [FirstName, LastName, Email, Country, Program, Message]

  /** The reasons a check fails, each shown to the user as its fixed message. */
  datatype Problem = MissingRequired | InvalidEmail | InvalidPhone | PrivacyNotAccepted | FieldRequired {
    function Message(): string {
      match this
      case MissingRequired => "Please fill in all required fields."
      case InvalidEmail => "Please enter a valid email address."
      case InvalidPhone => "Please enter a valid phone number."
      case PrivacyNotAccepted => "Please accept the Privacy Policy to continue."
      case FieldRequired => "This field is required."
    }
  }

  /** A required value counts as missing when it is absent or empty after trimming. */
  predicate IsBlank(v: Option<string>) {
    v.None? || Trim(v.value) == ""
  }

  /** The listed fields that are blank, in list order. */
  function MissingFields(d: FormData, fields: seq<Field>): (r: seq<Field>)
    ensures |r| <= |fields|
    ensures forall f :: f in r <==> f in fields && IsBlank(Get(d, f))
  {
    if |fields| == 0 then []
    else (if IsBlank(Get(d, fields[0])) then [fields[0]] else []) + MissingFields(d, fields[1..])
  }

  /** The phone is checked only when it is present and holds something other than
      white space. */
  predicate PhoneGiven(v: Option<string>) {
    v.Some? && Trim(v.value) != ""
  }

  /** What a submit attempt does: show one error message, or post the collected data. */
  datatype SubmitOutcome = Rejected(problem: Problem) | Posted(body: FormData)

  /** The submit handler's checks, in source order, stopping at the first failure. */
  function Submit(d: FormData): (r: SubmitOutcome)
    ensures r.Posted? ==> r.body == d
  {
    if |MissingFields(d, RequiredFields)| > 0 then Rejected(MissingRequired)
    else
      assert Email in RequiredFields;
      if !IsEmail(d.email.value) then Rejected(InvalidEmail)
    else if PhoneGiven(d.phone) && !IsPhone(StripPhone(d.phone.value)) then Rejected(InvalidPhone)
    else if d.privacy.None? || d.privacy.value == "" then Rejected(PrivacyNotAccepted)
    else Posted(d)
  }

  // ---------------------------------------------------------------------------
  // The four checks, stated independently of how Submit computes them
  // ---------------------------------------------------------------------------

  /** A value that is present and holds a character other than white space. */
  predicate HasContent(v: Option<string>) {
    v.Some? && !AllWs(v.value)
  }

  predicate RequiredPass(d: FormData) {
    forall f :: f in RequiredFields ==> HasContent(Get(d, f))
  }

  ghost predicate EmailPass(d: FormData) {
    d.email.Some? && EmailPattern(d.email.value)
  }

  /** An absent or white-space-only phone passes; any other must match once cleaned. */
  ghost predicate PhonePass(d: FormData) {
    HasContent(d.phone) ==> PhonePattern(StripPhone(d.phone.value))
  }

  predicate PrivacyPass(d: FormData) {
    d.privacy.Some? && d.privacy.value != ""
  }

  lemma IsBlankIff(v: Option<string>)
    ensures IsBlank(v) <==> !HasContent(v)
    ensures PhoneGiven(v) <==> HasContent(v)
  {
    if v.Some? {
      TrimEmptyIffAllWs(v.value);
    }
  }

  /** The filtered list of missing fields is non-empty exactly when a required field lacks content. */
  lemma RequiredCheck(d: FormData)
    ensures |MissingFields(d, RequiredFields)| > 0 <==> !RequiredPass(d)
  {
    forall f | f in RequiredFields
      ensures IsBlank(Get(d, f)) <==> !HasContent(Get(d, f))
    {
      IsBlankIff(Get(d, f));
    }
    var missing := MissingFields(d, RequiredFields);
    if !RequiredPass(d) {
      var f :| f in RequiredFields && !HasContent(Get(d, f));
      assert f in missing;
    }
    if |missing| > 0 {
      assert missing[0] in missing;
    }
  }

  lemma PhoneCheck(d: FormData)
    ensures (PhoneGiven(d.phone) && !IsPhone(StripPhone(d.phone.value))) <==> !PhonePass(d)
  {
    IsBlankIff(d.phone);
    if d.phone.Some? {
      PhoneCharacterization(StripPhone(d.phone.value));
    }
  }

  /** Check order: each message is shown exactly when its check is the first to fail,
      and the form is posted exactly when all four checks pass. */
  lemma SubmitCheckOrder(d: FormData)
    ensures Submit(d) == Rejected(MissingRequired) <==> !RequiredPass(d)
    ensures Submit(d) == Rejected(InvalidEmail) <==> RequiredPass(d) && !EmailPass(d)
    ensures Submit(d) == Rejected(InvalidPhone) <==> RequiredPass(d) && EmailPass(d) && !PhonePass(d)
    ensures Submit(d) == Rejected(PrivacyNotAccepted)
        <==> RequiredPass(d) && EmailPass(d) && PhonePass(d) && !PrivacyPass(d)
    ensures Submit(d) == Posted(d)
        <==> RequiredPass(d) && EmailPass(d) && PhonePass(d) && PrivacyPass(d)
  {
    RequiredCheck(d);
    PhoneCheck(d);
    assert RequiredPass(d) ==> d.email.Some? by {
      if RequiredPass(d) { assert HasContent(Get(d, Email)); }
    }
    if d.email.Some? {
      EmailCharacterization(d.email.value);
    }
  }

  /** Required fields: a missing or white-space-only required field is reported first,
      whatever else the form holds, and nothing is posted. */
  lemma SubmitRequiredFirst(d: FormData, f: Field)
    requires f in RequiredFields && (Get(d, f).None? || AllWs(Get(d, f).value))
    ensures Submit(d) == Rejected(MissingRequired)
  {
    SubmitCheckOrder(d);
  }

  /** Phone optional: an absent or white-space-only phone never blocks a submission;
      the outcome is the one the same form would get with no phone at all. */
  lemma SubmitPhoneOptional(d: FormData)
    requires d.phone.None? || AllWs(d.phone.value)
    ensures Submit(d) != Rejected(InvalidPhone)
    ensures Submit(d).Rejected? ==> Submit(d) == Submit(d.(phone := None))
  {
    IsBlankIff(d.phone);
    SubmitIgnoresUncheckedPhone(d, None);
  }

  /** Two forms that agree on every field but an unchecked phone get the same verdict. */
  lemma SubmitIgnoresUncheckedPhone(d: FormData, phone: Option<string>)
    requires !PhoneGiven(d.phone) && !PhoneGiven(phone)
    ensures Submit(d).Rejected? <==> Submit(d.(phone := phone)).Rejected?
    ensures Submit(d).Rejected? ==> Submit(d) == Submit(d.(phone := phone))
  {
    MissingFieldsIgnorePhone(d, phone, RequiredFields);
  }

  /** The missing-field list does not look at the phone unless it is listed. */
  lemma {:induction false} MissingFieldsIgnorePhone(d: FormData, phone: Option<string>, fields: seq<Field>)
    requires Phone !in fields
    ensures MissingFields(d, fields) == MissingFields(d.(phone := phone), fields)
  {
    if |fields| > 0 {
      assert fields[0] != Phone;
      MissingFieldsIgnorePhone(d, phone, fields[1..]);
    }
  }

  // ---------------------------------------------------------------------------
  // validateField, the check run when a control loses focus
  // ---------------------------------------------------------------------------

  datatype FieldCheck = FieldOk | FieldError(problem: Problem)

  /** The blur check for a control named `name` whose `required` attribute is
      `required` and whose current value is `raw`. */
  function ValidateField(name: Field, required: bool, raw: string): (r: FieldCheck)
    ensures name !in {Email, Phone} && !required ==> r == FieldOk
  {
    var value := Trim(raw);
    if required && value == "" then FieldError(FieldRequired)
    else if name == Email && value != "" && !IsEmail(value) then FieldError(InvalidEmail)
    else if name == Phone && value != "" && !IsPhone(StripPhone(value)) then FieldError(InvalidPhone)
    else FieldOk
  }

  /** The per-field rules: "required" exactly when a required control holds only white
      space; the email and phone patterns only on a non-blank value, applied to the
      trimmed value. */
  lemma ValidateFieldRules(name: Field, required: bool, raw: string)
    ensures ValidateField(name, required, raw) == FieldError(FieldRequired)
        <==> required && AllWs(raw)
    ensures ValidateField(name, required, raw) == FieldError(InvalidEmail)
        <==> name == Email && !AllWs(raw) && !EmailPattern(Trim(raw))
    ensures ValidateField(name, required, raw) == FieldError(InvalidPhone)
        <==> name == Phone && !AllWs(raw) && !PhonePattern(StripPhone(raw))
    ensures ValidateField(name, required, raw) == FieldOk
        <==> (&& !(required && AllWs(raw))
              && (name == Email && !AllWs(raw) ==> EmailPattern(Trim(raw)))
              && (name == Phone && !AllWs(raw) ==> PhonePattern(StripPhone(raw))))
  {
    TrimEmptyIffAllWs(raw);
    EmailCharacterization(Trim(raw));
    StripPhoneTrim(raw);
    PhoneCharacterization(StripPhone(raw));
  }

  /** Blur and submit agree on the phone: cleaning the trimmed value gives the same
      digits as cleaning the raw one, so the blur check rejects a given phone exactly
      when the submit check does. */
  lemma PhoneBlurAgreesWithSubmit(d: FormData, required: bool)
    requires d.phone.Some?
    ensures ValidateField(Phone, required, d.phone.value) == FieldError(InvalidPhone)
        <==> PhoneGiven(d.phone) && !IsPhone(StripPhone(d.phone.value))
  {
    ValidateFieldRules(Phone, required, d.phone.value);
    IsBlankIff(d.phone);
    PhoneCharacterization(StripPhone(d.phone.value));
  }

  /** Submit tests the raw email, blur the trimmed one. Every email that submit accepts
      passes the blur check too. */
  lemma EmailSubmitImpliesBlur(s: string, required: bool)
    requires IsEmail(s)
    ensures ValidateField(Email, required, s) == FieldOk
  {
    TrimNoWs(s);
    assert s != [] && !IsWs(s[0]);
  }

  lemma TrimLeadingSpace()
    ensures Trim(" a@b.co") == "a@b.co"
  {
    var s := " a@b.co";
    var u := s[1..];
    assert u == "a@b.co";
    assert IsWs(s[0]) && !IsWs(u[0]) && !IsWs(u[|u| - 1]);
    assert TrimStart(u) == u;
    assert TrimStart(s) == u;
    assert TrimEnd(u) == u;
  }

  /** ... but not the other way round: an address with a leading space passes the blur
      check and is rejected on submit. */
  lemma EmailBlurDoesNotImplySubmit()
    ensures ValidateField(Email, true, " a@b.co") == FieldOk
    ensures !IsEmail(" a@b.co")
  {
    TrimLeadingSpace();
    SampleEmailValid();
    assert IsWs(" a@b.co"[0]);
  }

}
