# Contact form validation of the Evmaria Services site, in Dafny

This project models the contact-form pipeline of the Evmaria Services marketing site.
The pipeline is the only part of the site with logic worth stating.

- **Browser side** (`public/js/main.js`). `initContactForm`'s submit handler runs its
  checks in a fixed order and stops at the first failure: required fields (blank after
  `trim` counts as missing), then the email pattern, then the phone pattern (only for a
  non-blank phone, after removing white space, `-`, `(` and `)`), then the privacy box.
  It posts the data only when all four pass. `validateField` is the per-control check
  run on blur. `initSearch` filters a fixed list of six site sections.
- **Server side** (`server.js`). The `POST /api/contact` handler refuses a body when any
  of seven keys is falsy (no trimming), then checks the email pattern. It then composes
  and sends the operator notification, and only after that send returns composes and
  sends the submitter confirmation. Any exception becomes a 500 reply.

Everything is written as pure functions over immutable data:

| file | module | contents |
|---|---|---|
| `options.dfy` | `Options` | `Option`, for a form value the browser may not submit |
| `fields.dfy` | `Fields` | the form's control names, shared by client and server |
| `text.dfy` | `Text` | JavaScript's white-space set (`\s` and `trim` use the same one), `trim`, ASCII lower-casing, UTF-16 `length`, `includes` |
| `patterns.dfy` | `Patterns` | the email and phone regular expressions and the phone clean-up |
| `client.dfy` | `ContactClient` | submit-time validation and `validateField` |
| `search.dfy` | `SiteSearch` | the search filter |
| `server.dfy` | `ContactServer` | JavaScript truthiness and `ToString`, the handler's checks, the two mails, the send order and the reply |
| `pipeline.dfy` | `Pipeline` | what the browser posts and how the server judges it |

Each regular expression has two definitions. A ghost predicate reads the pattern
literally: the string splits into the pattern's parts. An executable predicate is what
the validators call. A characterisation lemma proves the two equal.

The outside world is reduced to parameters:

- Each mail send is given as an abstract `SendResult` (`Delivered` or `Threw`).
- The operator account `EMAIL_USER` is a string parameter.
- The handler returns its verdict together with the list of mails it attempted.

## Model

| member | source | states |
|---|---|---|
| `Text.TrimEmptyIffAllWs` | public/js/main.js:81 | `value.trim() === ''` holds exactly when every character of the value is JavaScript white space |
| `Text.TrimBounds` | public/js/main.js:160 | `trim` returns the infix left after cutting white space from both ends; the result neither starts nor ends with white space |
| `Text.LowerKeepsUtf16Length` | public/js/main.js:370-372 | lower-casing the query does not change its UTF-16 length, so the minimum-length test can be applied before or after lower-casing |
| `Patterns.EmailCharacterization` | public/js/main.js:89-90 | a string matches `^[^\s@]+@[^\s@]+\.[^\s@]+$` iff it has no white space, exactly one `@`, a non-empty local part, and a domain with a `.` that is neither its first nor its last character |
| `Patterns.StripPhone` | public/js/main.js:98 | the clean-up's output contains no white space, `-`, `(` or `)`, and is no longer than its input |
| `Patterns.StripPhoneAppend` | public/js/main.js:98 | the clean-up distributes over concatenation; together with `StripPhoneOne` this makes its output the in-order subsequence of the input's other characters |
| `Patterns.StripPhoneOne` | public/js/main.js:98 | a single separator is removed and any other single character is kept |
| `Patterns.StripPhoneIdempotent` | public/js/main.js:98 | cleaning a phone twice gives the same as cleaning it once |
| `Patterns.StripPhoneTrim` | public/js/main.js:184 | cleaning the trimmed value (blur) gives the same digits as cleaning the raw value (submit) |
| `Patterns.PhoneCharacterization` | public/js/main.js:97-98 | a cleaned phone is accepted iff it is an optional `+`, a digit 1-9 and 0 to 15 ASCII digits; every accepted phone has 1 to 17 characters |
| `Patterns.SampleEmailValid` | public/js/main.js:89 | `a@b.co` passes the email test |
| `ContactClient.MissingFields` | public/js/main.js:80-81 | a field is reported missing iff it is in the required list and is absent or blank after trimming; the list is never longer than the required list |
| `ContactClient.Submit` | public/js/main.js:110-117 | when the form is posted, the body is the collected form data, unchanged |
| `ContactClient.SubmitCheckOrder` | public/js/main.js:79-117 | the checks run required, email, phone, privacy; each message appears exactly when its check is the first to fail, and the form is posted exactly when all four pass |
| `ContactClient.SubmitRequiredFirst` | public/js/main.js:80-86 | a required field that is absent or white space only yields "Please fill in all required fields." and nothing is posted, whatever the rest of the form holds |
| `ContactClient.SubmitPhoneOptional` | public/js/main.js:95-102 | an absent or white-space-only phone never yields the phone message, and a refused form is refused just as it would be with no phone at all |
| `ContactClient.SubmitIgnoresUncheckedPhone` | public/js/main.js:96 | two forms that differ only in an unchecked phone get the same refusal |
| `ContactClient.MissingFieldsIgnorePhone` | public/js/main.js:80-81 | the missing-field list does not depend on the phone, which is not a required field |
| `ContactClient.ValidateField` | public/js/main.js:159-191 | a control that is neither required nor an email or phone field always passes |
| `ContactClient.ValidateFieldRules` | public/js/main.js:159-191 | "This field is required." iff the control is required and holds only white space; the email and phone messages iff the control is that field, is non-blank, and its trimmed value fails the pattern; otherwise the control passes |
| `ContactClient.PhoneBlurAgreesWithSubmit` | public/js/main.js:182-187 | the blur check rejects a phone exactly when the submit check would |
| `ContactClient.EmailSubmitImpliesBlur` | public/js/main.js:173-179 | every email that the submit check accepts also passes the blur check |
| `ContactClient.EmailBlurDoesNotImplySubmit` | public/js/main.js:88-93 | ` a@b.co` (leading space) passes the blur check, which trims, but fails the submit check, which does not |
| `SiteSearch.KeepMatching` | public/js/main.js:378-385 | an entry is kept iff it is in the list and its lower-cased form contains the query, and the kept entries appear in list order |
| `SiteSearch.KeepMatchingAppend` | public/js/main.js:378-385 | the filter distributes over concatenation, so results keep the list's order |
| `SiteSearch.Search` | public/js/main.js:369-387 | a query shorter than 2 UTF-16 code units yields no results; otherwise an entry is shown iff its lower-cased form contains the lower-cased query; the results keep the order of the six entries and show none twice |
| `SiteSearch.SearchCaseInsensitive` | public/js/main.js:370 | the results do not depend on the case of ASCII letters in the query |
| `ContactServer.Digits` | server.js:50 | the decimal numeral of a natural number, which is JavaScript's `String(n)` for n ≤ 2^53: a non-empty run of ASCII digits that denotes the number, with no leading zero except for `0` itself |
| `ContactServer.ValidateRequired` | server.js:41-46 | the body is refused as incomplete iff one of firstName, lastName, email, country, program, message, privacy is absent, null, false, 0 or empty |
| `ContactServer.ValidateEmail` | server.js:49-55 | once every required key is present, the body is refused for its email iff the email's string form does not match the pattern, and passes otherwise |
| `ContactServer.PassedEmailIsString` | server.js:49-50 | among the modelled values, only a string email can pass the email check: the string forms of `true` and of numbers hold no `@` |
| `ContactServer.NonStringHasNoAt` | server.js:50 | the string form of any non-string value contains no `@` |
| `ContactServer.ToReply` | server.js:325-335 | only an accepted request reports success and status 200; a refusal is a 400 with its check's message; a send failure is a 500 with the fixed apology |
| `ContactServer.Handle` | server.js:26-337 | a refused body attempts no send and carries the failing check's problem; a valid body's first attempted mail is the operator notification and its second the confirmation |
| `ContactServer.HandleSendOrder` | server.js:176-336 | for a valid body the operator is mailed first and the submitter second, the second only if the first did not throw; the reply is 200 with the thank-you message iff both sends succeed, and otherwise 500 with the fixed apology, although the operator mail may already have gone out |
| `ContactServer.HandleAccepted` | server.js:40-328 | a request is accepted iff every required key is truthy, the email matches the pattern and both sends succeed; exactly two mails then went out |
| `ContactServer.HandleIgnoresPhone` | server.js:28-55 | replacing the phone by any value, malformed or not, leaves the verdict, the number of attempted mails and their recipients unchanged |
| `ContactServer.NotificationContents` | server.js:58-154 | the operator subject is "New Contact Form Submission - " + firstName + " " + lastName; a falsy phone shows "Not provided"; the newsletter shows Yes or No by truthiness; privacy always shows "Accepted" because a falsy one never passes validation |
| `ContactServer.BlankNamesAccepted` | server.js:41 | a body whose names, country, program and message are single spaces is accepted when the sends succeed |
| `Pipeline.Encode` | public/js/main.js:105-116 | a posted form value is truthy on the server (server.js:41) exactly when the client's `!value` test sees it as present and non-empty, and its string form on the server is the text the client sent |
| `Pipeline.ToBody` | public/js/main.js:116 | every key of the server's body is the encoding of the same form field |
| `Pipeline.ServerPresence` | server.js:41 | non-empty required values and a non-empty privacy value pass the server's presence check |
| `Pipeline.ServerPasses` | server.js:40-55 | non-empty required values, an email matching the pattern and a ticked privacy box pass the server, whatever the phone |
| `Pipeline.RequiredNonEmpty` | public/js/main.js:81 | a value with content after trimming is present and non-empty |
| `Pipeline.ClientPostedPassesServer` | server.js:40-60 | everything the client posts passes the server's checks; with both sends succeeding it is accepted, with the operator mailed first and the form's email address second |
| `Pipeline.ServerAcceptsClientBadPhone` | server.js:28-55 | a form the client refuses only for its phone is accepted by the server's checks |
| `Pipeline.ServerAcceptsBlankValues` | server.js:41 | a form whose non-empty required value is white space only is refused by the client and, given an email matching the pattern and a ticked privacy box, passes the server |
| `Pipeline.ServerAlsoRefusesWithoutPrivacy` | server.js:41-46 | a form the client refuses for its privacy box is refused by the server as incomplete |

## Left out

- DOM and presentation: toasts (`showNotification`), inline field errors, the busy
  submit button, form reset, scrolling, the wiring of blur and input listeners, and the
  rendering of search results as HTML. Menus, dropdowns, animations, lazy loading,
  parallax, counters and the popup are presentation only.
- The client's handling of the server's reply (the success or error toast, and the
  error toast on a network or parse failure). Nothing in it constrains the data.
- Timers: `debounce`, `throttle`, toast auto-dismiss and the popup delay. They have no
  pure behaviour to state.
- Transport: Express routing, static files, the catch-all GET, body parsing and
  nodemailer. A send is only an abstract `Delivered` or `Threw`.
- HTML template markup and the `new Date().toLocaleString()` time stamp. The mails
  keep only the interpolated values. Values are interpolated without HTML escaping,
  and the model keeps them unescaped too.
- Rate limiting, a security-header policy and server-side phone validation: server.js
  has none of them, so none is modelled.
- `js/app.js` (menu toggle) and `chat.js` (a hello-world server) contain no logic.
- `ContactServer.JsValue`: numbers are exact integers. Fractions, `NaN`, `-0`, the
  rounding of integers beyond 2^53 to the nearest double (see `ContactServer.Digits`)
  and the exponent form JavaScript prints for magnitudes of 10^21 and more are not
  modelled.
  Arrays and objects, which either body parser can produce, are not modelled
  either.
- `ContactServer.Digits`: `ToJsString(Num(n))` matches JavaScript's `String(n)` only
  for |n| ≤ 2^53. JavaScript numbers are doubles. Above 2^53, `String` prints the
  shortest digits that round to the same double and pads with zeros: `String(2**60)` is
  `"1152921504606847000"`, while the model prints the exact `"1152921504606846976"`. A
  subject or display value built from such a number differs accordingly.
- `ContactServer.Handle`: an `EMAIL_USER` that is not set (JavaScript `undefined`) is
  not modelled; the operator address is always a string.
- `Text.Lower`: lower-cases ASCII letters only. JavaScript's `toLowerCase` also maps
  non-ASCII capitals, some of them to longer strings. The six search entries are
  ASCII, but a query with non-ASCII capitals is compared differently.
- `ContactClient.ValidateField`: takes the control's `required` attribute and its
  `value` as parameters. An unticked checkbox still reports its `value` ("on"), and the
  model gives that no special treatment.
- Exceptions while composing the mails are not modelled. Only the two sends can fail.
