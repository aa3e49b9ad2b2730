/** The two regular expressions of the contact form, `^[^\s@]+@[^\s@]+\.[^\s@]+$` for
    email addresses and `^[\+]?[1-9][\d]{0,15}$` for phone numbers, and the phone
    clean-up that removes white space, `-`, `(` and `)` before the phone test.

    Each pattern has two definitions: a ghost one that reads the regular expression
    literally (the string splits into the pattern's parts), and an executable one that
    the validators use. A characterisation lemma proves them equal. */
module Patterns {
  import opened Text

  // ---------------------------------------------------------------------------
  // Email
  // ---------------------------------------------------------------------------

  /** The class `[^\s@]`. */
  predicate EmailAtom(c: char) {
    !IsWs(c) && c != '@'
  }

  predicate AllEmailAtoms(s: string) {
    forall i :: 0 <= i < |s| ==> EmailAtom(s[i])
  }

  /** `s` reads as local `@` host `.` tld, with `@` at index `at`, the `.` at index `dot`,
      and each of the three parts a non-empty run of `[^\s@]`. */
  ghost predicate EmailSplit(s: string, at: int, dot: int) {
    && 0 < at && at + 1 < dot && dot + 1 < |s|
    && s[at] == '@' && s[dot] == '.'
    && AllEmailAtoms(s[..at]) && AllEmailAtoms(s[at + 1..dot]) && AllEmailAtoms(s[dot + 1..])
  }

  /** Literal reading of `^[^\s@]+@[^\s@]+\.[^\s@]+$`. */
  ghost predicate EmailPattern(s: string) {
    exists at, dot :: EmailSplit(s, at, dot)
  }

  /** Index of the first `c` in `s`, or `|s|` when there is none. */
  function IndexOf(s: string, c: char): (k: nat)
    ensures k <= |s|
    ensures k < |s| ==> s[k] == c
    ensures forall i :: 0 <= i < k ==> s[i] != c
  {
    if |s| == 0 then 0 else if s[0] == c then 0 else 1 + IndexOf(s[1..], c)
  }

  /** The string holds a `.` that is neither its first nor its last character. */
  predicate HasInnerDot(d: string) {
    exists k | 0 < k < |d| - 1 :: d[k] == '.'
  }

  /** The email test as the form's users see it: no white space, exactly one `@`,
      something before it, and after it a domain with an inner `.`. */
  predicate IsEmail(s: string) {
    && NoWs(s)
    && Count(s, '@') == 1
    && var at := IndexOf(s, '@');
       0 < at < |s| && HasInnerDot(s[at + 1..])
  }

  /** Cutting `s` around index `k`. */
  lemma CountAround(s: string, k: int, c: char)
    requires 0 <= k < |s|
    ensures Count(s, c) == Count(s[..k], c) + (if s[k] == c then 1 else 0) + Count(s[k + 1..], c)
  {
    assert s == s[..k] + ([s[k]] + s[k + 1..]);
    CountAppend(s[..k], [s[k]] + s[k + 1..], c);
    CountAppend([s[k]], s[k + 1..], c);
  }

  /** Email characterisation: the executable test accepts exactly the strings that
      match the regular expression. */
  lemma EmailCharacterization(s: string)
    ensures IsEmail(s) <==> EmailPattern(s)
  {
    if IsEmail(s) {
      EmailSplitOfIsEmail(s);
    }
    if EmailPattern(s) {
      var at, dot :| EmailSplit(s, at, dot);
      IsEmailOfEmailSplit(s, at, dot);
    }
  }

  lemma EmailSplitOfIsEmail(s: string)
    requires IsEmail(s)
    ensures EmailPattern(s)
  {
    var at := IndexOf(s, '@');
    var d := s[at + 1..];
    var k :| 0 < k < |d| - 1 && d[k] == '.';
    var dot := at + 1 + k;
    CountAround(s, at, '@');
    CountZero(s[..at], '@');
    CountZero(s[at + 1..], '@');
    assert AllEmailAtoms(s[..at]);
    assert s[at + 1..dot] == d[..k];
    assert s[dot + 1..] == d[k + 1..];
    assert EmailSplit(s, at, dot);
  }

  lemma IsEmailOfEmailSplit(s: string, at: int, dot: int)
    requires EmailSplit(s, at, dot)
    ensures IsEmail(s)
  {
    EmailSplitNoWs(s, at, dot);
    EmailSplitOneAt(s, at, dot);
    assert forall i :: 0 <= i < at ==> s[i] == s[..at][i];
    assert IndexOf(s, '@') == at;
    assert s[at + 1..][dot - at - 1] == '.';
  }

  lemma EmailSplitNoWs(s: string, at: int, dot: int)
    requires EmailSplit(s, at, dot)
    ensures NoWs(s)
  {
    forall i | 0 <= i < |s| ensures !IsWs(s[i]) {
      if i < at { assert s[i] == s[..at][i]; }
      else if at < i < dot { assert s[i] == s[at + 1..dot][i - at - 1]; }
      else if dot < i { assert s[i] == s[dot + 1..][i - dot - 1]; }
    }
  }

  lemma EmailSplitOneAt(s: string, at: int, dot: int)
    requires EmailSplit(s, at, dot)
    ensures Count(s, '@') == 1
  {
    var tail := s[at + 1..];
    assert tail == s[at + 1..dot] + ([s[dot]] + s[dot + 1..]);
    CountZero(s[..at], '@');
    CountZero(s[at + 1..dot], '@');
    CountZero(s[dot + 1..], '@');
    CountAppend(s[at + 1..dot], [s[dot]] + s[dot + 1..], '@');
    CountAppend([s[dot]], s[dot + 1..], '@');
    CountAround(s, at, '@');
  }

  /** A sample address the pattern accepts. */
  lemma SampleEmailValid()
    ensures IsEmail("a@b.co")
  {
    var t := "a@b.co";
    assert IndexOf(t, '@') == 1;
    assert Count(t, '@') == 1;
    assert t[2..][1] == '.';
  }

  // ---------------------------------------------------------------------------
  // Phone
  // ---------------------------------------------------------------------------

  /** The class `[\s\-\(\)]` that the phone clean-up removes. */
  predicate IsPhoneSeparator(c: char) {
    IsWs(c) || c == '-' || c == '(' || c == ')'
  }

  /** The phone clean-up: every separator is removed, every other character kept in order. */
  function StripPhone(s: string): (r: string)
    ensures |r| <= |s|
    ensures forall i :: 0 <= i < |r| ==> !IsPhoneSeparator(r[i])
  {
    if |s| == 0 then []
    else if IsPhoneSeparator(s[0]) then StripPhone(s[1..])
    else [s[0]] + StripPhone(s[1..])
  }

  /** Stripping works character by character: it distributes over concatenation,
      drops a separator and keeps any other character. With these equations the
      output is the in-order subsequence of the input's non-separators. */
  lemma {:induction false} StripPhoneAppend(a: string, b: string)
    ensures StripPhone(a + b) == StripPhone(a) + StripPhone(b)
  {
    if |a| > 0 {
      assert (a + b)[1..] == a[1..] + b;
      StripPhoneAppend(a[1..], b);
    } else {
      assert a + b == b;
    }
  }

  lemma StripPhoneOne(c: char)
    ensures StripPhone([c]) == if IsPhoneSeparator(c) then [] else [c]
  {
  }

  /** A string without separators is left unchanged. */
  lemma {:induction false} StripPhoneFixed(s: string)
    requires forall i :: 0 <= i < |s| ==> !IsPhoneSeparator(s[i])
    ensures StripPhone(s) == s
  {
    if |s| > 0 {
      StripPhoneFixed(s[1..]);
    }
  }

  /** The clean-up is idempotent. */
  lemma StripPhoneIdempotent(s: string)
    ensures StripPhone(StripPhone(s)) == StripPhone(s)
  {
    StripPhoneFixed(StripPhone(s));
  }

  /** Only white space around a phone number is lost by trimming, and the clean-up
      removes it anyway: stripping the trimmed value equals stripping the raw one. */
  lemma StripPhoneTrim(s: string)
    ensures StripPhone(Trim(s)) == StripPhone(s)
  {
    StripPhoneTrimStart(s);
    StripPhoneTrimEnd(TrimStart(s));
  }

  lemma {:induction false} StripPhoneTrimStart(s: string)
    ensures StripPhone(TrimStart(s)) == StripPhone(s)
  {
    if |s| > 0 && IsWs(s[0]) {
      StripPhoneTrimStart(s[1..]);
    }
  }

  lemma {:induction false} StripPhoneTrimEnd(s: string)
    ensures StripPhone(TrimEnd(s)) == StripPhone(s)
  {
    if |s| > 0 && IsWs(s[|s| - 1]) {
      var init := s[..|s| - 1];
      StripPhoneTrimEnd(init);
      assert s == init + [s[|s| - 1]];
      StripPhoneAppend(init, [s[|s| - 1]]);
    }
  }

  /** `\d` (ASCII digits only, as in a regular expression without the `u` flag). */
  predicate IsDigit(c: char) {
    '0' <= c <= '9'
  }

  predicate AllDigits(s: string) {
    forall i :: 0 <= i < |s| ==> IsDigit(s[i])
  }

  /** `s` reads as an optional `+` of length `p`, a digit 1-9 at index `p`, and 0 to 15 digits. */
  ghost predicate PhoneSplit(s: string, p: int) {
    && (p == 0 || (p == 1 && |s| > 0 && s[0] == '+'))
    && p < |s| && '1' <= s[p] <= '9'
    && AllDigits(s[p + 1..]) && |s| - (p + 1) <= 15
  }

  /** Literal reading of `^[\+]?[1-9][\d]{0,15}$`. */
  ghost predicate PhonePattern(s: string) {
    exists p :: PhoneSplit(s, p)
  }

  /** The phone test: the optional `+` is taken whenever present, since a `+` can never
      stand in for the leading digit. */
  predicate IsPhone(s: string) {
    var p := if |s| > 0 && s[0] == '+' then 1 else 0;
    && p < |s| && '1' <= s[p] <= '9'
    && AllDigits(s[p + 1..]) && |s| - (p + 1) <= 15
  }

  /** Phone characterisation: the executable test accepts exactly the strings that
      match the regular expression, and every accepted string has 1 to 17 characters. */
  lemma PhoneCharacterization(s: string)
    ensures IsPhone(s) <==> PhonePattern(s)
    ensures IsPhone(s) ==> 1 <= |s| <= 17
  {
    if PhonePattern(s) {
      var p :| PhoneSplit(s, p);
    }
    if IsPhone(s) {
      assert PhoneSplit(s, if |s| > 0 && s[0] == '+' then 1 else 0);
    }
  }

}
