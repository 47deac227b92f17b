/** The FluentValidation validators of the frontend forms. A rule chain runs
    every validator of a property (the default cascade), so a property can
    report several messages; a form's result is the list of failures in the
    order the rules are declared, and the form is valid when the list is
    empty. A null field is None; the pattern and length validators let a
    null value through, as FluentValidation's do. */
module FormValidators {
  import opened Common
  import opened CharClasses
  import opened FormPatterns
  import opened ValidationAttributes

  /** A nullable string property. */
  type Field = Option<string>

  datatype ValidationFailure = ValidationFailure(property: string, message: string)

  const Required := "Toto pole je povinné!"
  const InvalidEmail := "Neplatná emailová adresa."
  const Mismatch := "Heslá sa nezhodujú."
  const PhoneFormat := "Použite univerzálny formát: +XXXXXXXXXXXX"
  const SameEmail := "Nový email sa nesmie zhodovať so starým."
  const DescriptionTooLong := "Popis môže mať maximálne 500 znakov."
  const DurationNotPositive := "Trvanie musí byť kladné číslo!"
  const NotUpcoming := "Vyberte nadchádzajúci dátum a čas!"

  /** .NET's `char.IsWhiteSpace`: the space separators, the line and
      paragraph separators, the controls U+0009 to U+000D and U+0085. */
  predicate IsWhiteSpace(c: char)
  {
    || c == ' ' || '\t' <= c <= '\r' || c == '\U{0085}' || c == '\U{00A0}' || c == '\U{1680}'
    || '\U{2000}' <= c <= '\U{200A}' || c == '\U{2028}' || c == '\U{2029}' || c == '\U{202F}'
    || c == '\U{205F}' || c == '\U{3000}'
  }

  /** A present string with a character other than white space: what
      `NotEmpty` accepts (`string.IsNullOrWhiteSpace` is false). */
  predicate Filled(v: Field)
  {
    v.Some? && exists i | 0 <= i < |v.value| :: !IsWhiteSpace(v.value[i])
  }

  /** A present string of length at least one (`string.IsNullOrEmpty` is false). */
  predicate NonEmpty(v: Field)
  {
    v.Some? && |v.value| > 0
  }

  /** A string holding a character of one of the password classes is not blank. */
  lemma ContainsIsFilled(s: string, k: CharKind)
    ensures Contains(s, k) ==> Filled(Some(s))
  {
    if Contains(s, k) {
      var i :| 0 <= i < |s| && InKind(s[i], k);
      assert !IsWhiteSpace(s[i]);
    }
  }

  /** `NotEmpty().WithMessage(message)` */
  function NotEmpty(v: Field, message: string): (r: seq<string>)
    ensures r == [] <==> Filled(v)
    ensures r != [] ==> r == [message]
  {
    if Filled(v) then [] else [message]
  }

  /** `Matches(pattern).WithMessage(message)`; null passes. */
  function Matches(v: Field, pattern: string -> bool, message: string): (r: seq<string>)
    ensures r == [] <==> v.None? || pattern(v.value)
    ensures r != [] ==> r == [message]
  {
    if v.Some? && !pattern(v.value) then [message] else []
  }

  /** A `Must`, `Equal` or comparison validator that has already decided. */
  function Check(ok: bool, message: string): (r: seq<string>)
    ensures r == [] <==> ok
    ensures r != [] ==> r == [message]
  {
    if ok then [] else [message]
  }

  /** The messages of one property, tagged with its name. */
  function Tag(property: string, messages: seq<string>): (r: seq<ValidationFailure>)
    ensures |r| == |messages|
    ensures forall i | 0 <= i < |r| :: r[i] == ValidationFailure(property, messages[i])
  {
    seq(|messages|, i requires 0 <= i < |messages| => ValidationFailure(property, messages[i]))
  }

  // ---------------------------------------------------------------------
  // Password chains

  /** The four class searches and the minimum length, shared by the
      registration chain. */
  function ComplexityRules(v: Field): seq<string>
  {
    Matches(v, s => Contains(s, Digit), DigitMessage)
    + Matches(v, s => Contains(s, Lower), LowerMessage)
    + Matches(v, s => Contains(s, Upper), UpperMessage)
    + Matches(v, s => Contains(s, Special), SpecialMessage)
    + Check(v.None? || |v.value| >= 8, LengthMessage)
  }

  /** The same checks written as lookaheads, as on the password-change form. */
  function LookaheadRules(v: Field): seq<string>
  {
    Matches(v, s => LookaheadMatches(s, Digit), DigitMessage)
    + Matches(v, s => LookaheadMatches(s, Lower), LowerMessage)
    + Matches(v, s => LookaheadMatches(s, Upper), UpperMessage)
    + Matches(v, s => LookaheadMatches(s, Special), SpecialMessage)
    + Check(v.None? || |v.value| >= 8, LengthMessage)
  }

  /** The `Password` chain of the registration form: it accepts exactly the
      strong passwords. */
  function RegisterPasswordRules(v: Field): (r: seq<string>)
    ensures r == [] <==> v.Some? && StrongPassword(v.value)
  {
    match v
    case None => NotEmpty(v, "Heslo je povinné.") + ComplexityRules(v)
    case Some(s) =>
      ContainsIsFilled(s, Digit);
      NotEmpty(v, "Heslo je povinné.") + ComplexityRules(v)
  }

  /** The `NewPassword` chain of the password-change form: it accepts
      exactly the strong passwords. */
  function NewPasswordRules(v: Field): (r: seq<string>)
    ensures r == [] <==> v.Some? && StrongPassword(v.value)
  {
    match v
    case None => NotEmpty(v, Required) + LookaheadRules(v)
    case Some(s) =>
      LookaheadIsContains(s, Digit);
      LookaheadIsContains(s, Lower);
      LookaheadIsContains(s, Upper);
      LookaheadIsContains(s, Special);
      ContainsIsFilled(s, Digit);
      NotEmpty(v, Required) + LookaheadRules(v)
  }

  /** The three password policies agree: the registration chain, the
      lookahead chain and the complexity attribute accept the same strings,
      and on a string that is not blank both chains report first the message
      the attribute returns. */
  lemma PasswordRuleSetsAgree(s: string)
    ensures RegisterPasswordRules(Some(s)) == [] <==> PasswordComplexity(s).None?
    ensures NewPasswordRules(Some(s)) == [] <==> PasswordComplexity(s).None?
    ensures Filled(Some(s)) && PasswordComplexity(s).Some? ==>
              && RegisterPasswordRules(Some(s))[0] == PasswordComplexity(s).value
              && NewPasswordRules(Some(s))[0] == PasswordComplexity(s).value
  {
    LookaheadIsContains(s, Digit);
    LookaheadIsContains(s, Lower);
    LookaheadIsContains(s, Upper);
    LookaheadIsContains(s, Special);
    ContainsIsFilled(s, Digit);
    assert LookaheadRules(Some(s)) == ComplexityRules(Some(s));
  }

  // ---------------------------------------------------------------------
  // Registration

  datatype RegisterInput = RegisterInput(email: Field, password: Field, confirmPassword: Field,
                                         firstName: Field, lastName: Field, phoneNumber: Field)

  /** What the registration form requires under a reading of its patterns,
      stated field by field. */
  predicate RegisterAccepted(f: RegisterInput, reading: Reading)
  {
    && f.email.Some? && EmailUnder(reading, f.email.value)
    && f.password.Some? && StrongPassword(f.password.value)
    && Filled(f.confirmPassword) && f.confirmPassword == f.password
    && Filled(f.firstName) && Filled(f.lastName)
    && f.phoneNumber.Some? && PhoneUnder(reading, f.phoneNumber.value)
  }

  /** `EmailAddress().WithMessage(InvalidEmail)`; null passes. */
  function EmailAddress(v: Field): (r: seq<string>)
    ensures r == [] <==> v.None? || EmailAddressCompatible(v.value)
    ensures r != [] ==> r == [InvalidEmail]
  {
    Matches(v, EmailAddressCompatible, InvalidEmail)
  }

  /** A string holding an '@' is not blank. */
  lemma AtIsFilled(s: string)
    ensures (exists i | 0 <= i < |s| :: s[i] == '@') ==> Filled(Some(s))
  {
    if exists i | 0 <= i < |s| :: s[i] == '@' {
      var i :| 0 <= i < |s| && s[i] == '@';
      assert !IsWhiteSpace(s[i]);
    }
  }

  /** A required address that passes `EmailAddress()` and the email pattern
      under `reading`; the pattern alone decides. */
  function EmailRules(v: Field, requiredMessage: string, reading: Reading): (r: seq<string>)
    ensures r == [] <==> v.Some? && EmailUnder(reading, v.value)
  {
    match v
    case None =>
      NotEmpty(v, requiredMessage) + EmailAddress(v) + Matches(v, s => EmailUnder(reading, s), InvalidEmail)
    case Some(s) =>
      EmailUnderShape(reading, s);
      AtIsFilled(s);
      NotEmpty(v, requiredMessage) + EmailAddress(v) + Matches(v, s => EmailUnder(reading, s), InvalidEmail)
  }

  /** A required phone in the universal format, under `reading`. */
  function PhoneRules(v: Field, requiredMessage: string, reading: Reading): (r: seq<string>)
    ensures r == [] <==> v.Some? && PhoneUnder(reading, v.value)
  {
    match v
    case None => NotEmpty(v, requiredMessage) + Matches(v, s => PhoneUnder(reading, s), PhoneFormat)
    case Some(s) =>
      PhoneUnderStartsWithPlus(reading, s);
      assert PhoneUnder(reading, s) ==> !IsWhiteSpace(s[0]);
      NotEmpty(v, requiredMessage) + Matches(v, s => PhoneUnder(reading, s), PhoneFormat)
  }

  /** A required confirmation equal to the value it confirms. */
  function ConfirmRules(v: Field, confirmed: Field, requiredMessage: string): (r: seq<string>)
    ensures r == [] <==> Filled(v) && v == confirmed
  {
    NotEmpty(v, requiredMessage) + Check(v == confirmed, Mismatch)
  }

  /** `RegisterInputModelValidator`; with `AsWritten` as .NET runs it, with
      `Intended` with the patterns as evidently meant. */
  function ValidateRegister(f: RegisterInput, reading: Reading): (r: seq<ValidationFailure>)
    ensures r == [] <==> RegisterAccepted(f, reading)
  {
    Tag("Email", EmailRules(f.email, "Email je povinný.", reading))
    + Tag("Password", RegisterPasswordRules(f.password))
    + Tag("ConfirmPassword", ConfirmRules(f.confirmPassword, f.password, "Potvrdenie hesla je povinné."))
    + Tag("FirstName", NotEmpty(f.firstName, "Meno je povinné."))
    + Tag("LastName", NotEmpty(f.lastName, "Priezvisko je povinné."))
    + Tag("PhoneNumber", PhoneRules(f.phoneNumber, "Telefón je povinný.", reading))
  }

  /** A registration that .NET's reading of the patterns accepts: valid
      fields, and a phone number followed by a newline. */
  const NewlinePhoneRegistration := RegisterInput(Some("a@bc.de"), Some("Abcdef1!"), Some("Abcdef1!"),
                                                  Some("A"), Some("B"), Some("+421949111111\n"))

  /** As .NET runs it, the registration form accepts a phone number with a
      trailing newline, which the backend's pattern on `User.phoneNumber`
      refuses. */
  lemma RegisterAdmitsBackendRefusedPhone()
    ensures ValidateRegister(NewlinePhoneRegistration, AsWritten) == []
    ensures !Entities.PhonePattern(NewlinePhoneRegistration.phoneNumber.value)
  {
    var f := NewlinePhoneRegistration;
    SampleAddressMatches();
    PasswordLengthBoundary();
    assert !IsWhiteSpace(f.password.value[0]) && !IsWhiteSpace(f.firstName.value[0])
           && !IsWhiteSpace(f.lastName.value[0]);
    PhoneAsWrittenNotWithinBackend();
    assert RegisterAccepted(f, AsWritten);
  }

  /** With the patterns as intended, a registration the form accepts carries
      a phone the backend accepts too. */
  lemma RegisteredPhoneAcceptedByBackend(f: RegisterInput)
    requires ValidateRegister(f, Intended) == []
    ensures Entities.PhonePattern(f.phoneNumber.value)
  {
    PhoneWithinBackend(f.phoneNumber.value);
  }

  // ---------------------------------------------------------------------
  // Password change

  datatype PasswordChangeInput = PasswordChangeInput(password: Field, newPassword: Field, confirmNewPassword: Field)

  /** `PasswordChangeInputValidator` */
  function ValidatePasswordChange(f: PasswordChangeInput): (r: seq<ValidationFailure>)
    ensures r == [] <==>
              && Filled(f.password)
              && f.newPassword.Some? && StrongPassword(f.newPassword.value)
              && Filled(f.confirmNewPassword) && f.confirmNewPassword == f.newPassword
  {
    Tag("Password", NotEmpty(f.password, Required))
    + Tag("NewPassword", NewPasswordRules(f.newPassword))
    + Tag("ConfirmNewPassword", ConfirmRules(f.confirmNewPassword, f.newPassword, Required))
  }

  /** The current password is only required to be present: replacing it by
      any other non-empty string, equal to the new one or not, changes
      nothing in the result. */
  lemma CurrentPasswordUnconstrained(f: PasswordChangeInput, other: string)
    requires Filled(f.password) && Filled(Some(other))
    ensures ValidatePasswordChange(f.(password := Some(other))) == ValidatePasswordChange(f)
  {
  }

  // ---------------------------------------------------------------------
  // Email change

  datatype EmailChangeInput = EmailChangeInput(email: Field, newEmail: Field, password: Field)

  /** `ChangeEmailInputValidator`, under a reading of the email pattern. */
  function ValidateEmailChange(f: EmailChangeInput, reading: Reading): (r: seq<ValidationFailure>)
    ensures r == [] <==>
              && f.email.Some? && EmailUnder(reading, f.email.value)
              && f.newEmail.Some? && EmailUnder(reading, f.newEmail.value) && f.newEmail != f.email
              && Filled(f.password)
  {
    Tag("Email", EmailRules(f.email, Required, reading))
    + Tag("NewEmail", EmailRules(f.newEmail, Required, reading) + Check(f.newEmail != f.email, SameEmail))
    + Tag("Password", NotEmpty(f.password, Required))
  }

  /** As .NET runs it, the email-change form accepts a new address with a
      trailing newline; with the pattern as intended it does not. */
  lemma EmailChangeAdmitsTrailingNewline()
    ensures var f := EmailChangeInput(Some("a@bc.de"), Some("a@bc.de\n"), Some("p"));
            ValidateEmailChange(f, AsWritten) == [] && ValidateEmailChange(f, Intended) != []
  {
    var f := EmailChangeInput(Some("a@bc.de"), Some("a@bc.de\n"), Some("p"));
    SampleAddressMatches();
    EmailTrailingNewlineAccepted();
    assert f.newEmail != f.email by {
      assert |"a@bc.de"| != |"a@bc.de\n"|;
    }
    assert Filled(f.password) by {
      assert !IsWhiteSpace("p"[0]);
    }
  }

  // ---------------------------------------------------------------------
  // Profile

  datatype ProfileInput = ProfileInput(degree: Field, email: Field, firstName: Field, lastName: Field,
                                       phoneNumber: Field, description: Field)

  /** `MaximumLength(500)` applied only `When` the description is neither
      null nor empty. */
  function DescriptionRules(v: Field): (r: seq<string>)
    ensures r == [] <==> v.None? || |v.value| <= 500
  {
    if NonEmpty(v) then Check(|v.value| <= 500, DescriptionTooLong) else []
  }

  /** The profile's `Email` chain: required, and `EmailAddress()` without
      the pattern. */
  function ProfileEmailRules(v: Field): (r: seq<string>)
    ensures r == [] <==> Filled(v) && EmailAddressCompatible(v.value)
  {
    NotEmpty(v, Required) + EmailAddress(v)
  }

  /** `ProfileInputValidator`, under a reading of the phone pattern. */
  function ValidateProfile(f: ProfileInput, reading: Reading): (r: seq<ValidationFailure>)
    ensures r == [] <==>
              && Filled(f.email) && EmailAddressCompatible(f.email.value)
              && Filled(f.firstName) && Filled(f.lastName)
              && f.phoneNumber.Some? && PhoneUnder(reading, f.phoneNumber.value)
              && (f.description.Some? ==> |f.description.value| <= 500)
  {
    Tag("Email", ProfileEmailRules(f.email))
    + Tag("FirstName", NotEmpty(f.firstName, Required))
    + Tag("LastName", NotEmpty(f.lastName, Required))
    + Tag("PhoneNumber", PhoneRules(f.phoneNumber, Required, reading))
    + Tag("Description", DescriptionRules(f.description))
  }

  /** The description boundary: 500 characters pass and 501 do not; an
      absent or empty description always passes. */
  lemma DescriptionBoundary(d: string)
    ensures DescriptionRules(None) == [] && DescriptionRules(Some("")) == []
    ensures |d| == 500 ==> DescriptionRules(Some(d)) == []
    ensures |d| == 501 ==> DescriptionRules(Some(d)) == [DescriptionTooLong]
  {
  }

  // ---------------------------------------------------------------------
  // Meeting creation

  /** Times are whole minutes counted from `DateTime.MinValue`. */
  datatype CreateMeetingInput = CreateMeetingInput(subject: Field, duration: Option<int>, combinedDateTime: Option<int>)

  /** `BeAFutureDate` at time `now`. */
  predicate BeAFutureDate(date: Option<int>, now: int)
  {
    date.Some? && date.value > now
  }

  /** `Duration`, an `int?`: `NotEmpty` refuses only null, the default of a
      nullable type, and `GreaterThan(0)` lets null through. */
  function DurationRules(d: Option<int>): (r: seq<string>)
    ensures r == [] <==> d.Some? && d.value > 0
    ensures d.None? ==> r == [Required]
    ensures d.Some? && d.value <= 0 ==> r == [DurationNotPositive]
  {
    Check(d.Some?, Required) + Check(d.None? || d.value > 0, DurationNotPositive)
  }

  /** `CombinedDateTime`, a `DateTime?`: `NotEmpty` refuses only null, and
      the `Must` runs on null too. */
  function DateRules(t: Option<int>, now: int): (r: seq<string>)
    ensures r == [] <==> t.Some? && t.value > now
    ensures t.None? ==> r == [Required, NotUpcoming]
    ensures t.Some? && t.value <= now ==> r == [NotUpcoming]
  {
    Check(t.Some?, Required) + Check(BeAFutureDate(t, now), NotUpcoming)
  }

  /** `CreateMeetingInputValidator` at time `now`. */
  function ValidateCreateMeeting(f: CreateMeetingInput, now: int): (r: seq<ValidationFailure>)
    ensures r == [] <==>
              && Filled(f.subject)
              && f.duration.Some? && f.duration.value > 0
              && f.combinedDateTime.Some? && f.combinedDateTime.value > now
  {
    Tag("Subject", NotEmpty(f.subject, Required))
    + Tag("Duration", DurationRules(f.duration))
    + Tag("CombinedDateTime", DateRules(f.combinedDateTime, now))
  }

  /** A meeting set for the current minute is not in the future. */
  lemma MeetingAtNowRefused(f: CreateMeetingInput, now: int)
    requires f.combinedDateTime == Some(now)
    ensures ValidateCreateMeeting(f, now) != []
  {
  }

  /** The attribute and `BeAFutureDate` agree on every present date; on a
      missing date the attribute passes while `BeAFutureDate` fails. */
  lemma FutureChecksAgreeOnDates(t: int, now: int, memberName: string)
    ensures FutureDateTimeOnly(DateTimeValue(t), now, memberName).Success? <==> BeAFutureDate(Some(t), now)
    ensures FutureDateTimeOnly(Null, now, memberName).Success? && !BeAFutureDate(None, now)
  {
  }
}
