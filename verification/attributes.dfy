/** The two validation attributes of the frontend: the password complexity
    check and the future-date check. Each returns success or the first
    message that applies. */
module ValidationAttributes {
  import opened Common
  import opened FormPatterns

  const DigitMessage := "Heslo musí obsahovať číslicu."
  const LowerMessage := "Heslo musí obsahovať malé písmeno."
  const UpperMessage := "Heslo musí obsahovať veľké písmeno."
  const SpecialMessage := "Heslo musí obsahovať špeciálny znak."
  const LengthMessage := "Dĺžka hesla musí byť najmenej 8 znakov."

  /** The complexity policy as a single condition: a digit, a lower-case and
      an upper-case ASCII letter, one of the thirteen special characters,
      and at least eight characters. */
  predicate StrongPassword(s: string)
  {
    Contains(s, Digit) && Contains(s, Lower) && Contains(s, Upper) && Contains(s, Special) && |s| >= 8
  }

  /** `PasswordComplexityAttribute.IsValid`: None for success, otherwise the
      message of the first failing check, in the order digit, lower case,
      upper case, special character, length. */
  function PasswordComplexity(password: string): (r: Option<string>)
    ensures r.None? <==> StrongPassword(password)
    ensures r == Some(DigitMessage) <==> !Contains(password, Digit)
    ensures r == Some(LowerMessage) <==> Contains(password, Digit) && !Contains(password, Lower)
    ensures r == Some(UpperMessage) <==>
              Contains(password, Digit) && Contains(password, Lower) && !Contains(password, Upper)
    ensures r == Some(SpecialMessage) <==>
              Contains(password, Digit) && Contains(password, Lower) && Contains(password, Upper)
              && !Contains(password, Special)
    ensures r == Some(LengthMessage) <==>
              Contains(password, Digit) && Contains(password, Lower) && Contains(password, Upper)
              && Contains(password, Special) && |password| < 8
  {
    if !Contains(password, Digit) then Some(DigitMessage)
    else if !Contains(password, Lower) then Some(LowerMessage)
    else if !Contains(password, Upper) then Some(UpperMessage)
    else if !Contains(password, Special) then Some(SpecialMessage)
    else if |password| < 8 then Some(LengthMessage)
    else None
  }

  /** The length boundary: eight characters drawing on every class pass,
      seven fail on length alone. */
  lemma PasswordLengthBoundary()
    ensures PasswordComplexity("Abcdef1!") == None
    ensures PasswordComplexity("Abcde1!") == Some(LengthMessage)
  {
    assert InKind("Abcdef1!"[6], Digit) && InKind("Abcdef1!"[1], Lower);
    assert InKind("Abcdef1!"[0], Upper) && InKind("Abcdef1!"[7], Special);
    assert InKind("Abcde1!"[5], Digit) && InKind("Abcde1!"[1], Lower);
    assert InKind("Abcde1!"[0], Upper) && InKind("Abcde1!"[6], Special);
  }

  /** A password whose only punctuation is '-', '.' or '?' is refused for
      lacking a special character. */
  lemma OtherPunctuationRefused()
    ensures PasswordComplexity("Abcdef1-.?") == Some(SpecialMessage)
  {
    var s := "Abcdef1-.?";
    assert InKind(s[6], Digit) && InKind(s[1], Lower) && InKind(s[0], Upper);
    OtherPunctuationNotSpecial();
    assert forall i | 0 <= i < |s| :: !IsSpecial(s[i]);
  }

  // ---------------------------------------------------------------------

  const PastMessage := "Nie je možné zvoliť uplynulý termín."

  /** The value a form field holds: null, a date and time (whole minutes),
      or a value of some other type. */
  datatype FormValue = Null | DateTimeValue(at: int) | OtherValue

  /** A data-annotation result: success, or a message with the names of the
      members it concerns. */
  datatype Verdict = Success | Failure(message: string, memberNames: seq<string>)

  /** `FutureDateTimeOnlyAttribute.IsValid` at time `now`: a date and time
      must lie strictly after `now`; any other value passes. */
  function FutureDateTimeOnly(value: FormValue, now: int, memberName: string): (r: Verdict)
    ensures r.Success? <==> !value.DateTimeValue? || value.at > now
    ensures r.Failure? ==> r.message == PastMessage && r.memberNames == [memberName]
  {
    match value
    case DateTimeValue(at) =>
      if at > now then Success else Failure(PastMessage, [memberName])
    case _ => Success
  }
}
