/** The regular expressions of the frontend forms, written out as predicates
    over characters. Two readings are kept where they differ: the pattern as
    .NET evaluates it (`\d` matches decimal digits, of which ASCII and five
    further digit sets are modelled, and `$` also matches just before a final
    newline), and the pattern as evidently meant (ASCII digits, `$` at the
    end of the input). The form validators take the reading as a parameter;
    `AsWritten` is how .NET runs them. */
module FormPatterns {
  import opened CharClasses
  import Entities

  // ---------------------------------------------------------------------
  // Password character classes

  /** `[!@#$%^&*()_+=]`: thirteen characters; the `^` is literal because it
      does not open the bracket expression. */
  predicate IsSpecial(c: char)
  {
    c in "!@#$%^&*()_+="
  }

  /** The four classes a password must draw from. */
  datatype CharKind = Digit | Lower | Upper | Special

  predicate InKind(c: char, k: CharKind)
  {
    match k
    case Digit => IsAsciiDigit(c)
    case Lower => IsAsciiLower(c)
    case Upper => IsAsciiUpper(c)
    case Special => IsSpecial(c)
  }

  /** `Regex.IsMatch(s, "[...]")`: an unanchored search for one member of the class. */
  predicate Contains(s: string, k: CharKind)
  {
    exists i | 0 <= i < |s| :: InKind(s[i], k)
  }

  predicate NoNewline(s: string)
  {
    forall i | 0 <= i < |s| :: s[i] != '\n'
  }

  /** `Regex.IsMatch(s, "(?=.*[...])")`: from some start position, a run of
      characters other than a newline (what `.` matches) is followed by a
      member of the class. */
  predicate LookaheadMatches(s: string, k: CharKind)
  {
    exists p, q | 0 <= p <= q < |s| :: NoNewline(s[p..q]) && InKind(s[q], k)
  }

  /** The lookahead form accepts exactly the strings the plain class search
      accepts: `.*` may match the empty run right before the member. */
  lemma LookaheadIsContains(s: string, k: CharKind)
    ensures LookaheadMatches(s, k) <==> Contains(s, k)
  {
    if Contains(s, k) {
      var i :| 0 <= i < |s| && InKind(s[i], k);
      assert NoNewline(s[i..i]);
    }
  }

  /** Characters outside the thirteen do not count as special. */
  lemma OtherPunctuationNotSpecial()
    ensures !IsSpecial('-') && !IsSpecial('.') && !IsSpecial('?')
  {
  }

  // ---------------------------------------------------------------------
  // Email: ^[a-zA-Z0-9._%+-]+@[a-zA-Z0-9.-]+\.[a-zA-Z]{2,}$

  /** `[a-zA-Z0-9._%+-]` */
  predicate IsLocalChar(c: char)
  {
    IsAsciiLetter(c) || IsAsciiDigit(c) || c in "._%+-"
  }

  /** `[a-zA-Z0-9.-]` */
  predicate IsDomainChar(c: char)
  {
    IsAsciiLetter(c) || IsAsciiDigit(c) || c == '.' || c == '-'
  }

  predicate AllLocal(s: string)
  {
    forall i | 0 <= i < |s| :: IsLocalChar(s[i])
  }

  predicate AllDomain(s: string)
  {
    forall i | 0 <= i < |s| :: IsDomainChar(s[i])
  }

  /** `[a-zA-Z0-9.-]+\.[a-zA-Z]{2,}` against the whole of `d`: a non-empty
      run of domain characters, a dot, and at least two letters. */
  predicate DomainPart(d: string)
  {
    exists j | 1 <= j <= |d| - 3 :: AllDomain(d[..j]) && d[j] == '.' && AllLetters(d[j + 1..])
  }

  /** The email pattern against the whole input, `$` read as end of input. */
  predicate Email(s: string)
  {
    exists i | 1 <= i < |s| :: AllLocal(s[..i]) && s[i] == '@' && DomainPart(s[i + 1..])
  }

  /** The email pattern as .NET evaluates it: `$` also matches right before
      a final newline, so one trailing newline is tolerated. */
  predicate EmailAsWritten(s: string)
  {
    Email(s) || (|s| > 0 && s[|s| - 1] == '\n' && Email(s[..|s| - 1]))
  }

  lemma LocalHasNoAt(t: string)
    requires AllLocal(t)
    ensures Occurrences(t, '@') == 0
  {
    forall k | 0 <= k < |t|
      ensures t[k] != '@'
    {
      assert IsLocalChar(t[k]);
    }
    OccurrencesAbsent(t, '@');
  }

  /** A matching domain part holds no '@' and ends with a dot and two or
      more letters; `j` is the position of that dot. */
  lemma DomainPartShape(d: string) returns (j: nat)
    requires DomainPart(d)
    ensures Occurrences(d, '@') == 0
    ensures 1 <= j <= |d| - 3 && d[j] == '.' && AllLetters(d[j + 1..])
    ensures IsAsciiLetter(d[|d| - 1])
  {
    j :| 1 <= j <= |d| - 3 && AllDomain(d[..j]) && d[j] == '.' && AllLetters(d[j + 1..]);
    forall k | 0 <= k < |d|
      ensures d[k] != '@'
    {
      if k < j {
        assert d[k] == d[..j][k];
        assert IsDomainChar(d[..j][k]);
      } else if k > j {
        assert d[k] == d[j + 1..][k - j - 1];
        assert IsAsciiLetter(d[j + 1..][k - j - 1]);
      }
    }
    OccurrencesAbsent(d, '@');
    assert d[|d| - 1] == d[j + 1..][|d| - j - 2];
  }

  /** An '@' after a run without one and before a run without one is the
      only '@'. */
  lemma SingleAt(s: string, i: nat)
    requires i < |s| && s[i] == '@'
    requires Occurrences(s[..i], '@') == 0 && Occurrences(s[i + 1..], '@') == 0
    ensures Occurrences(s, '@') == 1
  {
    OccurrencesAround(s, i, '@');
  }

  /** The '@' at which an accepted address splits into its local part and
      its domain part. */
  lemma EmailAt(s: string) returns (i: nat)
    requires Email(s)
    ensures 1 <= i < |s| && AllLocal(s[..i]) && s[i] == '@' && DomainPart(s[i + 1..])
  {
    i :| 1 <= i < |s| && AllLocal(s[..i]) && s[i] == '@' && DomainPart(s[i + 1..]);
  }

  /** The dot before the top-level letters of the domain part that follows
      the '@' at `i`, measured from the start of the address. */
  lemma DomainAt(s: string, i: nat) returns (dot: nat)
    requires i < |s| && DomainPart(s[i + 1..])
    ensures i < dot < |s| - 2
    ensures Occurrences(s[i + 1..], '@') == 0
    ensures s[dot] == '.' && AllLetters(s[dot + 1..])
    ensures IsAsciiLetter(s[|s| - 1])
  {
    var d := s[i + 1..];
    var j := DomainPartShape(d);
    dot := i + 1 + j;
    assert s[dot] == d[j];
    assert s[dot + 1..] == d[j + 1..];
    assert s[|s| - 1] == d[|d| - 1];
  }

  /** The '@' that splits an accepted address, and the dot before its
      top-level letters, measured from the start of the address. */
  lemma EmailSplit(s: string) returns (i: nat, dot: nat)
    requires Email(s)
    ensures 1 <= i < dot < |s| - 2
    ensures Occurrences(s[..i], '@') == 0 && s[i] == '@' && Occurrences(s[i + 1..], '@') == 0
    ensures s[dot] == '.' && AllLetters(s[dot + 1..])
    ensures IsAsciiLetter(s[|s| - 1]) && s[0] != '@'
  {
    i := EmailAt(s);
    LocalHasNoAt(s[..i]);
    assert IsLocalChar(s[..i][0]);
    dot := DomainAt(s, i);
  }

  /** Every accepted email holds exactly one '@' and ends with a dot and at
      least two ASCII letters. */
  lemma EmailShape(s: string)
    requires Email(s)
    ensures Occurrences(s, '@') == 1
    ensures exists j | 0 <= j < |s| - 2 :: s[j] == '.' && AllLetters(s[j + 1..])
    ensures IsAsciiLetter(s[|s| - 1])
  {
    var i, dot := EmailSplit(s);
    SingleAt(s, i);
  }

  /** FluentValidation's `EmailAddress()` in its default mode (compatible
      with ASP.NET Core): exactly one '@', neither first nor last. */
  predicate EmailAddressCompatible(s: string)
  {
    |s| > 0 && Occurrences(s, '@') == 1 && s[0] != '@' && s[|s| - 1] != '@'
  }

  /** Every address the pattern accepts also passes `EmailAddress()`, so on
      the forms that apply both, the pattern alone decides. */
  lemma EmailWithinEmailAddress(s: string)
    ensures Email(s) ==> EmailAddressCompatible(s)
  {
    if Email(s) {
      var i, dot := EmailSplit(s);
      SingleAt(s, i);
    }
  }

  /** A trailing newline adds no '@'. */
  lemma NewlineAddsNoAt(t: string)
    ensures Occurrences(t + "\n", '@') == Occurrences(t, '@')
  {
    OccurrencesAppend(t, "\n", '@');
    OccurrencesAbsent("\n", '@');
  }

  /** The email pattern as .NET evaluates it also passes `EmailAddress()`:
      a trailing newline is neither an '@' nor a second one. */
  lemma EmailAsWrittenWithinEmailAddress(s: string)
    ensures EmailAsWritten(s) ==> EmailAddressCompatible(s)
  {
    EmailWithinEmailAddress(s);
    if EmailAsWritten(s) && !Email(s) {
      var t := s[..|s| - 1];
      EmailWithinEmailAddress(t);
      assert s == t + "\n";
      NewlineAddsNoAt(t);
      assert s[0] == t[0];
    }
  }

  /** The pattern accepts every address built from a non-empty local part,
      a non-empty domain host and a top-level part of two or more letters. */
  lemma EmailAccepts(local: string, host: string, top: string)
    requires |local| >= 1 && AllLocal(local)
    requires |host| >= 1 && AllDomain(host)
    requires |top| >= 2 && AllLetters(top)
    ensures Email(local + "@" + host + "." + top)
  {
    var s := local + "@" + host + "." + top;
    var i := |local|;
    var d := host + "." + top;
    assert s[..i] == local && s[i] == '@' && s[i + 1..] == d;
    assert d[..|host|] == host && d[|host|] == '.' && d[|host| + 1..] == top;
  }

  /** The sample address "a@bc.de" matches the email pattern in both readings. */
  lemma SampleAddressMatches()
    ensures Email("a@bc.de") && EmailAsWritten("a@bc.de")
  {
    EmailAccepts("a", "bc", "de");
    assert "a" + "@" + "bc" + "." + "de" == "a@bc.de";
  }

  /** What the trailing `$` lets through: an address followed by a newline
      passes the pattern as .NET evaluates it, but not as intended. */
  lemma EmailTrailingNewlineAccepted()
    ensures EmailAsWritten("a@bc.de\n") && !Email("a@bc.de\n")
  {
    var s := "a@bc.de\n";
    SampleAddressMatches();
    assert s[..|s| - 1] == "a@bc.de";
    if Email(s) {
      var i, dot := EmailSplit(s);
    }
  }

  // ---------------------------------------------------------------------
  // Phone: ^\+\d{12}$

  /** The intended reading is a restriction of the written one. */
  lemma PhoneWithinAsWritten(s: string)
    requires Phone(s)
    ensures PhoneAsWritten(s)
  {
    forall i | 1 <= i < 13
      ensures IsAsciiDigit(s[i])
    {
      assert s[i] == s[1..][i - 1];
    }
  }

  /** Some decimal digits of Unicode category Nd, all of which .NET's `\d`
      matches: ASCII, Arabic-Indic, extended Arabic-Indic, Devanagari,
      Bengali and fullwidth digits. */
  predicate IsUnicodeDecimalDigit(c: char)
  {
    || IsAsciiDigit(c)
    || '\U{0660}' <= c <= '\U{0669}'
    || '\U{06F0}' <= c <= '\U{06F9}'
    || '\U{0966}' <= c <= '\U{096F}'
    || '\U{09E6}' <= c <= '\U{09EF}'
    || '\U{FF10}' <= c <= '\U{FF19}'
  }

  /** `^\+\d{12}$` against the whole input with `\d` as an ASCII digit. */
  predicate Phone(s: string)
  {
    |s| == 13 && s[0] == '+' && AllDigits(s[1..])
  }

  /** `\+\d{12}` with .NET's Unicode `\d`. */
  predicate PhoneBodyUnicode(s: string)
  {
    |s| == 13 && s[0] == '+' && forall i | 1 <= i < 13 :: IsUnicodeDecimalDigit(s[i])
  }

  /** The phone pattern as .NET evaluates it: Unicode digits, and a final
      newline tolerated by `$`. */
  predicate PhoneAsWritten(s: string)
  {
    PhoneBodyUnicode(s) || (|s| > 0 && s[|s| - 1] == '\n' && PhoneBodyUnicode(s[..|s| - 1]))
  }

  /** Every phone the form accepts is accepted by the backend's pattern on
      `User.phoneNumber`: '+' and twelve digits is '+' and 2 to 18 digits. */
  lemma PhoneWithinBackend(s: string)
    requires Phone(s)
    ensures Entities.PhonePattern(s)
  {
    Entities.PhonePatternShape(s);
  }

  /** The form's phone rule as written lets through phones the backend
      refuses: one with an Arabic-Indic digit, and one with a trailing newline. */
  lemma PhoneAsWrittenNotWithinBackend()
    ensures var arabic := "+" + ['\U{0661}'] + "42194911111";
            PhoneAsWritten(arabic) && !Entities.PhonePattern(arabic)
    ensures var newline := "+421949111111\n";
            PhoneAsWritten(newline) && !Entities.PhonePattern(newline)
  {
    var arabic := "+" + ['\U{0661}'] + "42194911111";
    Entities.PhonePatternShape(arabic);
    assert !IsAsciiDigit(arabic[1..][0]);
    var newline := "+421949111111\n";
    Entities.PhonePatternShape(newline);
    assert newline[..|newline| - 1] == "+421949111111";
    assert !IsAsciiDigit(newline[1..][12]);
  }

  // ---------------------------------------------------------------------
  // The two readings

  /** Which reading of a form pattern applies: as .NET evaluates it, or as
      evidently meant. */
  datatype Reading = AsWritten | Intended

  /** The email pattern under a reading. */
  predicate EmailUnder(reading: Reading, s: string)
  {
    match reading
    case AsWritten => EmailAsWritten(s)
    case Intended => Email(s)
  }

  /** The phone pattern under a reading. */
  predicate PhoneUnder(reading: Reading, s: string)
  {
    match reading
    case AsWritten => PhoneAsWritten(s)
    case Intended => Phone(s)
  }

  /** Under either reading a matching address passes `EmailAddress()` and
      holds an '@'. */
  lemma EmailUnderShape(reading: Reading, s: string)
    ensures EmailUnder(reading, s) ==> EmailAddressCompatible(s)
    ensures EmailUnder(reading, s) ==> exists i | 0 <= i < |s| :: s[i] == '@'
  {
    EmailAsWrittenWithinEmailAddress(s);
    EmailWithinEmailAddress(s);
    if EmailUnder(reading, s) {
      var t := if Email(s) then s else s[..|s| - 1];
      var i, dot := EmailSplit(t);
      assert s[i] == t[i];
    }
  }

  /** Under either reading a matching phone begins with '+'. */
  lemma PhoneUnderStartsWithPlus(reading: Reading, s: string)
    ensures PhoneUnder(reading, s) ==> |s| > 0 && s[0] == '+'
  {
    if PhoneUnder(reading, s) && !PhoneBodyUnicode(s) && !Phone(s) {
      assert s[0] == s[..|s| - 1][0];
    }
  }
}
