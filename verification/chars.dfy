/** Character classes used by the regular expressions of the backend and the
    frontend, written out as predicates. Every class here is an ASCII range
    or an explicit list, exactly as the bracket expressions spell them. */
module CharClasses {

  /** `[0-9]`, and `\d` in Java's default (non-Unicode) mode. */
  predicate IsAsciiDigit(c: char) { '0' <= c <= '9' }

  /** `[a-z]` */
  predicate IsAsciiLower(c: char) { 'a' <= c <= 'z' }

  /** `[A-Z]` */
  predicate IsAsciiUpper(c: char) { 'A' <= c <= 'Z' }

  /** `[a-zA-Z]` */
  predicate IsAsciiLetter(c: char) { IsAsciiLower(c) || IsAsciiUpper(c) }

  /** Every character of `s` is an ASCII digit. */
  predicate AllDigits(s: string)
  {
    forall i | 0 <= i < |s| :: IsAsciiDigit(s[i])
  }

  lemma AllDigitsSlice(s: string, a: nat, b: nat)
    requires a <= b <= |s|
    requires AllDigits(s)
    ensures AllDigits(s[a..b])
  {
    forall i | 0 <= i < b - a
      ensures IsAsciiDigit(s[a..b][i])
    {
      assert s[a..b][i] == s[a + i];
    }
  }

  /** Every character of `s` is an ASCII letter. */
  predicate AllLetters(s: string)
  {
    forall i | 0 <= i < |s| :: IsAsciiLetter(s[i])
  }

  /** Number of occurrences of `c` in `s`. */
  function Occurrences(s: string, c: char): nat
  {
    if s == [] then 0
    else (if s[0] == c then 1 else 0) + Occurrences(s[1..], c)
  }

  lemma {:induction false} OccurrencesAppend(a: string, b: string, c: char)
    ensures Occurrences(a + b, c) == Occurrences(a, c) + Occurrences(b, c)
  {
    if a == [] {
      assert a + b == b;
    } else {
      assert (a + b)[1..] == a[1..] + b;
      OccurrencesAppend(a[1..], b, c);
    }
  }

  lemma {:induction false} OccurrencesAbsent(s: string, c: char)
    requires forall i | 0 <= i < |s| :: s[i] != c
    ensures Occurrences(s, c) == 0
  {
    if s != [] {
      OccurrencesAbsent(s[1..], c);
    }
  }

  /** Counting across one position: the part before it, the character
      there, and the part after it. */
  lemma OccurrencesAround(s: string, i: nat, c: char)
    requires i < |s|
    ensures Occurrences(s, c) == Occurrences(s[..i], c) + (if s[i] == c then 1 else 0) + Occurrences(s[i + 1..], c)
  {
    assert s == s[..i] + s[i..];
    OccurrencesAppend(s[..i], s[i..], c);
    assert s[i..][1..] == s[i + 1..];
  }
}
