/**
 * The two field validators of the contact form (`SecurityUtils.validateName`
 * and `SecurityUtils.validateEmail`), each a regular-expression test written
 * out as a scan over the characters.
 */
module Validators {
  import opened JsText

  predicate IsAsciiLetter(c: char) {
    'a' <= c <= 'z' || 'A' <= c <= 'Z'
  }

  // ---------------------------------------------------------------- names

  /** The character class `[a-zA-Z\s'-]`. */
  predicate IsNameChar(c: char) {
    IsAsciiLetter(c) || IsWhitespace(c) || c == '\'' || c == '-'
  }

  function AllNameChars(s: string): (ok: bool)
    ensures ok <==> forall i | 0 <= i < |s| :: IsNameChar(s[i])
  {
    if s == [] then true
    else
      assert forall i | 1 <= i < |s| :: s[i] == s[1..][i - 1];
      IsNameChar(s[0]) && AllNameChars(s[1..])
  }

  /**
   * `/^[a-zA-Z\s'-]{2,50}$/.test(name)`. The quantifier counts UTF-16 code
   * units, but every character of the class lies in the Basic Multilingual
   * Plane, so on an accepted name code units and characters coincide.
   */
  function ValidName(name: string): (ok: bool)
    ensures ok <==> 2 <= |name| <= 50 && forall i | 0 <= i < |name| :: IsNameChar(name[i])
    ensures ok ==> Utf16Length(name) == |name|
  {
    2 <= |name| <= 50 && AllNameChars(name)
  }

  // --------------------------------------------------------------- emails

  const MaxEmailLength := 100

  /** The character class `[^\s@]`. */
  predicate IsEmailChar(c: char) {
    !IsWhitespace(c) && c != '@'
  }

  function AllEmailChars(s: string): (ok: bool)
    ensures ok <==> forall i | 0 <= i < |s| :: IsEmailChar(s[i])
  {
    if s == [] then true
    else
      assert forall i | 1 <= i < |s| :: s[i] == s[1..][i - 1];
      IsEmailChar(s[0]) && AllEmailChars(s[1..])
  }

  /** Index of the first `c` in `s`, or `|s|` when there is none. */
  function IndexOf(s: string, c: char): (k: nat)
    ensures k <= |s|
    ensures forall i | 0 <= i < k :: s[i] != c
    ensures k < |s| ==> s[k] == c
  {
    if s == [] || s[0] == c then 0
    else
      var k := 1 + IndexOf(s[1..], c);
      assert forall i | 1 <= i < k :: s[i] == s[1..][i - 1];
      k
  }

  /** `[^\s@]+\.[^\s@]+$` applied to what follows the `@`. */
  function ValidDomain(d: string): (ok: bool) {
    |d| >= 3 && AllEmailChars(d) && IndexOf(d[1..|d| - 1], '.') < |d| - 2
  }

  /** `/^[^\s@]+@[^\s@]+\.[^\s@]+$/.test(s)`: the `@` can only be the first one. */
  function EmailShape(s: string): (ok: bool) {
    var at := IndexOf(s, '@');
    0 < at < |s| && AllEmailChars(s[..at]) && ValidDomain(s[at + 1..])
  }

  /** `validateEmail`: the pattern, and at most 100 UTF-16 code units. */
  function ValidEmail(email: string): (ok: bool)
    ensures ok ==> 5 <= |email| <= Utf16Length(email) <= MaxEmailLength
    ensures ok ==> '@' in email
  {
    var at := IndexOf(email, '@');
    assert at < |email| ==> email[at] == '@';
    EmailShape(email) && Utf16Length(email) <= MaxEmailLength
  }

  /**
   * The language of the email pattern, stated on positions: one `@` at `at`
   * and a `.` at `dot`, with at least one character before the `@`, between
   * the `@` and the `.`, and after the `.`; every other character is neither
   * whitespace nor `@`. So the string holds exactly one `@` and no whitespace.
   */
  ghost predicate MatchesEmailPattern(s: string) {
    exists at, dot | 0 < at && at + 1 < dot && dot + 1 < |s| ::
      s[at] == '@' && s[dot] == '.'
      && forall k | 0 <= k < |s| && k != at :: IsEmailChar(s[k])
  }

  lemma EmailShapeSound(s: string)
    requires EmailShape(s)
    ensures MatchesEmailPattern(s)
  {
    var at := IndexOf(s, '@');
    var d := s[at + 1..];
    var dot := at + 2 + IndexOf(d[1..|d| - 1], '.');
    assert d[dot - at - 1] == d[1..|d| - 1][dot - at - 2];
    assert s[dot] == '.';
    forall k | 0 <= k < |s| && k != at ensures IsEmailChar(s[k]) {
      if k < at { assert s[k] == s[..at][k]; } else { assert s[k] == d[k - at - 1]; }
    }
  }

  lemma EmailShapeComplete(s: string)
    requires MatchesEmailPattern(s)
    ensures EmailShape(s)
  {
    var at, dot :| 0 < at && at + 1 < dot && dot + 1 < |s| && s[at] == '@' && s[dot] == '.'
      && forall k | 0 <= k < |s| && k != at :: IsEmailChar(s[k]);
    // No `@` comes before position `at`, so the scan stops there.
    assert forall k | 0 <= k < at :: s[k] != '@' by {
      forall k | 0 <= k < at ensures s[k] != '@' { assert IsEmailChar(s[k]); }
    }
    assert IndexOf(s, '@') == at by {
      var f := IndexOf(s, '@');
      assert f <= at;
    }
    var d := s[at + 1..];
    assert AllEmailChars(s[..at]) by {
      forall k | 0 <= k < at ensures IsEmailChar(s[..at][k]) { assert s[..at][k] == s[k]; }
    }
    assert AllEmailChars(d) by {
      forall k | 0 <= k < |d| ensures IsEmailChar(d[k]) { assert d[k] == s[at + 1 + k]; }
    }
    var inner := d[1..|d| - 1];
    assert inner[dot - at - 2] == '.';
    assert IndexOf(inner, '.') < |d| - 2;
  }

  /** `validateEmail` accepts exactly the short strings of the pattern's language. */
  lemma ValidEmailMeaning(s: string)
    ensures ValidEmail(s) <==> MatchesEmailPattern(s) && Utf16Length(s) <= MaxEmailLength
  {
    if EmailShape(s) { EmailShapeSound(s); }
    if MatchesEmailPattern(s) { EmailShapeComplete(s); }
  }

  // ------------------------------------------------------------- examples

  lemma NameExampleAccepted()
    ensures ValidName("Anna-Marie O'Brien")
  {
    var s := "Anna-Marie O'Brien";
    forall i | 0 <= i < |s| ensures IsNameChar(s[i]) {
      if i < 9 { assert i in {0, 1, 2, 3, 4, 5, 6, 7, 8}; }
      else { assert i in {9, 10, 11, 12, 13, 14, 15, 16, 17}; }
    }
  }

  lemma NameExamplesRejected()
    ensures !ValidName("A")
    ensures !ValidName("Anna123")
  {
    var s := "Anna123";
    assert s[4] == '1' && !IsNameChar(s[4]);
  }

  lemma EmailExampleAccepted()
    ensures ValidEmail("a@b.co")
  {
    var s := "a@b.co";
    assert IndexOf(s, '@') == 1 by { assert s[0] == 'a' && s[1] == '@'; }
    assert s[2..] == "b.co" && AllEmailChars("a") && AllEmailChars("b.co");
    assert IndexOf("b.co"[1..3], '.') == 0;
  }

  lemma EmailExampleRejected()
    ensures !ValidEmail("not-an-email")
  {
    var s := "not-an-email";
    forall i | 0 <= i < |s| ensures s[i] != '@' {
      if i < 6 { assert i in {0, 1, 2, 3, 4, 5}; }
      else { assert i in {6, 7, 8, 9, 10, 11}; }
    }
  }

  /**
   * The class admits whitespace and punctuation anywhere, so a "name" need
   * not hold a letter, and may hold a tab or line break inside.
   */
  lemma NameNeedsNoLetter()
    ensures ValidName("--") && ValidName("'-'")
    ensures ValidName("Ann\tMarie")
  {
    var s := "Ann\tMarie";
    forall i | 0 <= i < |s| ensures IsNameChar(s[i]) {
      assert i in {0, 1, 2, 3, 4, 5, 6, 7, 8, 9};
    }
  }

  /**
   * However well-formed, an address longer than 100 code units is refused;
   * its length is the local part's, one for the `@`, and the domain's.
   */
  lemma LongEmailRejected(local: string, domain: string)
    requires Utf16Length(local) + 1 + Utf16Length(domain) > MaxEmailLength
    ensures !ValidEmail(local + "@" + domain)
  {
    Utf16LengthAppend(local, "@");
    Utf16LengthAppend(local + "@", domain);
  }
}
