/**
 * The parts of JavaScript's string semantics that the contact form relies on:
 * the `\s` character class, `String.prototype.trim` and `String.prototype.length`.
 * Strings are sequences of Unicode scalar values; JavaScript measures them in
 * UTF-16 code units.
 */
module JsText {

  /**
   * `\s` in an ECMAScript regular expression: the WhiteSpace and LineTerminator
   * code points (TAB, LF, VT, FF, CR, SPACE, NBSP, ZWNBSP, U+2028, U+2029 and the
   * other Unicode "Zs" space separators). `trim` strips exactly the same set.
   */
  function IsWhitespace(c: char): (ok: bool)
    ensures ok ==> !IsAstral(c)
  {
    c == '\t' || c == '\n' || c == '\U{000B}' || c == '\U{000C}' || c == '\r' || c == ' '
    || c == '\U{00A0}' || c == '\U{1680}' || ('\U{2000}' <= c <= '\U{200A}')
    || c == '\U{2028}' || c == '\U{2029}' || c == '\U{202F}' || c == '\U{205F}'
    || c == '\U{3000}' || c == '\U{FEFF}'
  }

  predicate AllWhitespace(s: string) {
    forall i | 0 <= i < |s| :: IsWhitespace(s[i])
  }

  /** A code point outside the Basic Multilingual Plane: two UTF-16 code units. */
  predicate IsAstral(c: char) {
    c as int > 0xFFFF
  }

  /** `s.length` in JavaScript: the number of UTF-16 code units. */
  function Utf16Length(s: string): (n: nat)
    ensures |s| <= n <= 2 * |s|
    ensures n == |s| <==> forall i | 0 <= i < |s| :: !IsAstral(s[i])
  {
    if s == [] then 0
    else
      var rest := Utf16Length(s[1..]);
      assert forall i | 1 <= i < |s| :: s[i] == s[1..][i - 1];
      (if IsAstral(s[0]) then 2 else 1) + rest
  }

  lemma {:induction false} Utf16LengthAppend(a: string, b: string)
    ensures Utf16Length(a + b) == Utf16Length(a) + Utf16Length(b)
  {
    if a != [] {
      assert (a + b)[0] == a[0] && (a + b)[1..] == a[1..] + b;
      assert Utf16Length(a + b) == (if IsAstral(a[0]) then 2 else 1) + Utf16Length(a[1..] + b);
      Utf16LengthAppend(a[1..], b);
    } else {
      assert a + b == b;
    }
  }

  /** Number of leading whitespace characters. */
  function LeadingWhitespace(s: string): (k: nat)
    ensures k <= |s|
    ensures AllWhitespace(s[..k])
    ensures k < |s| ==> !IsWhitespace(s[k])
  {
    if s == [] || !IsWhitespace(s[0]) then 0
    else
      var k := 1 + LeadingWhitespace(s[1..]);
      assert s[..k] == [s[0]] + s[1..][..k - 1];
      k
  }

  /** Start of the trailing run of whitespace characters. */
  function TrailingWhitespace(s: string): (k: nat)
    ensures k <= |s|
    ensures AllWhitespace(s[k..])
    ensures 0 < k ==> !IsWhitespace(s[k - 1])
  {
    if s == [] || !IsWhitespace(s[|s| - 1]) then |s|
    else
      var k := TrailingWhitespace(s[..|s| - 1]);
      assert s[k..] == s[..|s| - 1][k..] + [s[|s| - 1]];
      k
  }

  /**
   * What `trim` promises: `r` is a slice of `s`, everything cut away on either
   * side is whitespace, and `r` neither starts nor ends with whitespace.
   */
  ghost predicate IsTrimOf(r: string, s: string) {
    exists i, j | 0 <= i <= j <= |s| ::
      r == s[i..j] && AllWhitespace(s[..i]) && AllWhitespace(s[j..])
      && (r != [] ==> !IsWhitespace(r[0]) && !IsWhitespace(r[|r| - 1]))
  }

  /** `String.prototype.trim`. */
  function Trim(s: string): (r: string)
    ensures IsTrimOf(r, s)
    ensures r == [] <==> AllWhitespace(s)
  {
    var i := LeadingWhitespace(s);
    if i == |s| then
      assert AllWhitespace(s[..i]) && s[i..] == [];
      []
    else
      var j := TrailingWhitespace(s);
      var r := s[i..j];
      assert r[0] == s[i] && r[|r| - 1] == s[j - 1];
      assert !IsWhitespace(s[i]);
      r
  }

  /** The first non-whitespace index is where `LeadingWhitespace` stops. */
  lemma LeadingWhitespaceAt(s: string, i: nat)
    requires i < |s| && !IsWhitespace(s[i]) && AllWhitespace(s[..i])
    ensures LeadingWhitespace(s) == i
  {
    var a := LeadingWhitespace(s);
    assert forall k | 0 <= k < i :: s[k] == s[..i][k];
    assert forall k | 0 <= k < a :: s[k] == s[..a][k];
  }

  /** One past the last non-whitespace index is where `TrailingWhitespace` starts. */
  lemma TrailingWhitespaceAt(s: string, j: nat)
    requires 0 < j <= |s| && !IsWhitespace(s[j - 1]) && AllWhitespace(s[j..])
    ensures TrailingWhitespace(s) == j
  {
    var b := TrailingWhitespace(s);
    assert forall k | j <= k < |s| :: s[k] == s[j..][k - j];
    assert forall k | b <= k < |s| :: s[k] == s[b..][k - b];
  }

  /** Any slice meeting the characterisation of `trim` starts and ends where `Trim` cuts. */
  lemma TrimBoundsFixed(r: string, s: string, i: nat, j: nat)
    requires i <= j <= |s| && r == s[i..j]
    requires AllWhitespace(s[..i]) && AllWhitespace(s[j..])
    requires r != [] ==> !IsWhitespace(r[0]) && !IsWhitespace(r[|r| - 1])
    ensures r == [] ==> AllWhitespace(s)
    ensures r != [] ==> i == LeadingWhitespace(s) && j == TrailingWhitespace(s)
  {
    if r == [] {
      assert forall k | 0 <= k < i :: s[k] == s[..i][k];
      assert forall k | j <= k < |s| :: s[k] == s[j..][k - j];
    } else {
      assert s[i] == r[0] && s[j - 1] == r[|r| - 1];
      LeadingWhitespaceAt(s, i);
      TrailingWhitespaceAt(s, j);
    }
  }

  /** The characterisation of `trim` admits one result only. */
  lemma TrimOfUnique(r1: string, r2: string, s: string)
    requires IsTrimOf(r1, s) && IsTrimOf(r2, s)
    ensures r1 == r2
  {
    var i1, j1 :| 0 <= i1 <= j1 <= |s| && r1 == s[i1..j1] && AllWhitespace(s[..i1]) && AllWhitespace(s[j1..])
      && (r1 != [] ==> !IsWhitespace(r1[0]) && !IsWhitespace(r1[|r1| - 1]));
    var i2, j2 :| 0 <= i2 <= j2 <= |s| && r2 == s[i2..j2] && AllWhitespace(s[..i2]) && AllWhitespace(s[j2..])
      && (r2 != [] ==> !IsWhitespace(r2[0]) && !IsWhitespace(r2[|r2| - 1]));
    TrimBoundsFixed(r1, s, i1, j1);
    TrimBoundsFixed(r2, s, i2, j2);
    assert r1 != [] ==> r1[0] == s[i1];
    assert r2 != [] ==> r2[0] == s[i2];
  }

  /** Trimming twice is trimming once. */
  lemma TrimIdempotent(s: string)
    ensures Trim(Trim(s)) == Trim(s)
  {
    var r := Trim(s);
    assert IsTrimOf(r, r) by {
      assert r == r[0..|r|] && r[..0] == [] && r[|r|..] == [];
    }
    TrimOfUnique(Trim(r), r, r);
  }
}
