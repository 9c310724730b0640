/** Character classes and case mapping used by the editor: the letters of
    Python's `string.ascii_letters`, word characters of `\w`, the whitespace
    that `str.lstrip()` removes, and `str.upper()` / `str.lower()` on ASCII. */
module Chars {

  predicate IsAsciiLetter(c: char) {
    'a' <= c <= 'z' || 'A' <= c <= 'Z'
  }

  predicate IsDigit(c: char) {
    '0' <= c <= '9'
  }

  /** A character matched by `\w` (ASCII letters, digits and underscore). */
  predicate IsWordChar(c: char) {
    IsAsciiLetter(c) || IsDigit(c) || c == '_'
  }

  /** A character removed by `str.lstrip()`: exactly the characters for
      which `str.isspace()` holds, that is \t \n \v \f \r, \x1c-\x1f,
      the space, U+0085, U+00A0, U+1680, U+2000-U+200A, U+2028, U+2029,
      U+202F, U+205F and U+3000. */
  predicate IsSpace(c: char) {
    var n := c as int;
    (0x09 <= n <= 0x0D) || (0x1C <= n <= 0x20) || n == 0x85 || n == 0xA0 ||
    n == 0x1680 || (0x2000 <= n <= 0x200A) || n == 0x2028 || n == 0x2029 ||
    n == 0x202F || n == 0x205F || n == 0x3000
  }

  /** `string.ascii_letters`: the 26 lower-case letters, then the 26 upper-case ones. */
  function AsciiLetters(): (r: string)
    ensures |r| == 52
  {
    seq(52, LetterAt)
  }

  /** The character at offset `i` of `string.ascii_letters`. */
  function LetterAt(i: int): char {
    if 0 <= i < 26 then ('a' as int + i) as char
    else if 26 <= i < 52 then ('A' as int + i - 26) as char
    else 'a'
  }

  /** Python's `s in t` for two strings: `s` is a substring of `t`. */
  predicate PyIn(s: string, t: string) {
    exists k | 0 <= k <= |t| :: SliceAt(t, k, s)
  }

  /** `t[k:k+len(s)] == s`, with the slice inside `t`. */
  predicate SliceAt(t: string, k: int, s: string) {
    0 <= k <= |t| - |s| && t[k..k + |s|] == s
  }

  lemma AsciiLettersExact(c: char)
    ensures c in AsciiLetters() <==> IsAsciiLetter(c)
  {
    if IsAsciiLetter(c) {
      var i := if 'a' <= c <= 'z' then c as int - 'a' as int else c as int - 'A' as int + 26;
      assert AsciiLetters()[i] == c;
    }
    if c in AsciiLetters() {
      var i :| 0 <= i < 52 && AsciiLetters()[i] == c;
    }
  }

  /** A one-character string is "in" `t` exactly when its character occurs in `t`. */
  lemma PyInChar(c: char, t: string)
    ensures PyIn([c], t) <==> c in t
  {
    if c in t {
      var k :| 0 <= k < |t| && t[k] == c;
      assert SliceAt(t, k, [c]);
    }
    if PyIn([c], t) {
      var k :| 0 <= k <= |t| && SliceAt(t, k, [c]);
      assert t[k..k + 1][0] == t[k];
    }
  }

  /** A one-character string is "in" `ascii_letters` exactly when it is a
      letter; the empty string is always "in" it. */
  lemma PyInLetters(s: string)
    requires |s| <= 1
    ensures PyIn(s, AsciiLetters()) <==> (s == [] || IsAsciiLetter(s[0]))
  {
    if s == [] {
      assert SliceAt(AsciiLetters(), 0, s);
    } else {
      assert s == [s[0]];
      PyInChar(s[0], AsciiLetters());
      AsciiLettersExact(s[0]);
    }
  }

  function UpperChar(c: char): (u: char)
    ensures !('a' <= u <= 'z')
    ensures IsAsciiLetter(u) <==> IsAsciiLetter(c)
    ensures 'A' <= c <= 'Z' || !IsAsciiLetter(c) ==> u == c
  {
    if 'a' <= c <= 'z' then (c as int - 32) as char else c
  }

  function LowerChar(c: char): (l: char)
    ensures !('A' <= l <= 'Z')
    ensures IsAsciiLetter(l) <==> IsAsciiLetter(c)
    ensures 'a' <= c <= 'z' || !IsAsciiLetter(c) ==> l == c
  {
    if 'A' <= c <= 'Z' then (c as int + 32) as char else c
  }

  /** `s.upper()` restricted to ASCII letters. */
  /** Upper- and lower-casing exchange the two halves of
      `string.ascii_letters`: the letter at offset `i` of the lower-case half
      and the one at `i + 26` of the upper-case half. */
  lemma AsciiCasePairs(i: int)
    requires 0 <= i < 26
    ensures UpperChar(LetterAt(i)) == LetterAt(i + 26) && LowerChar(LetterAt(i + 26)) == LetterAt(i)
    ensures UpperChar(LetterAt(i + 26)) == LetterAt(i + 26) && LowerChar(LetterAt(i)) == LetterAt(i)
  {
  }

  function Upper(s: string): (u: string)
    ensures |u| == |s|
    ensures forall i :: 0 <= i < |s| ==> u[i] == UpperChar(s[i])
  {
    if s == [] then [] else [UpperChar(s[0])] + Upper(s[1..])
  }

  /** `s.lower()` restricted to ASCII letters. */
  function Lower(s: string): (l: string)
    ensures |l| == |s|
    ensures forall i :: 0 <= i < |s| ==> l[i] == LowerChar(s[i])
  {
    if s == [] then [] else [LowerChar(s[0])] + Lower(s[1..])
  }

  /** Upper-casing twice is upper-casing once. */
  lemma UpperIdempotent(s: string)
    ensures Upper(Upper(s)) == Upper(s)
  {
    assert forall i :: 0 <= i < |s| ==> Upper(Upper(s))[i] == Upper(s)[i];
  }
}
