// The <ctype.h> classification and case conversion the string library uses,
// in the C locale.  A TString byte is a char whose code is below 256; a byte
// of 128 or more is a negative signed char, which no class of the C locale
// contains and tolower/toupper leave alone.
module Chars {

  /** isspace: blank, tab, newline, vertical tab, form feed, carriage return. */
  predicate IsSpace(c: char)
  {
    c == ' ' || '\t' <= c <= '\r'
  }

  /** isprint: the printable ASCII range, blank included. */
  predicate IsPrint(c: char)
  {
    ' ' <= c <= '~'
  }

  /** isdigit. */
  predicate IsDigit(c: char)
  {
    '0' <= c <= '9'
  }

  /** isxdigit. */
  predicate IsXDigit(c: char)
  {
    IsDigit(c) || 'a' <= c <= 'f' || 'A' <= c <= 'F'
  }

  /** An octal digit, as strtol with base 8 accepts it. */
  predicate IsODigit(c: char)
  {
    '0' <= c <= '7'
  }

  /** isupper. */
  predicate IsUpper(c: char)
  {
    'A' <= c <= 'Z'
  }

  /** islower. */
  predicate IsLower(c: char)
  {
    'a' <= c <= 'z'
  }

  /** isalpha. */
  predicate IsAlpha(c: char)
  {
    IsUpper(c) || IsLower(c)
  }

  /** isalnum. */
  predicate IsAlnum(c: char)
  {
    IsAlpha(c) || IsDigit(c)
  }

  /** tolower: upper-case letters to lower case, every other byte unchanged. */
  function ToLower(c: char): (r: char)
    ensures IsUpper(c) ==> IsLower(r) && r as int == c as int + 32
    ensures !IsUpper(c) ==> r == c
  {
    if IsUpper(c) then (c as int + 32) as char else c
  }

  /** toupper: lower-case letters to upper case, every other byte unchanged. */
  function ToUpper(c: char): (r: char)
    ensures IsLower(c) ==> IsUpper(r) && r as int == c as int - 32
    ensures !IsLower(c) ==> r == c
  {
    if IsLower(c) then (c as int - 32) as char else c
  }

  /** The two conversions undo each other on letters and agree on everything else. */
  lemma CaseRoundTrip(c: char)
    ensures ToLower(ToUpper(c)) == ToLower(c)
    ensures ToUpper(ToLower(c)) == ToUpper(c)
    ensures IsAlpha(ToLower(c)) <==> IsAlpha(c)
  {
  }

  /** The value of a hexadecimal digit. */
  function HexValue(c: char): (v: nat)
    requires IsXDigit(c)
    ensures v < 16
  {
    if IsDigit(c) then c as int - '0' as int
    else if 'a' <= c <= 'f' then c as int - 'a' as int + 10
    else c as int - 'A' as int + 10
  }

  /** A TString byte: a char with a code below 256. */
  predicate IsByte(c: char)
  {
    c as int < 256
  }

  /** Every char of s is a byte. */
  predicate Bytes(s: seq<char>)
  {
    forall i :: 0 <= i < |s| ==> IsByte(s[i])
  }

  /** The byte of code v mod 256: what storing an int into a char keeps. */
  function ByteOf(v: int): (c: char)
    ensures IsByte(c) && c as int == v % 256
  {
    (v % 256) as char
  }

  /** Storing the code of a byte gives back the byte. */
  lemma ByteOfCode(c: char)
    requires IsByte(c)
    ensures ByteOf(c as int) == c
  {
    assert c as int % 256 == c as int;
  }

  /** The decimal digit of d < 10. */
  function Digit(d: nat): (c: char)
    requires d < 10
    ensures IsDigit(c)
  {
    ('0' as int + d) as char
  }

  /** The decimal digits of n, most significant first, without leading zeros. */
  function Digits(n: nat): (r: seq<char>)
    ensures r != [] && forall k :: 0 <= k < |r| ==> IsDigit(r[k])
    ensures n < 10 ==> |r| == 1
    ensures n >= 10 ==> |r| == |Digits(n / 10)| + 1
  {
    if n < 10 then [Digit(n)] else Digits(n / 10) + [Digit(n % 10)]
  }

  /** The value of a string of decimal digits. */
  function DigitsValue(s: seq<char>): nat
    requires forall k :: 0 <= k < |s| ==> IsDigit(s[k])
  {
    if s == [] then 0
    else
      assert IsDigit(s[|s| - 1]);
      DigitsValue(s[..|s| - 1]) * 10 + (s[|s| - 1] as int - '0' as int)
  }

  lemma {:induction false} DigitsRoundTrip(n: nat)
    ensures DigitsValue(Digits(n)) == n
  {
    if n >= 10 {
      var r := Digits(n);
      assert r[..|r| - 1] == Digits(n / 10);
      DigitsRoundTrip(n / 10);
    }
  }
}
