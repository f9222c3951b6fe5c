/** Character classes of the ECMAScript regular expressions and string methods the scripts use. */
module Chars {

  /** ECMAScript `\s` (WhiteSpace plus LineTerminator); also the set `String.prototype.trim` removes.
      Note that U+200B ZERO WIDTH SPACE is not in it. */
  predicate IsSpace(c: char) {
    || c == ' ' || c == '\t' || c == '\n' || c == '\U{B}' || c == '\U{C}' || c == '\r'
    || c == '\U{A0}' || c == '\U{1680}' || ('\U{2000}' <= c <= '\U{200A}')
    || c == '\U{2028}' || c == '\U{2029}' || c == '\U{202F}' || c == '\U{205F}'
    || c == '\U{3000}' || c == '\U{FEFF}'
  }

  /** ECMAScript LineTerminator: the characters `.` does not match. */
  predicate IsLineTerminator(c: char) {
    c == '\n' || c == '\r' || c == '\U{2028}' || c == '\U{2029}'
  }

  /** `\d`, which matches ASCII digits only, with or without the `u` flag. */
  predicate IsDigit(c: char) {
    '0' <= c <= '9'
  }

  function DigitValue(c: char): (d: nat)
    requires IsDigit(c)
    ensures d < 10
  {
    c as int - '0' as int
  }

  function DigitChar(d: nat): (c: char)
    requires d < 10
    ensures IsDigit(c) && DigitValue(c) == d
  {
    (d + '0' as int) as char
  }

  /** The Hebrew block U+0590..U+05FF tested by `/[֐-׿]/`. */
  predicate IsHebrew(c: char) {
    '\U{590}' <= c <= '\U{5FF}'
  }

  /** `toLowerCase` restricted to ASCII letters; every other character is left as it is. */
  function ToLowerAscii(c: char): (r: char)
    ensures 'A' <= c <= 'Z' ==> 'a' <= r <= 'z' && r as int == c as int + 32
    ensures !('A' <= c <= 'Z') ==> r == c
  {
    if 'A' <= c <= 'Z' then (c as int + 32) as char else c
  }

  function LowerAscii(s: string): (r: string)
    ensures |r| == |s|
    ensures forall i :: 0 <= i < |s| ==> r[i] == ToLowerAscii(s[i])
  {
    if s == [] then [] else [ToLowerAscii(s[0])] + LowerAscii(s[1..])
  }

  /** Under the `iu` flags a pattern character `lit` (lower-case ASCII) matches `c` when `c`'s
      simple case folding is `lit`. Besides the ASCII upper-case letters, only U+017F LATIN SMALL
      LETTER LONG S and U+212A KELVIN SIGN fold onto ASCII letters. */
  predicate FoldsTo(c: char, lit: char) {
    || c == lit
    || ('A' <= c <= 'Z' && ToLowerAscii(c) == lit)
    || (c == '\U{17F}' && lit == 's')
    || (c == '\U{212A}' && lit == 'k')
  }
}
