/**
 * Character classification of <ctype.h> in the "C" locale, on the ASCII code
 * of a character.
 */
module CType {
  /** `isspace`: space, horizontal tab, newline, vertical tab, form feed, carriage return. */
  predicate IsSpace(c: char) {
    c == ' ' || c == '\t' || c == '\n' || c == '\U{B}' || c == '\U{C}' || c == '\r'
  }

  /** `isupper` */
  predicate IsUpper(c: char) { 'A' <= c <= 'Z' }

  /** `islower` */
  predicate IsLower(c: char) { 'a' <= c <= 'z' }

  /** `isalpha` */
  predicate IsAlpha(c: char) { IsUpper(c) || IsLower(c) }

  /** `isdigit` */
  predicate IsDigit(c: char) { '0' <= c <= '9' }

  /** `tolower`: maps an upper-case letter to its lower-case twin, every other character to itself. */
  function ToLower(c: char): (r: char)
    ensures IsUpper(c) ==> IsLower(r) && r as int == c as int + 32
    ensures !IsUpper(c) ==> r == c
  {
    if IsUpper(c) then (c as int + 32) as char else c
  }

  /** The value a C `char` converts to when it is stored in a `uint8_t`. */
  function Byte(c: char): (b: nat)
    ensures b < 256
    ensures c as int < 256 ==> b == c as int
  {
    c as int % 256
  }

  /** The first character of a C string, or NUL for the empty string (`*item`). */
  function Head(s: string): char {
    if s == [] then '\0' else s[0]
  }
}
