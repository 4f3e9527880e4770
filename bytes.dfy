/** Bytes, character classes and the shared constants of the HTML doc parser. */
module Bytes {

  type byte = bv8

  datatype Option<T> = None | Some(value: T)

  /** Size of the parser's fixed token buffer (AKParserTokenBufferSize). */
  const TokenBufferSize: nat := 1024

  /** Longest token text the buffer holds: one byte is kept for the C string terminator. */
  const MaxTokenLen: nat := TokenBufferSize - 1

  const LT: byte := 0x3C      // '<'
  const GT: byte := 0x3E      // '>'
  const AMP: byte := 0x26     // '&'
  const SEMI: byte := 0x3B    // ';'
  const SLASH: byte := 0x2F   // '/'
  const SPACE: byte := 0x20   // ' '
  const LOWER_H: byte := 0x68 // 'h'
  const UPPER_H: byte := 0x48 // 'H'
  const DIGIT_1: byte := 0x31 // '1'
  const DIGIT_3: byte := 0x33 // '3'

  /** C `isdigit` in the C locale. */
  predicate IsDigit(b: byte) { 0x30 <= b <= 0x39 }

  /** C `isalpha` in the C locale: ASCII letters only. */
  predicate IsAlpha(b: byte) { (0x41 <= b <= 0x5A) || (0x61 <= b <= 0x7A) }

  /** C `isalnum` in the C locale. */
  predicate IsAlnum(b: byte) { IsDigit(b) || IsAlpha(b) }

  /** C `isspace` in the C locale: blank, tab, newline, vertical tab, form feed, carriage return. */
  predicate IsSpace(b: byte) { b == SPACE || (0x09 <= b <= 0x0D) }

  /** Punctuation: every byte that is neither alphanumeric nor whitespace. */
  predicate IsPunct(b: byte) { !IsAlnum(b) && !IsSpace(b) }

  /** Either spelling of the letter of a heading tag name. */
  predicate IsHeadingLetter(b: byte) { b == LOWER_H || b == UPPER_H }

  function Min(a: nat, b: nat): nat { if a <= b then a else b }
}
