/** The character classes of `MySqlDialectWithBackTicks`
    (rust/cubestore/src/sql/mod.rs): MySQL identifiers, delimited by double
    quotes or back-ticks. */
module Dialect {

  predicate IsDelimitedIdentifierStart(ch: char) {
    ch == '"' || ch == '`'
  }

  /** ASCII letters, '_', '$' and every character from U+0080 to U+FFFF;
      digits may not start an identifier. */
  predicate IsIdentifierStart(ch: char) {
    ('a' <= ch <= 'z') || ('A' <= ch <= 'Z') || ch == '_' || ch == '$'
    || (0x80 <= ch as int <= 0xFFFF)
  }

  predicate IsIdentifierPart(ch: char) {
    IsIdentifierStart(ch) || ('0' <= ch <= '9')
  }

  /** Every character that may start an identifier may continue one; the
      only extra continuation characters are the ASCII digits. */
  lemma PartIsStartOrDigit(ch: char)
    ensures IsIdentifierStart(ch) ==> IsIdentifierPart(ch)
    ensures IsIdentifierPart(ch) && !IsIdentifierStart(ch) <==> '0' <= ch <= '9'
  {
  }

  /** The quote characters that delimit identifiers are never part of a
      bare identifier, so a delimited identifier cannot be confused with one. */
  lemma DelimitersAreNotIdentifierCharacters(ch: char)
    requires IsDelimitedIdentifierStart(ch)
    ensures !IsIdentifierStart(ch) && !IsIdentifierPart(ch)
  {
  }

  /** Characters outside the Basic Multilingual Plane are not identifier
      characters, and neither is any other ASCII punctuation or space. */
  lemma IdentifierCharactersOutsideAscii(ch: char)
    ensures ch as int > 0xFFFF ==> !IsIdentifierPart(ch)
    ensures ch as int < 0x80 && IsIdentifierPart(ch) ==>
      ('a' <= ch <= 'z') || ('A' <= ch <= 'Z') || ('0' <= ch <= '9') || ch == '_' || ch == '$'
  {
  }
}
