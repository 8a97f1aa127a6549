/**
 * The symbol tables. `encode_table()` itself is not part of this model, so the
 * codec takes its table as a parameter; the two tables below are the ones the
 * repository's test fixtures imply.
 */
module Alphabet {
  import Utf8


  /** A 2-bit table: four pairwise distinct characters; a symbol's index is its 2-bit value. */
  predicate IsTable(t: seq<char>) {
    |t| == 4 && forall i, j :: 0 <= i < j < |t| ==> t[i] != t[j]
  }

  /** A symbol string: every character is one of the table's entries. */
  predicate IsSymbolString(s: string, t: seq<char>) {
    forall i :: 0 <= i < |s| ==> s[i] in t
  }

  /** No character of `s` is a table entry (a carrier that cannot collide with a payload). */
  predicate FreeOf(s: string, t: seq<char>) {
    forall i :: 0 <= i < |s| ==> s[i] !in t
  }

  /** ZWNJ, ZWJ, WORD JOINER, INVISIBLE TIMES: the table of the encoder and decoder fixtures. */
  const ZeroWidthTable: seq<char> := ['\U{200C}', '\U{200D}', '\U{2060}', '\U{2062}']

  /** ZWSP, ZWNJ, ZWJ, WORD JOINER: the table of the steganography fixtures. */
  const StegoTable: seq<char> := ['\U{200B}', '\U{200C}', '\U{200D}', '\U{2060}']

  /** The plain text of the repository's round-trip fixtures. */
  const HelloText: string := "Hello World!"

  /** Both fixture tables are tables, and they differ, so the two suites cannot share one. */
  lemma FixtureTables()
    ensures IsTable(ZeroWidthTable) && IsTable(StegoTable)
    ensures ZeroWidthTable != StegoTable
  {
  }

  /** The fixture text is ASCII. */
  lemma HelloTextAscii()
    ensures Utf8.IsAscii(HelloText)
  {
  }
}
