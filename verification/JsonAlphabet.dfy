/** The bytes that make up JSON text, letter by letter (sections 2 to 7 of RFC 8259), and the escapes beyond the ones the encoder writes. */
module JsonAlphabet {
  import opened Bytes
  import opened Json
  import opened Utf8
  import opened JsonText

  predicate IsOneOf(b: byte, letters: string)
    requires IsAscii(letters)
  {
    b in Ascii(letters)
  }

  /** The structural characters and the four kinds of whitespace. */
  lemma StructureIsStandard(b: byte)
    ensures [Open(true), Close(true), Open(false), Close(false), COMMA, COLON] == Ascii("{}[],:")
    ensures [QUOTE, BACKSLASH, LETTER_U] == Ascii("\"\\u")
    ensures IsSpace(b) <==> IsOneOf(b, " \t\n\r")
  {
    assert Ascii(" \t\n\r") == [32, 9, 10, 13];
  }

  /** Digits, and hexadecimal digits in either case, with their values. */
  lemma DigitsAreStandard(b: byte)
    ensures IsDigit(b) <==> IsOneOf(b, "0123456789")
    ensures IsHex(b) <==> IsOneOf(b, "0123456789abcdefABCDEF")
    ensures IsNumberStart(b) <==> IsOneOf(b, "-0123456789")
  {
    var digits := Ascii("0123456789");
    assert digits == [48, 49, 50, 51, 52, 53, 54, 55, 56, 57];
    assert Ascii("-0123456789") == [45] + digits;
    assert Ascii("0123456789abcdefABCDEF") == digits + [97, 98, 99, 100, 101, 102] + [65, 66, 67, 68, 69, 70];
  }

  lemma HexDigitsCount(k: nat)
    requires k < 16
    ensures var small, large := Ascii("0123456789abcdef"), Ascii("0123456789ABCDEF");
      |small| == |large| == 16 && IsHex(small[k]) && IsHex(large[k]) && HexDigit(small[k]) == HexDigit(large[k]) == k
  {
    assert Ascii("0123456789abcdef") == [48, 49, 50, 51, 52, 53, 54, 55, 56, 57, 97, 98, 99, 100, 101, 102];
    assert Ascii("0123456789ABCDEF") == [48, 49, 50, 51, 52, 53, 54, 55, 56, 57, 65, 66, 67, 68, 69, 70];
  }

  const ESCAPE_LETTERS: Text := [34, 92, 47, 98, 102, 110, 114, 116]
  const ESCAPE_VALUES: seq<Rune> := [0x22, 0x5C, 0x2F, 0x08, 0x0C, 0x0A, 0x0D, 0x09]

  /** The two-character escapes and what they stand for: the quote, both slashes, and U+0008, U+000C, U+000A, U+000D, U+0009. */
  lemma ShortEscapesAreStandard(b: byte)
    ensures IsShortEscape(b) <==> IsOneOf(b, "\"\\/bfnrt")
    ensures forall k :: 0 <= k < 8 ==> IsShortEscape(ESCAPE_LETTERS[k]) && ShortEscape(ESCAPE_LETTERS[k]) == ESCAPE_VALUES[k]
    ensures ESCAPE_LETTERS == Ascii("\"\\/bfnrt")
  {
    assert Ascii("\"\\/bfnrt") == [34, 92, 47, 98, 102, 110, 114, 116];
  }

  // ----- \u escapes -----

  /** A number below 2^16 as a backslash, the letter u and four hexadecimal digits. */
  function EscapedUnit(n: int): Text
    requires 0 <= n < 0x1_0000
  {
    [BACKSLASH, LETTER_U, HexByte(n / 4096), HexByte(n / 256 % 16), HexByte(n / 16 % 16), HexByte(n % 16)]
  }

  lemma UnitReadsBack(s: Text, i: nat, n: int)
    requires 0 <= n < 0x1_0000 && OccursAt(s, EscapedUnit(n), i)
    ensures UnicodeEscapeAt(s, i) && Hex4(s, i + 2) == n && PieceWidth(s, i) == 6
  {
    var t := EscapedUnit(n);
    AtAgrees(s, i, t);
    assert forall k :: 0 <= k < 6 ==> s[i + k] == t[k];
    var b, c := n / 256, n / 16;
    assert c == b * 16 + c % 16 && b == b / 16 * 16 + b % 16 && b / 16 == n / 4096;
  }

  /** Every scalar value of the first plane can be escaped in six bytes. */
  lemma EscapedUnitReadsBack(s: Text, i: nat, r: Rune)
    requires r < 0x1_0000 && OccursAt(s, EscapedUnit(r), i)
    ensures PieceWidth(s, i) > 0 && CharAt(s, i) == Decoded(r, 6)
  {
    UnitReadsBack(s, i, r);
    AtAgrees(s, i, EscapedUnit(r));
  }

  /** The two surrogates of a scalar value beyond the first plane (section 2.1 of RFC 2781). */
  function High(r: Rune): int {
    0xD800 + (r - 0x1_0000) / 0x400
  }

  function Low(r: Rune): int {
    0xDC00 + (r - 0x1_0000) % 0x400
  }

  /** Every other scalar value is read from its surrogates, escaped one after the other. */
  lemma SurrogatePairReadsBack(s: Text, i: nat, r: Rune)
    requires r >= 0x1_0000 && OccursAt(s, EscapedUnit(High(r)) + EscapedUnit(Low(r)), i)
    ensures PieceWidth(s, i) > 0 && CharAt(s, i) == Decoded(r, 12)
  {
    AtConcat(s, i, EscapedUnit(High(r)), EscapedUnit(Low(r)));
    UnitReadsBack(s, i, High(r));
    UnitReadsBack(s, i + 6, Low(r));
    AtAgrees(s, i, EscapedUnit(High(r)));
  }

  /** A surrogate that is not the first half of a pair is read as U+FFFD, and what follows it is read on its own. */
  lemma LoneSurrogateIsReplaced(s: Text, i: nat, n: int)
    requires 0xD800 <= n < 0xE000 && OccursAt(s, EscapedUnit(n), i)
    requires n < 0xDC00 ==> !(UnicodeEscapeAt(s, i + 6) && 0xDC00 <= Hex4(s, i + 8) < 0xE000)
    ensures PieceWidth(s, i) > 0 && CharAt(s, i) == Decoded(REPLACEMENT, 6)
  {
    UnitReadsBack(s, i, n);
    AtAgrees(s, i, EscapedUnit(n));
  }

  /** The encoder escapes what it must and the two line separators, and leaves every other scalar value to its own bytes. */
  lemma OnlyTheseAreEscaped(r: Rune)
    ensures EscapedRune(r) == RuneBytes(r) <==> r >= 0x20 && r != 0x22 && r != 0x5C && r != 0x2028 && r != 0x2029
    ensures EscapedRune(r) != RuneBytes(r) ==> |EscapedRune(r)| > 1 && EscapedRune(r)[0] == BACKSLASH
  {
  }
}
