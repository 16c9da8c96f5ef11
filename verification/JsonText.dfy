/**
 JSON text byte by byte (sections 2 to 7 of RFC 8259): what the scanners accept,
 what a string denotes, and the compact text of a value. A Value keeps every byte
 of its text, whitespace included.
 */
module JsonText {
  import opened Bytes
  import opened Json
  import opened Utf8

  const QUOTE: byte := 34
  const BACKSLASH: byte := 92
  const COMMA: byte := 44
  const COLON: byte := 58
  const LETTER_U: byte := 117
  const NULL_TEXT: Text := [110, 117, 108, 108]

  function Open(braced: bool): byte { if braced then 123 else 91 }

  function Close(braced: bool): byte { if braced then 125 else 93 }

  predicate IsSpace(b: byte) {
    b == 32 || b == 10 || b == 13 || b == 9
  }

  predicate Spaces(t: Text) {
    forall k | 0 <= k < |t| :: IsSpace(t[k])
  }

  predicate IsDigit(b: byte) {
    48 <= b <= 57
  }

  predicate IsHex(b: byte) {
    IsDigit(b) || 65 <= b <= 70 || 97 <= b <= 102
  }

  predicate IsNumberStart(b: byte) {
    b == 45 || IsDigit(b)
  }

  /** From i to e the text s holds what t holds, d bytes further on. */
  predicate Agree(s: Text, i: nat, e: nat, t: Text, d: int) {
    i <= e <= |s| && 0 <= i + d && e + d <= |t| && forall k | i <= k < e :: s[k] == t[k + d]
  }

  lemma AtConcat(s: Text, i: nat, a: Text, b: Text)
    ensures OccursAt(s, a + b, i) <==> OccursAt(s, a, i) && OccursAt(s, b, i + |a|)
  {
    var t := a + b;
    if OccursAt(s, t, i) {
      assert s[i..i + |a|] == s[i..i + |t|][..|a|] == t[..|a|];
      assert s[i + |a|..i + |a| + |b|] == s[i..i + |t|][|a|..] == t[|a|..];
    }
    if OccursAt(s, a, i) && OccursAt(s, b, i + |a|) {
      assert s[i..i + |t|] == s[i..i + |a|] + s[i + |a|..i + |a| + |b|];
    }
  }

  lemma AtAgrees(s: Text, i: nat, t: Text)
    requires OccursAt(s, t, i)
    ensures Agree(t, 0, |t|, s, i)
  {
    assert forall k | 0 <= k < |t| :: t[k] == s[i..i + |t|][k];
  }

  // ----- whitespace -----

  function SkipSpace(s: Text, i: nat): (r: nat)
    requires i <= |s|
    ensures i <= r <= |s| && Spaces(s[i..r])
    ensures r < |s| ==> !IsSpace(s[r])
    decreases |s| - i
  {
    if i < |s| && IsSpace(s[i]) then
      var r := SkipSpace(s, i + 1);
      assert s[i..r] == [s[i]] + s[i + 1..r];
      r
    else i
  }

  lemma {:induction false} SkipSpaceAt(s: Text, i: nat, gap: Text)
    requires OccursAt(s, gap, i) && Spaces(gap)
    requires i + |gap| < |s| && !IsSpace(s[i + |gap|])
    ensures SkipSpace(s, i) == i + |gap|
    decreases |gap|
  {
    AtAgrees(s, i, gap);
    if gap != [] {
      assert gap[0] == s[0 + i];
      AtConcat(s, i, gap[..1], gap[1..]);
      assert gap == gap[..1] + gap[1..];
      SkipSpaceAt(s, i + 1, gap[1..]);
    }
  }

  // ----- strings -----

  predicate IsShortEscape(b: byte) {
    b == QUOTE || b == BACKSLASH || b == 47 || b == 98 || b == 102 || b == 110 || b == 114 || b == 116
  }

  predicate HexAt(s: Text, i: nat) {
    i + 4 <= |s| && IsHex(s[i]) && IsHex(s[i + 1]) && IsHex(s[i + 2]) && IsHex(s[i + 3])
  }

  predicate UnicodeEscapeAt(s: Text, i: nat) {
    i + 2 <= |s| && s[i] == BACKSLASH && s[i + 1] == LETTER_U && HexAt(s, i + 2)
  }

  /** The width of the piece of a string that starts here, 0 when none does. */
  function PieceWidth(s: Text, i: nat): (n: nat)
    ensures i + n <= |s| || n == 0
  {
    if i >= |s| || s[i] == QUOTE || s[i] < 32 then 0
    else if s[i] != BACKSLASH then 1
    else if i + 1 < |s| && IsShortEscape(s[i + 1]) then 2
    else if UnicodeEscapeAt(s, i) then 6
    else 0
  }

  /** Where the string whose body starts at i ends: the index after its closing quote. */
  function StringEnd(s: Text, i: nat): (r: Option<nat>)
    ensures r.Some? ==> i < r.value <= |s| && s[r.value - 1] == QUOTE
    decreases |s| - i
  {
    if i < |s| && s[i] == QUOTE then Some(i + 1)
    else if PieceWidth(s, i) == 0 then None
    else StringEnd(s, i + PieceWidth(s, i))
  }

  function HexDigit(b: byte): (n: int)
    requires IsHex(b)
    ensures 0 <= n < 16
  {
    if IsDigit(b) then b as int - 48 else if b < 97 then b as int - 55 else b as int - 87
  }

  function Hex4(s: Text, i: nat): (n: int)
    requires HexAt(s, i)
    ensures 0 <= n < 0x1_0000
  {
    ((HexDigit(s[i]) * 16 + HexDigit(s[i + 1])) * 16 + HexDigit(s[i + 2])) * 16 + HexDigit(s[i + 3])
  }

  predicate LowSurrogateAt(s: Text, i: nat) {
    UnicodeEscapeAt(s, i) && 0xDC00 <= Hex4(s, i + 2) < 0xE000
  }

  /** The scalar value a Unicode escape stands for; a surrogate without its pair stands for U+FFFD. */
  function UnicodeEscape(s: Text, i: nat): (c: Decoded)
    requires UnicodeEscapeAt(s, i)
    ensures 6 <= c.size && i + c.size <= |s|
  {
    var high := Hex4(s, i + 2);
    if !(0xD800 <= high < 0xE000) then Decoded(high, 6)
    else if high < 0xDC00 && LowSurrogateAt(s, i + 6) then
      Decoded(0x1_0000 + (high - 0xD800) * 1024 + (Hex4(s, i + 8) - 0xDC00), 12)
    else Decoded(REPLACEMENT, 6)
  }

  function ShortEscape(b: byte): Rune
    requires IsShortEscape(b)
  {
    if b == 98 then 8 else if b == 102 then 12 else if b == 110 then 10 else if b == 114 then 13 else if b == 116 then 9
    else b as int
  }

  /** The next character of a string and the bytes it takes. */
  function CharAt(s: Text, i: nat): (c: Decoded)
    requires PieceWidth(s, i) > 0
    ensures 0 < c.size && i + c.size <= |s|
  {
    if s[i] == BACKSLASH then
      if s[i + 1] == LETTER_U then UnicodeEscape(s, i) else Decoded(ShortEscape(s[i + 1]), 2)
    else if s[i] < 0x80 then Decoded(s[i] as int, 1)
    else DecodeRune(s[i..])
  }

  datatype Chars = Chars(runes: seq<Rune>, end: nat)

  /** What the string whose body starts at i denotes, and where it ends. */
  function CharsAt(s: Text, i: nat): (r: Option<Chars>)
    decreases |s| - i
  {
    if i < |s| && s[i] == QUOTE then Some(Chars([], i + 1))
    else if PieceWidth(s, i) == 0 then None
    else
      var c := CharAt(s, i);
      match CharsAt(s, i + c.size)
      case None => None
      case Some(rest) => Some(Chars([c.rune] + rest.runes, rest.end))
  }

  /** A byte that needs no escape. */
  predicate IsPlain(b: byte) {
    b >= 32 && b != QUOTE && b != BACKSLASH
  }

  /** Plain bytes are pieces of their own. */
  lemma {:induction false} PlainBytesPass(s: Text, i: nat, n: nat)
    requires i + n <= |s| && forall k | i <= k < i + n :: IsPlain(s[k])
    ensures StringEnd(s, i) == StringEnd(s, i + n)
    decreases n
  {
    if n > 0 {
      PlainBytesPass(s, i + 1, n - 1);
    }
  }

  /** Taking a whole character never jumps over the end of the string. */
  lemma CharKeepsEnd(s: Text, i: nat)
    requires PieceWidth(s, i) > 0
    ensures StringEnd(s, i) == StringEnd(s, i + CharAt(s, i).size)
  {
    var c := CharAt(s, i);
    if s[i] == BACKSLASH {
      if c.size == 12 {
        assert PieceWidth(s, i) == 6 && PieceWidth(s, i + 6) == 6;
        assert StringEnd(s, i + 6) == StringEnd(s, i + 6 + 6);
      }
    } else if s[i] >= 0x80 && c.size > 1 {
      assert forall k | i <= k < i + c.size :: s[k] == s[i..][k - i];
      PlainBytesPass(s, i, c.size);
    }
  }

  /** Decoding a string and running over it accept the same texts and end at the same byte. */
  lemma {:induction false} DecodingEndsAlike(s: Text, i: nat)
    ensures CharsAt(s, i).Some? <==> StringEnd(s, i).Some?
    ensures CharsAt(s, i).Some? ==> CharsAt(s, i).value.end == StringEnd(s, i).value
    decreases |s| - i
  {
    hide CharAt, PieceWidth;
    if PieceWidth(s, i) > 0 {
      CharKeepsEnd(s, i);
      DecodingEndsAlike(s, i + CharAt(s, i).size);
    }
  }

  lemma PieceIsLocal(s: Text, i: nat, e: nat, t: Text, d: int)
    requires PieceWidth(s, i) > 0 && i + PieceWidth(s, i) <= e && Agree(s, i, e, t, d)
    ensures PieceWidth(t, i + d) == PieceWidth(s, i)
    ensures UnicodeEscapeAt(s, i) ==> UnicodeEscapeAt(t, i + d) && Hex4(s, i + 2) == Hex4(t, i + d + 2)
  {
    assert s[i] == t[i + d];
    if s[i] == BACKSLASH {
      assert s[i + 1] == t[i + 1 + d];
      if UnicodeEscapeAt(s, i) {
        assert s[i + 2] == t[i + 2 + d] && s[i + 3] == t[i + 3 + d] && s[i + 4] == t[i + 4 + d] && s[i + 5] == t[i + 5 + d];
      }
    }
  }

  /** Where a string ends depends on its own bytes only. */
  lemma {:induction false} EndIsLocal(s: Text, i: nat, t: Text, d: int)
    requires StringEnd(s, i).Some? && Agree(s, i, StringEnd(s, i).value, t, d)
    ensures StringEnd(t, i + d) == Some(StringEnd(s, i).value + d)
    decreases |s| - i
  {
    hide PieceWidth;
    assert s[i] == t[i + d];
    if s[i] != QUOTE {
      var w := PieceWidth(s, i);
      assert StringEnd(s, i) == StringEnd(s, i + w);
      PieceIsLocal(s, i, StringEnd(s, i).value, t, d);
      EndIsLocal(s, i + w, t, d);
    }
  }

  lemma CharIsLocal(s: Text, i: nat, t: Text, d: int)
    requires StringEnd(s, i).Some? && PieceWidth(s, i) > 0 && s[i] != QUOTE && Agree(s, i, StringEnd(s, i).value, t, d)
    ensures PieceWidth(t, i + d) == PieceWidth(s, i) && CharAt(t, i + d) == CharAt(s, i)
  {
    hide DecodeRune, Hex4, HexAt;
    var e := StringEnd(s, i).value;
    var w := PieceWidth(s, i);
    assert StringEnd(s, i + w) == Some(e);
    PieceIsLocal(s, i, e, t, d);
    assert s[i] == t[i + d];
    if UnicodeEscapeAt(s, i) {
      assert s[i + 6] == t[i + 6 + d];
      if s[i + 6] == BACKSLASH {
        assert StringEnd(s, i + 6 + PieceWidth(s, i + 6)) == Some(e);
        PieceIsLocal(s, i + 6, e, t, d);
        assert s[i + 7] == t[i + 7 + d];
      }
    } else if s[i] == BACKSLASH {
      assert s[i + 1] == t[i + 1 + d];
    } else if s[i] >= 0x80 {
      var k := e - 1 - i;
      assert s[i..][..k + 1] == t[i + d..][..k + 1];
      DecodingStops(s[i..], t[i + d..], k);
    }
  }

  /** So does what it denotes. */
  lemma {:induction false} CharsAreLocal(s: Text, i: nat, t: Text, d: int)
    requires StringEnd(s, i).Some? && Agree(s, i, StringEnd(s, i).value, t, d)
    ensures CharsAt(s, i).Some? && CharsAt(t, i + d) == Some(Chars(CharsAt(s, i).value.runes, StringEnd(s, i).value + d))
    decreases |s| - i
  {
    hide PieceWidth, CharAt;
    DecodingEndsAlike(s, i);
    assert s[i] == t[i + d];
    if s[i] != QUOTE {
      CharIsLocal(s, i, t, d);
      CharKeepsEnd(s, i);
      CharsAreLocal(s, i + CharAt(s, i).size, t, d);
    }
  }

  /** The bytes between two quotes. */
  predicate IsBody(body: Text) {
    StringEnd(body + [QUOTE], 0) == Some(|body| + 1)
  }

  function BodyRunes(body: Text): seq<Rune>
    requires IsBody(body)
  {
    DecodingEndsAlike(body + [QUOTE], 0);
    CharsAt(body + [QUOTE], 0).value.runes
  }

  /** A string found in a text is its body and a closing quote. */
  lemma BodyFound(s: Text, i: nat)
    requires StringEnd(s, i).Some?
    ensures var body := s[i..StringEnd(s, i).value - 1];
      IsBody(body) && OccursAt(s, body + [QUOTE], i) && CharsAt(s, i) == Some(Chars(BodyRunes(body), StringEnd(s, i).value))
  {
    hide StringEnd, CharsAt;
    var e := StringEnd(s, i).value;
    var t := s[i..e - 1] + [QUOTE];
    assert t == s[i..e];
    assert t[0..0 + |t|] == t;
    EndIsLocal(s, i, t, 0 - i);
    CharsAreLocal(s, i, t, 0 - i);
    DecodingEndsAlike(s, i);
  }

  /** Wherever a body and a closing quote stand, the string ends there. */
  lemma BodyStands(s: Text, i: nat, body: Text)
    requires IsBody(body) && OccursAt(s, body + [QUOTE], i)
    ensures StringEnd(s, i) == Some(i + |body| + 1)
  {
    AtAgrees(s, i, body + [QUOTE]);
    EndIsLocal(body + [QUOTE], 0, s, i);
  }

  // ----- encoding a string -----

  function HexByte(n: int): (b: byte)
    requires 0 <= n < 16
    ensures IsHex(b) && HexDigit(b) == n
  {
    if n < 10 then (48 + n) as byte else (87 + n) as byte
  }

  predicate IsNamed(r: Rune) {
    r == 34 || r == 92 || r == 8 || r == 12 || r == 10 || r == 13 || r == 9
  }

  function NameOf(r: Rune): (b: byte)
    requires IsNamed(r)
    ensures IsShortEscape(b) && ShortEscape(b) == r
  {
    if r == 34 then QUOTE else if r == 92 then BACKSLASH else if r == 8 then 98 else if r == 12 then 102
    else if r == 10 then 110 else if r == 13 then 114 else 116
  }

  function EscapedRune(r: Rune): (t: Text)
    ensures |t| > 0
  {
    if IsNamed(r) then [BACKSLASH, NameOf(r)]
    else if r < 0x20 || r == 0x2028 || r == 0x2029 then
      [BACKSLASH, LETTER_U, HexByte(r / 4096), HexByte(r / 256 % 16), HexByte(r / 16 % 16), HexByte(r % 16)]
    else RuneBytes(r)
  }

  lemma HexReadsBack(r: Rune)
    requires r < 0x1_0000
    ensures ((r / 4096 * 16 + r / 256 % 16) * 16 + r / 16 % 16) * 16 + r % 16 == r
  {
    var a, b, c := r / 4096, r / 256, r / 16;
    assert c == b * 16 + c % 16 && b == a * 16 + b % 16;
  }

  function Escaped(runes: seq<Rune>): Text {
    if runes == [] then [] else EscapedRune(runes[0]) + Escaped(runes[1..])
  }

  function Encoded(runes: seq<Rune>): Text {
    if runes == [] then [] else RuneBytes(runes[0]) + Encoded(runes[1..])
  }

  lemma EscapeReadsBack(s: Text, i: nat, r: Rune)
    requires OccursAt(s, EscapedRune(r), i)
    ensures PieceWidth(s, i) > 0 && CharAt(s, i) == Decoded(r, |EscapedRune(r)|)
  {
    hide DecodeRune;
    var t := EscapedRune(r);
    AtAgrees(s, i, t);
    assert t[0] == s[0 + i];
    if IsNamed(r) {
      assert t[1] == s[1 + i];
    } else if r < 0x20 || r == 0x2028 || r == 0x2029 {
      assert t[1] == s[1 + i] && t[2] == s[2 + i] && t[3] == s[3 + i] && t[4] == s[4 + i] && t[5] == s[5 + i];
      HexReadsBack(r);
    } else if r >= 0x80 {
      assert s[i..][..|t|] == t;
      DecodingReadsBack(r, s[i..]);
    }
  }

  lemma QuoteAt(s: Text, i: nat)
    requires OccursAt(s, [] + [QUOTE], i)
    ensures i < |s| && s[i] == QUOTE
  {
    AtAgrees(s, i, [QUOTE]);
    assert [QUOTE][0] == s[0 + i];
  }

  lemma PieceIsNoQuote(s: Text, i: nat)
    requires PieceWidth(s, i) > 0
    ensures i < |s| && s[i] != QUOTE
  {
  }

  /** Escaping and decoding are inverse, whatever follows the closing quote. */
  lemma {:induction false} EscapedReadsBack(s: Text, i: nat, runes: seq<Rune>)
    requires OccursAt(s, Escaped(runes) + [QUOTE], i)
    ensures CharsAt(s, i) == Some(Chars(runes, i + |Escaped(runes)| + 1))
    decreases |runes|
  {
    hide CharAt, EscapedRune, PieceWidth, OccursAt;
    if runes == [] {
      QuoteAt(s, i);
    } else {
      var head, tail := EscapedRune(runes[0]), Escaped(runes[1..]);
      assert Escaped(runes) + [QUOTE] == head + (tail + [QUOTE]);
      AtConcat(s, i, head, tail + [QUOTE]);
      EscapeReadsBack(s, i, runes[0]);
      EscapedReadsBack(s, i + |head|, runes[1..]);
      PieceIsNoQuote(s, i);
      assert runes == [runes[0]] + runes[1..];
    }
  }

  lemma EscapedIsBody(runes: seq<Rune>)
    ensures IsBody(Escaped(runes)) && BodyRunes(Escaped(runes)) == runes
  {
    var t := Escaped(runes) + [QUOTE];
    assert t[0..0 + |t|] == t;
    EscapedReadsBack(t, 0, runes);
    DecodingEndsAlike(t, 0);
  }
}
