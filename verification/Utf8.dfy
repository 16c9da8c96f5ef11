/** UTF-8 as the scanners decode and encode it: one scalar value at a time, a bad byte read as U+FFFD. */
module Utf8 {
  import opened Bytes

  type Rune = n: int | 0 <= n < 0xD800 || 0xE000 <= n < 0x11_0000

  const REPLACEMENT: Rune := 0xFFFD

  datatype Decoded = Decoded(rune: Rune, size: nat)

  function Continuation(bits: int): (b: byte)
    requires 0 <= bits < 64
    ensures IsContinuation(b) && Bits(b) == bits
  {
    (0x80 + bits) as byte
  }

  predicate IsContinuation(b: byte) {
    0x80 <= b < 0xC0
  }

  function Bits(b: byte): (bits: int)
    requires IsContinuation(b)
    ensures 0 <= bits < 64
  {
    b as int - 0x80
  }

  /** The bytes of a scalar value. */
  function RuneBytes(r: Rune): (t: Text)
    ensures 1 <= |t| <= 4
    ensures r < 0x80 ==> t == [r as byte]
    ensures r >= 0x80 ==> forall k | 0 <= k < |t| :: t[k] >= 0x80
  {
    if r < 0x80 then [r as byte]
    else if r < 0x800 then [(0xC0 + r / 64) as byte, Continuation(r % 64)]
    else if r < 0x1_0000 then [(0xE0 + r / 64 / 64) as byte, Continuation(r / 64 % 64), Continuation(r % 64)]
    else [(0xF0 + r / 64 / 64 / 64) as byte, Continuation(r / 64 / 64 % 64), Continuation(r / 64 % 64), Continuation(r % 64)]
  }

  /** The length a first byte announces; 0 when no sequence starts with it. */
  function Announced(b: byte): (n: nat)
    ensures n <= 4
  {
    if b < 0x80 then 1
    else if 0xC2 <= b < 0xE0 then 2
    else if 0xE0 <= b < 0xF0 then 3
    else if 0xF0 <= b < 0xF5 then 4
    else 0
  }

  /** The second byte: overlong forms, surrogates and values past the last plane are shut out here. */
  predicate SecondFits(first: byte, second: byte) {
    (if first == 0xE0 then 0xA0 else if first == 0xF0 then 0x90 else 0x80) <= second &&
    second < (if first == 0xED then 0xA0 else if first == 0xF4 then 0x90 else 0xC0)
  }

  predicate StartsRune(t: Text) {
    |t| > 0 &&
    var n := Announced(t[0]);
    1 <= n <= |t| && (n >= 2 ==> SecondFits(t[0], t[1])) &&
    (forall k | 2 <= k < n :: IsContinuation(t[k]))
  }

  /** The first scalar value of a text and its width; (U+FFFD, 1) when the text does not start with one. */
  function DecodeRune(t: Text): (d: Decoded)
    requires t != []
    ensures 1 <= d.size <= |t|
    ensures d.size > 1 ==> forall k | 0 <= k < d.size :: t[k] >= 0x80
    ensures StartsRune(t) ==> t[..d.size] == RuneBytes(d.rune)
    ensures !StartsRune(t) ==> d == Decoded(REPLACEMENT, 1)
  {
    if !StartsRune(t) then Decoded(REPLACEMENT, 1)
    else
      var n := Announced(t[0]);
      if n == 1 then Decoded(t[0] as int, 1)
      else if n == 2 then
        var r := (t[0] as int - 0xC0) * 64 + Bits(t[1]);
        assert r / 64 == t[0] as int - 0xC0 && r % 64 == Bits(t[1]);
        Decoded(r, 2)
      else if n == 3 then
        var high := (t[0] as int - 0xE0) * 64 + Bits(t[1]);
        var r := high * 64 + Bits(t[2]);
        assert r / 64 == high && r % 64 == Bits(t[2]) && high / 64 == t[0] as int - 0xE0 && high % 64 == Bits(t[1]);
        Decoded(r, 3)
      else
        var top := (t[0] as int - 0xF0) * 64 + Bits(t[1]);
        var high := top * 64 + Bits(t[2]);
        var r := high * 64 + Bits(t[3]);
        assert r / 64 == high && r % 64 == Bits(t[3]) && high / 64 == top && high % 64 == Bits(t[2]);
        assert top / 64 == t[0] as int - 0xF0 && top % 64 == Bits(t[1]);
        Decoded(r, 4)
  }

  /** Decoding reads back what was encoded, whatever follows. */
  lemma DecodingReadsBack(r: Rune, t: Text)
    requires HasPrefix(t, RuneBytes(r))
    ensures DecodeRune(t) == Decoded(r, |RuneBytes(r)|)
  {
    var e := RuneBytes(r);
    assert forall k | 0 <= k < |e| :: t[k] == e[k];
    assert StartsRune(t);
    assert Announced(t[0]) == |e|;
  }

  /** A text starts with a scalar value exactly if it starts with the bytes of one; a byte that starts none is read as U+FFFD. */
  lemma StartsExactly(t: Text)
    requires t != []
    ensures StartsRune(t) <==> exists r: Rune :: HasPrefix(t, RuneBytes(r))
    ensures !StartsRune(t) ==> DecodeRune(t) == Decoded(0xFFFD, 1)
  {
    if StartsRune(t) {
      assert HasPrefix(t, RuneBytes(DecodeRune(t).rune));
    }
    if r: Rune :| HasPrefix(t, RuneBytes(r)) {
      DecodingReadsBack(r, t);
      var e := RuneBytes(r);
      assert forall k | 0 <= k < |e| :: t[k] == e[k];
    }
  }

  /** Four bytes are enough to decode. */
  lemma FourBytesSuffice(t: Text, k: nat)
    requires t != [] && k <= |t| && (k >= 4 || k == |t|)
    ensures DecodeRune(t[..k]) == DecodeRune(t)
  {
    var u := t[..k];
    assert forall j | 0 <= j < |u| :: u[j] == t[j];
  }

  /** Decoding never looks past a byte below 0x80. */
  lemma DecodingStops(t: Text, u: Text, k: nat)
    requires 0 < k < |t| && k < |u| && t[..k + 1] == u[..k + 1] && t[k] < 0x80
    ensures DecodeRune(t) == DecodeRune(u) && DecodeRune(t).size <= k
  {
    var last := k + 1;
    assert forall j | 0 <= j < last :: t[j] == t[..last][j] && u[j] == u[..last][j];
  }

  /** One scalar value of each width, and the last of each, as the standard spells them (section 3 of RFC 3629). */
  lemma WidthsOfUtf8()
    ensures RuneBytes(0x41) == [0x41] && RuneBytes(0x7F) == [0x7F]
    ensures RuneBytes(0xA2) == [0xC2, 0xA2] && RuneBytes(0x7FF) == [0xDF, 0xBF]
    ensures RuneBytes(0x20AC) == [0xE2, 0x82, 0xAC] && RuneBytes(0xFFFF) == [0xEF, 0xBF, 0xBF]
    ensures RuneBytes(0x1_0348) == [0xF0, 0x90, 0x8D, 0x88] && RuneBytes(0x10_FFFF) == [0xF4, 0x8F, 0xBF, 0xBF]
  {
  }
}
