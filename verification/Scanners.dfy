/**
 The scanners that run over a JSON value in a buffered input: skip it, copy it
 compactly, or write it with its keys spelled anew. Each is right on every input,
 well formed or not, and for every way the input arrives in the buffer.
 */
module Scanners {
  import opened Bytes
  import opened Json
  import opened Utf8
  import opened JsonText
  import opened JsonSyntax
  import opened Compaction

  function EndOf<T>(r: Option<Parsed<T>>): Option<nat> {
    match r
    case None => None
    case Some(p) => Some(p.end)
  }

  predicate AllPlain(t: Text) {
    forall k | 0 <= k < |t| :: IsPlain(t[k])
  }

  predicate IsSimple(t: Text) {
    forall k | 0 <= k < |t| :: IsPlain(t[k]) && t[k] < 0x80
  }

  /** The leading bytes that can be copied as they are. */
  method LeadingRaw(chunk: Text) returns (n: nat)
    ensures n <= |chunk| && AllPlain(chunk[..n]) && (n < |chunk| ==> !IsPlain(chunk[n]))
  {
    n := 0;
    while n < |chunk|
      invariant n <= |chunk| && AllPlain(chunk[..n])
    {
      if chunk[n] == QUOTE || chunk[n] == BACKSLASH || chunk[n] < 32 { return; }
      n := n + 1;
    }
  }

  method LeadingSimple(chunk: Text) returns (n: nat)
    ensures n <= |chunk| && IsSimple(chunk[..n]) && (n < |chunk| ==> !IsSimple([chunk[n]]))
  {
    n := 0;
    while n < |chunk|
      invariant n <= |chunk| && IsSimple(chunk[..n])
    {
      if chunk[n] == QUOTE || chunk[n] == BACKSLASH || chunk[n] < 32 || chunk[n] >= 0x80 {
        assert chunk[n] == [chunk[n]][0];
        return;
      }
      n := n + 1;
    }
  }

  // ----- strings as scalar values -----

  /** The scalar values of any byte text, a bad byte read as U+FFFD. */
  function RunesOf(t: Text): seq<Rune> {
    if t == [] then [] else [DecodeRune(t).rune] + RunesOf(t[DecodeRune(t).size..])
  }

  lemma NoRunes()
    ensures RunesOf([]) == []
  {
  }

  lemma RunesStep(t: Text)
    requires t != []
    ensures RunesOf(t) == [DecodeRune(t).rune] + RunesOf(t[DecodeRune(t).size..])
  {
  }

  /** Scalar values are read one after another, and every byte that starts none is one U+FFFD. */
  lemma RunesRead(r: Rune, bad: Text, rest: Text)
    ensures RunesOf(RuneBytes(r) + rest) == [r] + RunesOf(rest)
    ensures bad != [] && (forall q: Rune :: !HasPrefix(bad, RuneBytes(q))) ==> RunesOf(bad) == [0xFFFD] + RunesOf(bad[1..])
  {
    var t := RuneBytes(r) + rest;
    assert t[..|RuneBytes(r)|] == RuneBytes(r) && t[|RuneBytes(r)|..] == rest;
    DecodingReadsBack(r, t);
    if bad != [] {
      StartsExactly(bad);
    }
  }

  lemma {:induction false} RunesOfEncoded(runes: seq<Rune>)
    ensures RunesOf(Encoded(runes)) == runes
  {
    if runes != [] {
      var head, tail := RuneBytes(runes[0]), Encoded(runes[1..]);
      assert (head + tail)[..|head|] == head && (head + tail)[|head|..] == tail;
      DecodingReadsBack(runes[0], head + tail);
      RunesOfEncoded(runes[1..]);
    }
  }

  lemma FirstRune(r: Rune, rest: seq<Rune>)
    ensures Escaped([r] + rest) == EscapedRune(r) + Escaped(rest) && Encoded([r] + rest) == RuneBytes(r) + Encoded(rest)
  {
    assert ([r] + rest)[1..] == rest;
  }

  lemma SimpleByte(t: Text)
    requires t != [] && IsSimple(t)
    ensures DecodeRune(t) == Decoded(t[0] as int, 1) && IsSimple(t[1..])
    ensures EscapedRune(t[0] as int) == [t[0]] == RuneBytes(t[0] as int)
  {
    assert StartsRune(t);
  }

  lemma {:induction false} SimpleIsItself(t: Text)
    requires IsSimple(t)
    ensures Escaped(RunesOf(t)) == t && Encoded(RunesOf(t)) == t
  {
    hide IsSimple, EscapedRune, RuneBytes, DecodeRune, RunesOf, Escaped, Encoded;
    if t == [] {
      NoRunes();
      NothingEscaped();
    } else {
      SimpleByte(t);
      SimpleIsItself(t[1..]);
      RunesStep(t);
      FirstRune(t[0] as int, RunesOf(t[1..]));
      assert t == [t[0]] + t[1..];
    }
  }

  lemma Associate<T>(a: seq<T>, b: seq<T>, c: seq<T>)
    ensures a + (b + c) == a + b + c
  {
  }

  lemma {:induction false} EncodedConcat(a: seq<Rune>, b: seq<Rune>)
    ensures Encoded(a + b) == Encoded(a) + Encoded(b)
  {
    hide RuneBytes;
    if a == [] {
      assert a + b == b;
    } else {
      EncodedConcat(a[1..], b);
      assert (a + b)[0] == a[0] && (a + b)[1..] == a[1..] + b;
      Associate(RuneBytes(a[0]), Encoded(a[1..]), Encoded(b));
    }
  }

  lemma {:induction false} EscapedConcat(a: seq<Rune>, b: seq<Rune>)
    ensures Escaped(a + b) == Escaped(a) + Escaped(b)
  {
    hide EscapedRune;
    if a == [] {
      assert a + b == b;
    } else {
      EscapedConcat(a[1..], b);
      assert (a + b)[0] == a[0] && (a + b)[1..] == a[1..] + b;
      Associate(EscapedRune(a[0]), Escaped(a[1..]), Escaped(b));
    }
  }

  lemma EncodedOne(r: Rune)
    ensures Encoded([r]) == RuneBytes(r) && Escaped([r]) == EscapedRune(r)
  {
  }

  lemma NothingEscaped()
    ensures Escaped([]) == [] == Encoded([])
  {
  }

  lemma EncodedMore(a: seq<Rune>, r: Rune)
    ensures Encoded(a + [r]) == Encoded(a) + RuneBytes(r)
  {
    EncodedConcat(a, [r]);
    EncodedOne(r);
  }

  lemma EscapedMore(a: seq<Rune>, r: Rune)
    ensures Escaped(a + [r]) == Escaped(a) + EscapedRune(r)
  {
    EscapedConcat(a, [r]);
    EncodedOne(r);
  }

  method AppendUnicodeEscape(dst: Text, r: Rune) returns (t: Text)
    requires r < 0x1_0000
    ensures t == dst + [BACKSLASH, LETTER_U, HexByte(r / 4096), HexByte(r / 256 % 16), HexByte(r / 16 % 16), HexByte(r % 16)]
  {
    t := dst + [BACKSLASH, LETTER_U];
    var nibbles := [r / 4096, r / 256 % 16, r / 16 % 16, r % 16];
    t := t + [HexByte(nibbles[0])] + [HexByte(nibbles[1])] + [HexByte(nibbles[2])] + [HexByte(nibbles[3])];
  }

  method AppendEscaped(dst: Text, r: Rune) returns (t: Text)
    ensures t == dst + EscapedRune(r)
  {
    if IsNamed(r) {
      t := dst + [BACKSLASH, JsonText.NameOf(r)];
    } else if r < 0x20 || r == 0x2028 || r == 0x2029 {
      t := AppendUnicodeEscape(dst, r);
    } else {
      t := dst + RuneBytes(r);
    }
  }

  /** The decoded bytes as a JSON string. */
  method AppendJsonString(dst: Text, value: Text) returns (t: Text)
    ensures t == dst + ([QUOTE] + (Escaped(RunesOf(value)) + [QUOTE]))
  {
    hide IsSimple, EscapedRune, RuneBytes, DecodeRune, Escaped, RunesOf;
    var simple := LeadingSimple(value);
    if simple == |value| {
      assert value[..simple] == value;
      SimpleIsItself(value);
      t := dst + [QUOTE] + value + [QUOTE];
      return;
    }
    var rest := value;
    t := dst + [QUOTE];
    ghost var done := [];
    NothingEscaped();
    NoRunes();
    assert RunesOf(value) == done + RunesOf(rest);
    while rest != []
      invariant RunesOf(value) == done + RunesOf(rest)
      invariant t == dst + [QUOTE] + Escaped(done)
      decreases |rest|
    {
      var d := DecodeRune(rest);
      EscapedMore(done, d.rune);
      RunesStep(rest);
      Associate(done, [d.rune], RunesOf(rest[d.size..]));
      done := done + [d.rune];
      rest := rest[d.size..];
      t := AppendEscaped(t, d.rune);
    }
    assert done + [] == done;
    t := t + [QUOTE];
  }

  lemma DiffersAt(s: Text, i: nat, t: Text, k: nat)
    requires k < |t| && (i + k < |s| ==> s[i + k] != t[k])
    ensures !OccursAt(s, t, i)
  {
    if i + |t| <= |s| {
      assert s[i..i + |t|][k] == s[i + k];
    }
  }

  lemma RawIsPlain(s: Text, i: nat, chunk: Text, n: nat)
    requires i + |chunk| <= |s| && chunk == s[i..i + |chunk|] && n <= |chunk| && AllPlain(chunk[..n])
    ensures StringEnd(s, i + n) == StringEnd(s, i) && chunk[..n] == s[i..i + n]
  {
    assert forall k | i <= k < i + n :: s[k] == chunk[..n][k - i];
    PlainBytesPass(s, i, n);
  }

  lemma SimpleIsPlain(s: Text, i: nat, chunk: Text, n: nat)
    requires i + |chunk| <= |s| && chunk == s[i..i + |chunk|] && n <= |chunk| && IsSimple(chunk[..n])
    ensures StringEnd(s, i + n) == StringEnd(s, i)
  {
    RawIsPlain(s, i, chunk, n);
  }

  /** Scalar values read, and those still to come. */
  function Prepend(done: seq<Rune>, r: Option<Chars>): Option<Chars> {
    match r
    case None => None
    case Some(c) => Some(Chars(done + c.runes, c.end))
  }

  lemma PrependTwice(a: seq<Rune>, b: seq<Rune>, r: Option<Chars>)
    ensures Prepend(a, Prepend(b, r)) == Prepend(a + b, r)
  {
    if r.Some? {
      assert a + (b + r.value.runes) == a + b + r.value.runes;
    }
  }

  lemma CharsStep(s: Text, i: nat)
    requires PieceWidth(s, i) > 0
    ensures CharsAt(s, i) == Prepend([CharAt(s, i).rune], CharsAt(s, i + CharAt(s, i).size))
  {
    PieceIsNoQuote(s, i);
  }

  lemma {:induction false} SimpleBytesStep(s: Text, i: nat, n: nat)
    requires i + n <= |s| && IsSimple(s[i..i + n])
    ensures CharsAt(s, i) == Prepend(RunesOf(s[i..i + n]), CharsAt(s, i + n))
    decreases n
  {
    var t := s[i..i + n];
    if n == 0 {
      PrependNothing(CharsAt(s, i));
    } else {
      assert t[0] == s[i] && t[1..] == s[i + 1..i + 1 + (n - 1)];
      SimpleBytesStep(s, i + 1, n - 1);
      CharsStep(s, i);
      assert StartsRune(t) && DecodeRune(t) == Decoded(t[0] as int, 1);
      PrependTwice([s[i] as int], RunesOf(t[1..]), CharsAt(s, i + n));
    }
  }

  lemma PrependNothing(r: Option<Chars>)
    ensures Prepend([], r) == r
  {
    if r.Some? {
      assert [] + r.value.runes == r.value.runes;
    }
  }

  lemma CharsEnd(s: Text, i: nat, done: seq<Rune>)
    ensures i < |s| && s[i] == QUOTE ==> Prepend(done, CharsAt(s, i)) == Some(Chars(done, i + 1))
    ensures PieceWidth(s, i) == 0 && (i < |s| ==> s[i] != QUOTE) ==> CharsAt(s, i) == None
    ensures i >= |s| ==> PieceWidth(s, i) == 0
  {
    assert done + [] == done;
  }

  lemma SliceOn(s: Text, a: nat, b: nat, c: nat, before: Text)
    requires a <= b <= c <= |s|
    ensures before + ([QUOTE] + s[a..b]) + s[b..c] == before + ([QUOTE] + s[a..c])
  {
    assert s[a..c] == s[a..b] + s[b..c];
  }

  /** A string ends at a quote, goes on after a character, and is malformed otherwise. */
  lemma EndStep(s: Text, i: nat)
    ensures StringEnd(s, i) ==
      if i < |s| && s[i] == QUOTE then Some(i + 1)
      else if PieceWidth(s, i) == 0 then None
      else StringEnd(s, i + PieceWidth(s, i))
    ensures i >= |s| ==> PieceWidth(s, i) == 0
    ensures PieceWidth(s, i) > 0 ==> StringEnd(s, i) == StringEnd(s, i + CharAt(s, i).size)
  {
    if PieceWidth(s, i) > 0 {
      CharKeepsEnd(s, i);
    }
  }

  lemma SliceGrows(prefix: Text, s: Text, a: nat, b: nat, c: nat)
    requires a <= b <= c <= |s|
    ensures prefix + s[a..b] + s[b..c] == prefix + s[a..c]
    ensures c == b + 1 ==> s[b..c] == [s[b]]
  {
    assert s[a..c] == s[a..b] + s[b..c];
  }

  lemma FirstDigit(s: Text, i: nat)
    requires i < |s|
    ensures IsDigit(s[i]) ==> DigitsEnd(s, i) == DigitsEnd(s, i + 1)
  {
  }

  function Separator(first: bool): Text {
    if first then [] else [COMMA]
  }

  lemma LiteralStarts(s: Text, i: nat, w: Text)
    requires w != [] && i < |s| && s[i] == w[0]
    ensures OccursAt(s, w, i) <==> OccursAt(s, w[1..], i + 1)
    ensures OccursAt(s, w, i) ==> s[i..i + |w|] == w
  {
    assert w == [w[0]] + w[1..];
    AtConcat(s, i, [w[0]], w[1..]);
  }

  lemma SliceFrom(s: Text, a: nat, b: nat)
    requires a < b <= |s|
    ensures [s[a]] + s[a + 1..b] == s[a..b]
    ensures s[b - 1] == QUOTE ==> s[a..b] == s[a..b - 1] + [QUOTE]
  {
  }

  /** Nothing but whitespace to the end of the input is no item. */
  lemma ItemsAtEnd(s: Text, i: nat, braced: bool, rekey: bool)
    requires i <= |s|
    ensures SkipSpace(s, i) == |s| ==> RespelledItems(s, i, braced, rekey) == None
  {
  }

  lemma LabelNeedsQuote(s: Text, i: nat, rekey: bool)
    requires i <= |s|
    ensures ByteAt(s, SkipSpace(s, i)) != QUOTE as int ==> RespelledItem(s, i, true, rekey) == None
  {
    hide SkipSpace, StringEnd, Respelled;
  }

  /** A label at the end of the input has no value. */
  lemma NothingFollows(s: Text, i: nat, rekey: bool)
    requires i <= |s|
    ensures var l := RespelledLabel(s, SkipSpace(s, i), true, rekey);
      l.None? || l.value.end == |s| ==> RespelledItem(s, i, true, rekey) == None
  {
  }

  lemma JoinOpen(before: Text, braced: bool, rest: Option<Parsed<Text>>)
    ensures var r := After([Open(braced)], rest);
      if rest.None? then r.None?
      else r.Some? && r.value.end == rest.value.end && before + r.value.tree == before + [Open(braced)] + rest.value.tree
  {
  }

  lemma CloseAfter(before: Text, s: Text, i: nat, braced: bool, rekey: bool)
    requires i <= |s|
    ensures ByteAt(s, SkipSpace(s, i)) == Close(braced) as int ==>
      RespelledRest(s, i, braced, rekey) == Some(Parsed([Close(braced)], SkipSpace(s, i) + 1))
    ensures ByteAt(s, SkipSpace(s, i)) != Close(braced) as int ==>
      var r, rest := After(before, RespelledItems(s, i, braced, rekey)), RespelledRest(s, i, braced, rekey);
      if r.None? then rest.None?
      else rest.Some? && rest.value.end == r.value.end && before + rest.value.tree == r.value.tree + [Close(braced)]
    ensures SkipSpace(s, i) == |s| ==> RespelledRest(s, i, braced, rekey) == None
  {
    ItemsAtEnd(s, i, braced, rekey);
    hide RespelledItems, SkipSpace;
    var r := RespelledItems(s, i, braced, rekey);
    if r.Some? {
      assert before + (r.value.tree + [Close(braced)]) == before + r.value.tree + [Close(braced)];
    }
  }

  lemma NothingAfter(before: Text, r: Option<Parsed<Text>>)
    ensures After(before, r).None? <==> r.None?
  {
  }

  /** A label and a value written one after the other are the item. */
  lemma PartsJoin(prefix: Text, mid: Text, out: Text, s: Text, i: nat, braced: bool, rekey: bool)
    requires i <= |s|
    requires var l := RespelledLabel(s, SkipSpace(s, i), braced, rekey);
      l.Some? && mid == prefix + l.value.tree &&
      Respelled(s, l.value.end, rekey).Some? && out == mid + Respelled(s, l.value.end, rekey).value.tree
    ensures RespelledItem(s, i, braced, rekey).Some?
    ensures out == prefix + RespelledItem(s, i, braced, rekey).value.tree
  {
    hide RespelledLabel, Respelled, SkipSpace;
    var l := RespelledLabel(s, SkipSpace(s, i), braced, rekey).value.tree;
    var p := Respelled(s, RespelledLabel(s, SkipSpace(s, i), braced, rekey).value.end, rekey).value.tree;
    assert prefix + (l + p) == prefix + l + p;
  }

  /** Where a container ends whose opening bracket stands before i. */
  function RestEnd(s: Text, i: nat, braced: bool): Option<nat>
    requires i <= |s|
  {
    if ByteAt(s, SkipSpace(s, i)) == Close(braced) as int then Some(SkipSpace(s, i) + 1)
    else EndOf(ParseItems(s, i, braced))
  }

  lemma EndAtEnd(s: Text, i: nat, braced: bool)
    requires i <= |s|
    ensures SkipSpace(s, i) == |s| ==> EndOf(ParseItems(s, i, braced)) == None
  {
  }

  lemma NothingToParse(s: Text)
    ensures Parse(s, |s|) == None
  {
  }

  lemma ItemsEndStep(s: Text, i: nat, braced: bool)
    requires i <= |s|
    ensures EndOf(ParseItems(s, i, braced)) ==
      match ParseItem(s, i, braced)
      case None => None
      case Some(p) =>
        if ByteAt(s, p.end) == Close(braced) as int then Some(p.end + 1)
        else if ByteAt(s, p.end) == COMMA as int then EndOf(ParseItems(s, p.end + 1, braced))
        else None
  {
    hide ParseItem;
  }

  lemma NothingRead(s: Text, i: nat)
    ensures CharsAt(s, i) == Prepend(RunesOf([]), CharsAt(s, i)) && Encoded(RunesOf([])) == []
  {
    NoRunes();
    NothingEscaped();
    PrependNothing(CharsAt(s, i));
  }

  lemma PrefixOfSlice(s: Text, i: nat, n: nat, k: nat)
    requires i + n <= |s| && k <= n
    ensures s[i..i + n][..k] == s[i..i + k]
  {
  }

  class Scanner {
    const data: Text
    var pos: nat
    var filled: nat
    var out: Text

    ghost predicate Valid()
      reads this`pos, this`filled
    {
      pos <= filled <= |data|
    }

    constructor (data: Text)
      ensures Valid() && this.data == data && pos == 0 && out == []
    {
      this.data, pos, filled, out := data, 0, 0, [];
    }

    // ----- the buffered input -----

    /** Brings any amount of input, but some, into an empty buffer. */
    method Fill()
      requires Valid()
      modifies this`filled
      ensures Valid() && (pos < |data| ==> pos < filled)
    {
      if filled == pos && pos < |data| {
        var n :| filled < n <= |data|;
        filled := n;
      }
    }

    method ReadByte() returns (b: Option<byte>)
      requires Valid()
      modifies this`pos, this`filled
      ensures Valid()
      ensures old(pos) < |data| ==> b == Some(data[old(pos)]) && pos == old(pos) + 1
      ensures old(pos) == |data| ==> b == None && pos == old(pos)
    {
      Fill();
      if pos == |data| { return None; }
      b := Some(data[pos]);
      pos := pos + 1;
    }

    method UnreadByte()
      requires Valid() && pos > 0
      modifies this`pos
      ensures Valid() && pos == old(pos) - 1
    {
      pos := pos - 1;
    }

    /** The next n bytes, fewer at the end of the input. */
    method Peek(n: nat) returns (chunk: Text)
      requires Valid()
      modifies this`filled
      ensures Valid() && chunk == data[pos..if pos + n <= |data| then pos + n else |data|]
    {
      var end := if pos + n <= |data| then pos + n else |data|;
      if filled < end {
        filled := end;
      }
      chunk := data[pos..end];
    }

    method Discard(n: nat)
      requires Valid() && pos + n <= |data|
      modifies this`pos, this`filled
      ensures Valid() && pos == old(pos) + n
    {
      pos := pos + n;
      if filled < pos {
        filled := pos;
      }
    }

    method ReadNonSpaceByte() returns (b: Option<byte>)
      requires Valid()
      modifies this`pos, this`filled
      ensures Valid()
      ensures var i := SkipSpace(data, old(pos));
        if i < |data| then b == Some(data[i]) && pos == i + 1 else b == None
    {
      while true
        invariant Valid() && old(pos) <= pos && SkipSpace(data, pos) == SkipSpace(data, old(pos))
        decreases |data| - pos
      {
        b := ReadByte();
        if b.None? || !IsSpace(b.value) { return; }
      }
    }

    method ExpectLiteral(suffix: Text) returns (ok: bool)
      requires Valid()
      modifies this`pos, this`filled
      ensures Valid()
      ensures ok <==> OccursAt(data, suffix, old(pos))
      ensures ok ==> pos == old(pos) + |suffix|
    {
      for i := 0 to |suffix|
        invariant Valid() && pos == old(pos) + i && OccursAt(data, suffix[..i], old(pos))
      {
        var b := ReadByte();
        if b != Some(suffix[i]) {
          DiffersAt(data, old(pos), suffix, i);
          return false;
        }
        AtConcat(data, old(pos), suffix[..i], [suffix[i]]);
        assert suffix[..i + 1] == suffix[..i] + [suffix[i]];
      }
      assert suffix[..|suffix|] == suffix;
      return true;
    }

    // ----- numbers -----

    /** The digits from here on; end of input ends them. */
    method ReadDigits(number: Text) returns (n: Text)
      requires Valid()
      modifies this`pos, this`filled
      ensures Valid() && pos == DigitsEnd(data, old(pos)) && n == number + data[old(pos)..pos]
    {
      n := number;
      while true
        invariant Valid() && old(pos) <= pos && DigitsEnd(data, pos) == DigitsEnd(data, old(pos))
        invariant n == number + data[old(pos)..pos]
        decreases |data| - pos
      {
        var b := ReadByte();
        if b.None? { return; }
        if !IsDigit(b.value) {
          UnreadByte();
          return;
        }
        n := n + [b.value];
      }
    }

    method ReadExponentDigits(number: Text) returns (ok: bool, n: Text)
      requires Valid()
      modifies this`pos, this`filled
      ensures Valid()
      ensures ok <==> ExponentEnd(data, old(pos)).Some?
      ensures ok ==> pos == ExponentEnd(data, old(pos)).value && n == number + data[old(pos)..pos]
    {
      hide DigitsEnd;
      n := number;
      ghost var start := pos;
      assert number + data[start..start] == number;
      var b := ReadByte();
      if b.None? { return false, n; }
      if b.value == 43 || b.value == 45 {
        n := n + [b.value];
        SliceGrows(number, data, start, start, start + 1);
        b := ReadByte();
        if b.None? { return false, n; }
      }
      if !IsDigit(b.value) { return false, n; }
      ghost var i := pos - 1;
      FirstDigit(data, i);
      n := n + [b.value];
      SliceGrows(number, data, start, i, i + 1);
      n := ReadDigits(n);
      SliceGrows(number, data, start, i + 1, pos);
      return true, n;
    }

    method ReadFractionDigits(number: Text) returns (ok: bool, n: Text)
      requires Valid()
      modifies this`pos, this`filled
      ensures Valid()
      ensures ok <==> FractionEnd(data, old(pos)).Some?
      ensures ok ==> pos == FractionEnd(data, old(pos)).value && n == number + data[old(pos)..pos]
    {
      hide DigitsEnd, ExponentEnd;
      n := number;
      ghost var start := pos;
      assert number + data[start..start] == number;
      var b := ReadByte();
      if b.None? || !IsDigit(b.value) { return false, n; }
      FirstDigit(data, start);
      n := n + [b.value];
      SliceGrows(number, data, start, start, start + 1);
      n := ReadDigits(n);
      ghost var d := pos;
      SliceGrows(number, data, start, start + 1, d);
      b := ReadByte();
      if b.None? { return true, n; }
      if b.value == 101 || b.value == 69 {
        SliceGrows(number, data, start, d, d + 1);
        ok, n := ReadExponentDigits(n + [b.value]);
        if ok {
          SliceGrows(number, data, start, d + 1, pos);
        }
        return;
      }
      UnreadByte();
      return true, n;
    }

    /** The sign and the digits before any point; a leading zero takes no further digit. */
    method ReadInteger(first: byte) returns (ok: bool, n: Text)
      requires Valid() && 0 < pos && data[pos - 1] == first && IsNumberStart(first)
      modifies this`pos, this`filled
      ensures Valid()
      ensures ok <==> IntegerEnd(data, old(pos) - 1).Some?
      ensures ok ==> pos == IntegerEnd(data, old(pos) - 1).value && n == data[old(pos) - 1..pos]
    {
      n := [first];
      var digit := first;
      if first == 45 {
        var b := ReadByte();
        if b.None? || !IsDigit(b.value) { return false, n; }
        digit := b.value;
        n := n + [digit];
      }
      ok := true;
      if digit != 48 {
        assert DigitsEnd(data, pos - 1) == DigitsEnd(data, pos);
        n := ReadDigits(n);
      }
    }

    /** The rest of the number after its first byte. */
    method ReadNumber(first: byte) returns (ok: bool, n: Text)
      requires Valid() && 0 < pos && data[pos - 1] == first && IsNumberStart(first)
      modifies this`pos, this`filled
      ensures Valid()
      ensures ok <==> NumberEnd(data, old(pos) - 1).Some?
      ensures ok ==> pos == NumberEnd(data, old(pos) - 1).value && n == data[old(pos) - 1..pos]
    {
      hide IntegerEnd, FractionEnd, ExponentEnd;
      ok, n := ReadInteger(first);
      if !ok { return; }
      ghost var d := pos;
      var b := ReadByte();
      if b.None? { return; }
      if b.value == 46 {
        ok, n := ReadFractionDigits(n + [b.value]);
        return;
      }
      if b.value == 101 || b.value == 69 {
        ok, n := ReadExponentDigits(n + [b.value]);
        return;
      }
      UnreadByte();
    }

    // ----- strings -----

    method ReadHex4() returns (ok: bool, value: int)
      requires Valid()
      modifies this`pos, this`filled
      ensures Valid()
      ensures ok <==> HexAt(data, old(pos))
      ensures ok ==> pos == old(pos) + 4 && value == Hex4(data, old(pos))
    {
      value := 0;
      ghost var start := pos;
      for i := 0 to 4
        invariant Valid() && pos == start + i
        invariant i >= 1 ==> IsHex(data[start])
        invariant i >= 2 ==> IsHex(data[start + 1])
        invariant i >= 3 ==> IsHex(data[start + 2])
        invariant i >= 4 ==> IsHex(data[start + 3])
        invariant value == (if i == 0 then 0 else if i == 1 then HexDigit(data[start])
          else if i == 2 then HexDigit(data[start]) * 16 + HexDigit(data[start + 1])
          else if i == 3 then (HexDigit(data[start]) * 16 + HexDigit(data[start + 1])) * 16 + HexDigit(data[start + 2])
          else Hex4(data, start))
      {
        var b := ReadByte();
        if b.None? || !IsHex(b.value) { return false, value; }
        value := value * 16 + HexDigit(b.value);
      }
      return true, value;
    }

    /** What follows backslash and u, the second half of a surrogate pair included. */
    method ReadUnicodeEscape() returns (ok: bool, r: Rune)
      requires Valid() && 2 <= pos && data[pos - 2] == BACKSLASH && data[pos - 1] == LETTER_U
      modifies this`pos, this`filled
      ensures Valid()
      ensures ok <==> UnicodeEscapeAt(data, old(pos) - 2)
      ensures ok ==> old(pos) - 2 <= pos && Decoded(r, pos - (old(pos) - 2)) == UnicodeEscape(data, old(pos) - 2)
    {
      hide HexDigit;
      r := REPLACEMENT;
      var high;
      ok, high := ReadHex4();
      if !ok { return; }
      if !(0xD800 <= high < 0xE000) { return true, high; }
      if high > 0xDBFF { return; }
      var i := pos;
      var look := Peek(6);
      assert |look| >= 6 <==> i + 6 <= |data|;
      if |look| >= 6 && look[0] == BACKSLASH && look[1] == LETTER_U && HexAt(look, 2) {
        var low := Hex4(look, 2);
        assert UnicodeEscapeAt(data, i) && low == Hex4(data, i + 2);
        if 0xDC00 <= low < 0xE000 {
          Discard(6);
          r := 0x1_0000 + (high - 0xD800) * 1024 + (low - 0xDC00);
          return;
        }
      } else {
        assert !UnicodeEscapeAt(data, i);
      }
    }

    method DecodeUtf8Rune(first: byte) returns (d: Decoded)
      requires Valid() && 0 < pos && data[pos - 1] == first
      modifies this`pos, this`filled
      ensures Valid() && d == DecodeRune(data[old(pos) - 1..]) && pos == old(pos) - 1 + d.size
    {
      hide DecodeRune;
      var chunk := Peek(3);
      var rest := data[pos - 1..];
      assert [first] + chunk == rest[..1 + |chunk|];
      FourBytesSuffice(rest, 1 + |chunk|);
      d := DecodeRune([first] + chunk);
      if d.size > 1 {
        Discard(d.size - 1);
      }
    }

    /** The character whose first byte has just been read. */
    method ReadChar(first: byte) returns (ok: bool, r: Rune)
      requires Valid() && 0 < pos && data[pos - 1] == first && first != QUOTE
      modifies this`pos, this`filled
      ensures Valid()
      ensures ok <==> PieceWidth(data, old(pos) - 1) > 0
      ensures ok ==> old(pos) <= pos && CharAt(data, old(pos) - 1) == Decoded(r, pos - (old(pos) - 1))
    {
      hide UnicodeEscape, DecodeRune, HexAt;
      r := REPLACEMENT;
      if first == BACKSLASH {
        var e := ReadByte();
        if e.None? { return false, r; }
        if IsShortEscape(e.value) { return true, ShortEscape(e.value); }
        if e.value != LETTER_U { return false, r; }
        ok, r := ReadUnicodeEscape();
        return;
      }
      if first < 32 { return false, r; }
      if first < 0x80 { return true, first as int; }
      var d := DecodeUtf8Rune(first);
      return true, d.rune;
    }

    /** Passes over the simple bytes that are already buffered. */
    method SkipSimple() returns (moved: bool)
      requires Valid()
      modifies this`pos, this`filled
      ensures Valid() && StringEnd(data, pos) == StringEnd(data, old(pos))
      ensures if moved then old(pos) < pos else pos == old(pos)
    {
      hide StringEnd, IsSimple;
      if filled == pos { return false; }
      var chunk := Peek(filled - pos);
      var prefix := LeadingSimple(chunk);
      SimpleIsPlain(data, pos, chunk, prefix);
      Discard(prefix);
      return prefix > 0;
    }

    method SkipString() returns (ok: bool)
      requires Valid()
      modifies this`pos, this`filled
      ensures Valid()
      ensures ok <==> StringEnd(data, old(pos)).Some?
      ensures ok ==> Some(pos) == StringEnd(data, old(pos))
    {
      hide PieceWidth, CharAt, StringEnd;
      while true
        invariant Valid() && StringEnd(data, pos) == StringEnd(data, old(pos))
        decreases |data| - pos
      {
        var moved := SkipSimple();
        if moved { continue; }
        EndStep(data, pos);
        var b := ReadByte();
        if b.None? { return false; }
        if b.value == QUOTE { return true; }
        var r;
        ok, r := ReadChar(b.value);
        if !ok { return; }
      }
    }

    /** The piece whose first byte has just been read, written as it stands. */
    method CopyPiece(first: byte) returns (ok: bool)
      requires Valid() && 0 < pos && data[pos - 1] == first && first != QUOTE
      modifies this
      ensures Valid()
      ensures ok <==> PieceWidth(data, old(pos) - 1) > 0
      ensures ok ==> pos == old(pos) - 1 + PieceWidth(data, old(pos) - 1) && out == old(out) + data[old(pos) - 1..pos]
    {
      hide HexAt;
      if first != BACKSLASH {
        if first < 32 { return false; }
        out := out + [first];
        return true;
      }
      out := out + [first];
      var e := ReadByte();
      if e.None? { return false; }
      out := out + [e.value];
      if IsShortEscape(e.value) { return true; }
      if e.value != LETTER_U { return false; }
      ok := CopyHex4();
    }

    /** Writes the plain bytes that are already buffered. */
    method CopyPlain() returns (moved: bool)
      requires Valid()
      modifies this
      ensures Valid() && StringEnd(data, pos) == StringEnd(data, old(pos))
      ensures if moved then old(pos) < pos else pos == old(pos)
      ensures out == old(out) + data[old(pos)..pos]
    {
      hide StringEnd, AllPlain;
      if filled == pos { return false; }
      var chunk := Peek(filled - pos);
      var prefix := LeadingRaw(chunk);
      RawIsPlain(data, pos, chunk, prefix);
      out := out + chunk[..prefix];
      Discard(prefix);
      return prefix > 0;
    }

    /** The string after its opening quote, written as it stands. */
    method CopyRawString() returns (ok: bool)
      requires Valid()
      modifies this
      ensures Valid()
      ensures ok <==> StringEnd(data, old(pos)).Some?
      ensures ok ==> Some(pos) == StringEnd(data, old(pos)) && out == old(out) + ([QUOTE] + data[old(pos)..pos])
    {
      hide PieceWidth, StringEnd;
      ghost var start, before := pos, out;
      out := out + [QUOTE];
      while true
        invariant Valid() && start <= pos && StringEnd(data, pos) == StringEnd(data, start)
        invariant out == before + ([QUOTE] + data[start..pos])
        decreases |data| - pos
      {
        ghost var i := pos;
        var moved := CopyPlain();
        SliceOn(data, start, i, pos, before);
        if moved { continue; }
        EndStep(data, i);
        var b := ReadByte();
        if b.None? { return false; }
        if b.value == QUOTE {
          out := out + [QUOTE];
          SliceOn(data, start, i, pos, before);
          return true;
        }
        ok := CopyPiece(b.value);
        if !ok { return; }
        SliceOn(data, start, i, pos, before);
      }
    }

    method CopyHex4() returns (ok: bool)
      requires Valid()
      modifies this
      ensures Valid()
      ensures ok <==> HexAt(data, old(pos))
      ensures ok ==> pos == old(pos) + 4 && out == old(out) + data[old(pos)..pos]
    {
      ghost var start := pos;
      for i := 0 to 4
        invariant Valid() && pos == start + i && out == old(out) + data[start..pos]
        invariant forall k | start <= k < start + i :: IsHex(data[k])
      {
        var b := ReadByte();
        if b.None? || !IsHex(b.value) { return false; }
        out := out + [b.value];
      }
      return true;
    }

    /** The simple bytes that are already buffered. */
    method ReadSimple() returns (text: Text)
      requires Valid()
      modifies this`pos, this`filled
      ensures Valid() && CharsAt(data, old(pos)) == Prepend(RunesOf(text), CharsAt(data, pos))
      ensures text == Encoded(RunesOf(text)) && pos == old(pos) + |text|
    {
      hide CharsAt, IsSimple, Encoded, RunesOf, Prepend;
      if filled == pos {
        NothingRead(data, pos);
        return [];
      }
      var n := filled - pos;
      var chunk := Peek(n);
      var prefix := LeadingSimple(chunk);
      text := chunk[..prefix];
      PrefixOfSlice(data, pos, n, prefix);
      SimpleBytesStep(data, pos, prefix);
      SimpleIsItself(text);
      Discard(prefix);
    }

    /** The decoded string after its opening quote, as UTF-8. */
    method ReadString() returns (ok: bool, text: Text)
      requires Valid()
      modifies this`pos, this`filled
      ensures Valid()
      ensures ok <==> CharsAt(data, old(pos)).Some?
      ensures ok ==> var c := CharsAt(data, old(pos)).value; pos == c.end && text == Encoded(c.runes)
    {
      hide PieceWidth, CharAt, DecodeRune, RuneBytes, Encoded, CharsAt, RunesOf;
      text := [];
      ghost var done, start := [], pos;
      NothingEscaped();
      PrependNothing(CharsAt(data, pos));
      while true
        invariant Valid() && CharsAt(data, start) == Prepend(done, CharsAt(data, pos))
        invariant text == Encoded(done)
        decreases |data| - pos
      {
        var simple := ReadSimple();
        PrependTwice(done, RunesOf(simple), CharsAt(data, pos));
        EncodedConcat(done, RunesOf(simple));
        done := done + RunesOf(simple);
        text := text + simple;
        if simple != [] { continue; }
        ghost var i := pos;
        CharsEnd(data, i, done);
        var b := ReadByte();
        if b.None? { return false, text; }
        if b.value == QUOTE { return true, text; }
        var r;
        ok, r := ReadChar(b.value);
        if !ok { return; }
        CharsStep(data, i);
        PrependTwice(done, [r], CharsAt(data, pos));
        EncodedMore(done, r);
        done := done + [r];
        text := text + RuneBytes(r);
      }
    }

    // ----- literals and numbers -----

    /** A literal or number whose first byte has just been read. */
    method ReadWord(start: byte) returns (ok: bool, word: Text)
      requires Valid() && 0 < pos && data[pos - 1] == start
      modifies this`pos, this`filled
      ensures Valid()
      ensures ok <==> WordEnd(data, old(pos) - 1).Some?
      ensures ok ==> Some(pos) == WordEnd(data, old(pos) - 1) && word == data[old(pos) - 1..pos]
    {
      hide NumberEnd, OccursAt;
      ghost var i := pos - 1;
      if start == 116 {
        LiteralStarts(data, i, TRUE_TEXT);
        ok := ExpectLiteral(TRUE_TEXT[1..]);
        word := TRUE_TEXT;
      } else if start == 102 {
        LiteralStarts(data, i, FALSE_TEXT);
        ok := ExpectLiteral(FALSE_TEXT[1..]);
        word := FALSE_TEXT;
      } else if start == 110 {
        LiteralStarts(data, i, NULL_TEXT);
        ok := ExpectLiteral(NULL_TEXT[1..]);
        word := NULL_TEXT;
      } else if IsNumberStart(start) {
        ok, word := ReadNumber(start);
      } else {
        ok, word := false, [];
      }
    }

    // ----- the compact copy; rekey decodes the keys and escapes them anew -----

    method CopyValue(start: byte, rekey: bool) returns (ok: bool)
      requires Valid() && 0 < pos && data[pos - 1] == start
      modifies this
      ensures Valid()
      ensures ok <==> Respelled(data, old(pos) - 1, rekey).Some?
      ensures ok ==> var p := Respelled(data, old(pos) - 1, rekey).value; pos == p.end && out == old(out) + p.tree
      decreases |data| - pos, 1
    {
      hide Respelled, RespelledRest, StringEnd, WordEnd;
      ghost var i, before := pos - 1, out;
      if start == Open(true) {
        ContainerRespells(data, i, true, rekey);
        out := out + [Open(true)];
        ok := CopyObject(rekey);
        JoinOpen(before, true, RespelledRest(data, i + 1, true, rekey));
      } else if start == Open(false) {
        ContainerRespells(data, i, false, rekey);
        out := out + [Open(false)];
        ok := CopyArray(rekey);
        JoinOpen(before, false, RespelledRest(data, i + 1, false, rekey));
      } else if start == QUOTE {
        StringRespells(data, i, rekey);
        ok := CopyRawString();
        if !ok { return; }
        SliceFrom(data, i, pos);
      } else {
        WordRespells(data, i, rekey);
        var word;
        ok, word := ReadWord(start);
        out := out + word;
      }
    }

    /** The comma if one is due and the key whose opening quote has just been read. */
    method CopyKey(first: bool, rekey: bool) returns (ok: bool)
      requires Valid()
      modifies this
      ensures Valid()
      ensures ok <==> StringEnd(data, old(pos)).Some?
      ensures ok ==> Some(pos) == StringEnd(data, old(pos)) && CharsAt(data, old(pos)).Some?
      ensures ok ==>
        var body := if rekey then Escaped(CharsAt(data, old(pos)).value.runes) else data[old(pos)..pos - 1];
        out == old(out) + Separator(first) + ([QUOTE] + (body + [QUOTE]))
    {
      hide StringEnd, CharsAt;
      ghost var start := pos;
      DecodingEndsAlike(data, start);
      if rekey {
        var key;
        ok, key := ReadString();
        if !ok { return; }
        RunesOfEncoded(CharsAt(data, start).value.runes);
        if !first {
          out := out + [COMMA];
        }
        out := AppendJsonString(out, key);
      } else {
        if !first {
          out := out + [COMMA];
        }
        ok := CopyRawString();
        if !ok { return; }
        assert data[start..pos] == data[start..pos - 1] + [QUOTE];
      }
    }

    /** The key, the colon and the first byte of the value. */
    method CopyLabel(first: bool, rekey: bool) returns (ok: bool, start: byte)
      requires Valid() && 0 < pos && data[pos - 1] == QUOTE
      modifies this
      ensures Valid()
      ensures var l := RespelledLabel(data, old(pos) - 1, true, rekey);
        (ok <==> l.Some? && l.value.end < |data|) &&
        (ok ==> pos == l.value.end + 1 && start == data[l.value.end] && out == old(out) + Separator(first) + l.value.tree)
    {
      hide RespelledLabel, StringEnd, CharsAt, SkipSpace, Escaped;
      start := 0;
      LabelRespells(data, pos - 1, rekey);
      ok := CopyKey(first, rekey);
      if !ok { return; }
      out := out + [COLON];
      var colon := ReadNonSpaceByte();
      if colon != Some(COLON) { return false, start; }
      var b := ReadNonSpaceByte();
      if b.None? { return false, start; }
      return true, b.value;
    }

    /** The comma if one is due, one member of an object and the byte that follows it. */
    method CopyMember(start: byte, ghost k: nat, first: bool, rekey: bool) returns (ok: bool, next: byte)
      requires Valid() && k <= |data| && 0 < pos && pos - 1 == SkipSpace(data, k) && data[pos - 1] == start
      modifies this
      ensures Valid()
      ensures var r := RespelledItem(data, k, true, rekey);
        (ok <==> r.Some? && r.value.end < |data|) &&
        (ok ==> pos == r.value.end + 1 && next == data[r.value.end] && out == old(out) + Separator(first) + r.value.tree)
      ensures ok ==> old(pos) < pos
      decreases |data| - pos, 2
    {
      hide Respelled, RespelledLabel, SkipSpace;
      next := 0;
      LabelNeedsQuote(data, k, rekey);
      if start != QUOTE { return false, next; }
      ghost var prefix := out + Separator(first);
      var value;
      ok, value := CopyLabel(first, rekey);
      if !ok {
        NothingFollows(data, k, rekey);
        return;
      }
      ghost var mid := out;
      ok := CopyValue(value, rekey);
      if !ok { return; }
      PartsJoin(prefix, mid, out, data, k, true, rekey);
      var b := ReadNonSpaceByte();
      if b.None? { return false, next; }
      return true, b.value;
    }

    /** The comma if one is due, one element of an array and the byte that follows it. */
    method CopyElement(start: byte, ghost k: nat, first: bool, rekey: bool) returns (ok: bool, next: byte)
      requires Valid() && k <= |data| && 0 < pos && pos - 1 == SkipSpace(data, k) && data[pos - 1] == start
      modifies this
      ensures Valid()
      ensures var r := RespelledItem(data, k, false, rekey);
        (ok <==> r.Some? && r.value.end < |data|) &&
        (ok ==> pos == r.value.end + 1 && next == data[r.value.end] && out == old(out) + Separator(first) + r.value.tree)
      ensures ok ==> old(pos) < pos
      decreases |data| - pos, 2
    {
      hide Respelled, SkipSpace;
      next := 0;
      ghost var prefix := out + Separator(first);
      if !first {
        out := out + [COMMA];
      }
      assert out == prefix;
      ok := CopyValue(start, rekey);
      if !ok { return; }
      PartsJoin(prefix, prefix, out, data, k, false, rekey);
      var b := ReadNonSpaceByte();
      if b.None? { return false, next; }
      return true, b.value;
    }

    method CopyObject(rekey: bool) returns (ok: bool)
      requires Valid()
      modifies this
      ensures Valid()
      ensures ok <==> RespelledRest(data, old(pos), true, rekey).Some?
      ensures ok ==> var p := RespelledRest(data, old(pos), true, rekey).value; pos == p.end && out == old(out) + p.tree
      decreases |data| - pos, 0
    {
      hide RespelledItems, RespelledItem, SkipSpace, After, RespelledRest;
      ghost var start, before, k := pos, out, pos;
      CloseAfter(before, data, start, true, rekey);
      var next := ReadNonSpaceByte();
      if next.None? { return false; }
      if next.value == Close(true) {
        out := out + [Close(true)];
        return true;
      }
      var first := true;
      assert out + Separator(first) == out;
      while true
        invariant Valid() && start <= k < pos && pos - 1 == SkipSpace(data, k) && next == Some(data[pos - 1])
        invariant After(out + Separator(first), RespelledItems(data, k, true, rekey)) ==
          After(before, RespelledItems(data, start, true, rekey))
        decreases |data| - pos
      {
        ItemDone(data, k, true, rekey, out + Separator(first));
        var following;
        ok, following := CopyMember(next.value, k, first, rekey);
        if !ok { return; }
        if following == COMMA {
          k := pos;
          ItemsAtEnd(data, k, true, rekey);
          NothingAfter(out + [COMMA], RespelledItems(data, k, true, rekey));
          next := ReadNonSpaceByte();
          if next.None? { return false; }
          first := false;
        } else if following == Close(true) {
          out := out + [Close(true)];
          return true;
        } else {
          return false;
        }
      }
    }

    method CopyArray(rekey: bool) returns (ok: bool)
      requires Valid()
      modifies this
      ensures Valid()
      ensures ok <==> RespelledRest(data, old(pos), false, rekey).Some?
      ensures ok ==> var p := RespelledRest(data, old(pos), false, rekey).value; pos == p.end && out == old(out) + p.tree
      decreases |data| - pos, 0
    {
      hide RespelledItems, RespelledItem, SkipSpace, After, RespelledRest;
      ghost var start, before, k := pos, out, pos;
      CloseAfter(before, data, start, false, rekey);
      var next := ReadNonSpaceByte();
      if next.None? { return false; }
      if next.value == Close(false) {
        out := out + [Close(false)];
        return true;
      }
      var first := true;
      assert out + Separator(first) == out;
      while true
        invariant Valid() && start <= k < pos && pos - 1 == SkipSpace(data, k) && next == Some(data[pos - 1])
        invariant After(out + Separator(first), RespelledItems(data, k, false, rekey)) ==
          After(before, RespelledItems(data, start, false, rekey))
        decreases |data| - pos
      {
        ItemDone(data, k, false, rekey, out + Separator(first));
        var following;
        ok, following := CopyElement(next.value, k, first, rekey);
        if !ok { return; }
        if following == COMMA {
          k := pos;
          ItemsAtEnd(data, k, false, rekey);
          NothingAfter(out + [COMMA], RespelledItems(data, k, false, rekey));
          next := ReadNonSpaceByte();
          if next.None? { return false; }
          first := false;
        } else if following == Close(false) {
          out := out + [Close(false)];
          return true;
        } else {
          return false;
        }
      }
    }

    // ----- skipping -----

    method SkipValue(start: byte) returns (ok: bool)
      requires Valid() && 0 < pos && data[pos - 1] == start
      modifies this`pos, this`filled
      ensures Valid()
      ensures ok <==> Parse(data, old(pos) - 1).Some?
      ensures ok ==> Some(pos) == EndOf(Parse(data, old(pos) - 1))
      decreases |data| - pos, 1
    {
      hide ParseItems, StringEnd, WordEnd, SkipSpace;
      if start == Open(true) {
        ok := SkipObject();
      } else if start == Open(false) {
        ok := SkipArray();
      } else if start == QUOTE {
        ok := SkipString();
      } else {
        var word;
        ok, word := ReadWord(start);
      }
    }

    /** The key whose opening quote has just been read, the colon and the first byte of the value. */
    method SkipKey() returns (ok: bool, start: byte)
      requires Valid() && 0 < pos && data[pos - 1] == QUOTE
      modifies this`pos, this`filled
      ensures Valid()
      ensures var l := ParseLabel(data, old(pos) - 1);
        (ok <==> l.Some? && l.value.end < |data|) && (ok ==> pos == l.value.end + 1 && start == data[l.value.end])
    {
      hide StringEnd, SkipSpace;
      start := 0;
      ok := SkipString();
      if !ok { return; }
      var colon := ReadNonSpaceByte();
      if colon != Some(COLON) { return false, start; }
      var b := ReadNonSpaceByte();
      if b.None? { return false, start; }
      return true, b.value;
    }

    /** One member of an object and the byte that follows it. */
    method SkipMember(start: byte, ghost k: nat) returns (ok: bool, next: byte)
      requires Valid() && k <= |data| && 0 < pos && pos - 1 == SkipSpace(data, k) && data[pos - 1] == start
      modifies this`pos, this`filled
      ensures Valid()
      ensures var r := ParseItem(data, k, true);
        (ok <==> r.Some? && r.value.end < |data|) && (ok ==> pos == r.value.end + 1 && next == data[r.value.end])
      ensures ok ==> old(pos) < pos
      decreases |data| - pos, 2
    {
      hide Parse, StringEnd, SkipSpace;
      next := 0;
      if start != QUOTE { return false, next; }
      var value;
      ok, value := SkipKey();
      if !ok {
        NothingToParse(data);
        return;
      }
      ok := SkipValue(value);
      if !ok { return; }
      var b := ReadNonSpaceByte();
      if b.None? { return false, next; }
      return true, b.value;
    }

    method SkipObject() returns (ok: bool)
      requires Valid()
      modifies this`pos, this`filled
      ensures Valid()
      ensures ok <==> RestEnd(data, old(pos), true).Some?
      ensures ok ==> Some(pos) == RestEnd(data, old(pos), true)
      decreases |data| - pos, 0
    {
      hide ParseItems, ParseItem, SkipSpace;
      ghost var start, k := pos, pos;
      EndAtEnd(data, start, true);
      var next := ReadNonSpaceByte();
      if next.None? { return false; }
      if next.value == Close(true) { return true; }
      while true
        invariant Valid() && start <= k < pos && pos - 1 == SkipSpace(data, k) && next == Some(data[pos - 1])
        invariant EndOf(ParseItems(data, k, true)) == EndOf(ParseItems(data, start, true))
        decreases |data| - pos
      {
        ItemsEndStep(data, k, true);
        var following;
        ok, following := SkipMember(next.value, k);
        if !ok { return; }
        if following == COMMA {
          k := pos;
          EndAtEnd(data, k, true);
          next := ReadNonSpaceByte();
          if next.None? { return false; }
        } else {
          return following == Close(true);
        }
      }
    }

    method SkipArray() returns (ok: bool)
      requires Valid()
      modifies this`pos, this`filled
      ensures Valid()
      ensures ok <==> RestEnd(data, old(pos), false).Some?
      ensures ok ==> Some(pos) == RestEnd(data, old(pos), false)
      decreases |data| - pos, 0
    {
      hide ParseItems, Parse, SkipSpace;
      ghost var start, k := pos, pos;
      EndAtEnd(data, start, false);
      var next := ReadNonSpaceByte();
      if next.None? { return false; }
      if next.value == Close(false) { return true; }
      while true
        invariant Valid() && start <= k < pos && pos - 1 == SkipSpace(data, k) && next == Some(data[pos - 1])
        invariant EndOf(ParseItems(data, k, false)) == EndOf(ParseItems(data, start, false))
        decreases |data| - pos
      {
        ItemsEndStep(data, k, false);
        ok := SkipValue(next.value);
        if !ok { return; }
        next := ReadNonSpaceByte();
        if next.None? { return false; }
        if next.value == COMMA {
          k := pos;
          EndAtEnd(data, k, false);
          next := ReadNonSpaceByte();
          if next.None? { return false; }
        } else {
          return next.value == Close(false);
        }
      }
    }
  }
}
