/**
 The productions of sections 2 to 7 of RFC 8259, stated without reference to any scanner,
 and the equivalence: the scanners accept exactly the texts the grammar generates.
 */
module JsonGrammar {
  import opened Bytes
  import opened Json
  import opened JsonText
  import opened JsonSyntax

  // ----- section 6: numbers -----

  /** 1*DIGIT */
  predicate IsDigits(t: Text) {
    t != [] && forall k | 0 <= k < |t| :: IsDigit(t[k])
  }

  /** A zero, or digits that do not start with one. */
  predicate IsInt(t: Text) {
    t == [48] || (IsDigits(t) && t[0] != 48)
  }

  /** A point and digits. */
  predicate IsFrac(t: Text) {
    t != [] && t[0] == 46 && IsDigits(t[1..])
  }

  /** The letter e in either case, a sign or none, and digits. */
  predicate IsExp(t: Text) {
    t != [] && (t[0] == 101 || t[0] == 69) &&
    (IsDigits(t[1..]) || (|t| > 1 && (t[1] == 43 || t[1] == 45) && IsDigits(t[2..])))
  }

  datatype Parts = Parts(minus: Text, digits: Text, frac: Text, exp: Text)

  ghost predicate MadeOf(w: Text, p: Parts) {
    && w == p.minus + p.digits + p.frac + p.exp
    && (p.minus == [] || p.minus == [45]) && IsInt(p.digits)
    && (p.frac == [] || IsFrac(p.frac)) && (p.exp == [] || IsExp(p.exp))
  }

  ghost predicate IsNumber(w: Text) {
    exists p :: MadeOf(w, p)
  }

  lemma DigitRun(s: Text, i: nat, e: nat)
    requires i < e <= |s| && forall k | i <= k < e :: IsDigit(s[k])
    ensures IsDigits(s[i..e])
  {
  }

  lemma ExponentSound(s: Text, i: nat)
    requires 0 < i <= |s| && ExponentMarkAt(s, i - 1) && ExponentEnd(s, i).Some?
    ensures IsExp(s[i - 1..ExponentEnd(s, i).value])
  {
    var e := ExponentEnd(s, i).value;
    var t := s[i - 1..e];
    var j := if SignAt(s, i) then i + 1 else i;
    DigitRun(s, j, e);
    assert t[1..] == s[i..e];
    if j == i + 1 {
      assert t[2..] == s[j..e];
    }
  }

  lemma DigitsAreMore(s: Text, i: nat)
    requires DigitAt(s, i)
    ensures i < DigitsEnd(s, i)
  {
  }

  /** The fraction and what follows it to the end of the text. */
  lemma FractionSound(w: Text, d: nat) returns (frac: Text, exp: Text)
    requires PointAt(w, d) && FractionEnd(w, d + 1) == Some(|w|)
    ensures w[d..] == frac + exp && IsFrac(frac) && (exp == [] || IsExp(exp))
  {
    hide DigitsEnd, ExponentEnd, IsExp;
    var f := DigitsEnd(w, d + 1);
    DigitsAreMore(w, d + 1);
    DigitRun(w, d + 1, f);
    frac, exp := w[d..f], w[f..];
    assert frac[1..] == w[d + 1..f];
    if ExponentMarkAt(w, f) {
      ExponentSound(w, f + 1);
      assert w[f..|w|] == w[f..];
    }
  }

  /** Where the scan of a number ends, its parts stand one after another. */
  lemma NumberSound(w: Text)
    requires NumberEnd(w, 0) == Some(|w|)
    ensures IsNumber(w)
  {
    hide IntegerEnd, FractionEnd, ExponentEnd, IsExp, IsFrac, IsInt;
    var j := if MinusAt(w, 0) then 1 else 0;
    var d := IntegerEnd(w, 0).value;
    IntSound(w, j, d);
    var frac, exp: Text := [], [];
    if PointAt(w, d) {
      frac, exp := FractionSound(w, d);
    } else if ExponentMarkAt(w, d) {
      ExponentSound(w, d + 1);
      exp := w[d..|w|];
    }
    Assembled(w, j, d, frac, exp);
  }

  lemma Assembled(w: Text, j: nat, d: nat, frac: Text, exp: Text)
    requires j <= d <= |w| && (j == 0 || (j == 1 && w[0] == 45)) && IsInt(w[j..d]) && w[d..] == frac + exp
    requires (frac == [] || IsFrac(frac)) && (exp == [] || IsExp(exp))
    ensures IsNumber(w)
  {
    hide IsInt, IsFrac, IsExp;
    assert w[..j] == [] || w[..j] == [45];
    calc {
      w;
      w[..j] + w[j..d] + w[d..];
      w[..j] + w[j..d] + (frac + exp);
      w[..j] + w[j..d] + frac + exp;
    }
    assert MadeOf(w, Parts(w[..j], w[j..d], frac, exp));
  }

  lemma IntSound(w: Text, j: nat, d: nat)
    requires j == (if MinusAt(w, 0) then 1 else 0) && IntegerEnd(w, 0) == Some(d)
    ensures j < d <= |w| && IsInt(w[j..d])
  {
    if w[j] != 48 {
      DigitsAreMore(w, j);
      DigitRun(w, j, d);
    } else {
      assert w[j..d] == [48];
    }
  }

  /** Digits followed by no digit end where they end. */
  lemma RunEnds(s: Text, i: nat, t: Text)
    requires OccursAt(s, t, i) && IsDigits(t) && !DigitAt(s, i + |t|)
    ensures DigitsEnd(s, i) == i + |t| && DigitAt(s, i)
  {
    forall k | i <= k < i + |t| ensures IsDigit(s[k]) {
      assert s[k] == s[i..i + |t|][k - i];
    }
    DigitsEndIs(s, i, i + |t|);
  }

  lemma ExponentComplete(s: Text, i: nat, t: Text)
    requires OccursAt(s, t, i) && IsExp(t) && i + |t| == |s|
    ensures ExponentMarkAt(s, i) && ExponentEnd(s, i + 1) == Some(|s|)
  {
    FirstByte(s, i, t);
    AtConcat(s, i, t[..1], t[1..]);
    assert t == t[..1] + t[1..];
    if IsDigits(t[1..]) {
      FirstByte(s, i + 1, t[1..]);
      RunEnds(s, i + 1, t[1..]);
    } else {
      AtConcat(s, i + 1, t[1..2], t[2..]);
      assert t[1..] == t[1..2] + t[2..];
      FirstByte(s, i + 1, t[1..2]);
      RunEnds(s, i + 2, t[2..]);
    }
  }

  lemma FractionComplete(s: Text, i: nat, t: Text, exp: Text)
    requires OccursAt(s, t, i) && IsFrac(t) && OccursAt(s, exp, i + |t|) && i + |t| + |exp| == |s| && (exp == [] || IsExp(exp))
    ensures PointAt(s, i) && FractionEnd(s, i + 1) == Some(|s|)
  {
    hide IsExp, ExponentEnd;
    FirstByte(s, i, t);
    AtConcat(s, i, t[..1], t[1..]);
    assert t == t[..1] + t[1..];
    if exp != [] {
      ExponentComplete(s, i + |t|, exp);
    }
    RunEnds(s, i + 1, t[1..]);
  }

  lemma IntComplete(w: Text, minus: Text, digits: Text)
    requires OccursAt(w, minus, 0) && OccursAt(w, digits, |minus|) && (minus == [] || minus == [45]) && IsInt(digits)
    requires !DigitAt(w, |minus| + |digits|)
    ensures IntegerEnd(w, 0) == Some(|minus| + |digits|) && w != [] && IsNumberStart(w[0])
  {
    hide OccursAt, DigitsEnd;
    FirstByte(w, |minus|, digits);
    if minus != [] {
      FirstByte(w, 0, minus);
    }
    if digits != [48] {
      RunEnds(w, |minus|, digits);
    }
  }

  lemma PartsStand(w: Text, p: Parts)
    requires MadeOf(w, p)
    ensures OccursAt(w, p.minus, 0) && OccursAt(w, p.digits, |p.minus|)
    ensures OccursAt(w, p.frac, |p.minus| + |p.digits|) && OccursAt(w, p.exp, |p.minus| + |p.digits| + |p.frac|)
    ensures |w| == |p.minus| + |p.digits| + |p.frac| + |p.exp|
    ensures (p.minus == [] || p.minus == [45]) && IsInt(p.digits) && (p.frac == [] || IsFrac(p.frac)) && (p.exp == [] || IsExp(p.exp))
  {
    hide IsExp, IsInt, IsFrac, OccursAt;
    WholeOccurs(w);
    AtConcat(w, 0, p.minus + p.digits + p.frac, p.exp);
    AtConcat(w, 0, p.minus + p.digits, p.frac);
    AtConcat(w, 0, p.minus, p.digits);
  }

  /** Parts one after another are scanned as a number to the end. */
  lemma NumberComplete(w: Text, p: Parts)
    requires MadeOf(w, p)
    ensures NumberEnd(w, 0) == Some(|w|) && w != [] && IsNumberStart(w[0])
  {
    hide IsExp, IsInt, IsFrac, ExponentEnd, FractionEnd, IntegerEnd, OccursAt, MadeOf;
    PartsStand(w, p);
    var d := |p.minus| + |p.digits|;
    if p.exp != [] {
      ExponentComplete(w, d + |p.frac|, p.exp);
    }
    if p.frac != [] {
      FractionComplete(w, d, p.frac, p.exp);
    }
    IntComplete(w, p.minus, p.digits);
  }

  lemma WholeOccurs(w: Text)
    ensures OccursAt(w, w, 0)
  {
    assert w[0..0 + |w|] == w;
  }

  /** A word is one of the three literals or a number. */
  ghost predicate IsLiteralOrNumber(w: Text) {
    w == TRUE_TEXT || w == FALSE_TEXT || w == NULL_TEXT || IsNumber(w)
  }

  lemma WordsAreGenerated(w: Text)
    ensures IsWord(w) <==> IsLiteralOrNumber(w)
  {
    hide NumberEnd, MadeOf;
    if IsNumber(w) {
      var p :| MadeOf(w, p);
      NumberComplete(w, p);
    }
    if w != [] && IsNumberStart(w[0]) && NumberEnd(w, 0) == Some(|w|) {
      NumberSound(w);
    }
    if w != [] {
      assert w[0..|w|] == w;
    }
  }

  // ----- section 7: strings -----

  /** One unescaped byte of a character, a short escape, or a Unicode escape. */
  predicate IsPiece(t: Text) {
    || (|t| == 1 && IsPlain(t[0]))
    || (|t| == 2 && t[0] == BACKSLASH && IsShortEscape(t[1]))
    || (|t| == 6 && t[0] == BACKSLASH && t[1] == LETTER_U && IsHex(t[2]) && IsHex(t[3]) && IsHex(t[4]) && IsHex(t[5]))
  }

  function Joined(pieces: seq<Text>): Text {
    if pieces == [] then [] else pieces[0] + Joined(pieces[1..])
  }

  ghost predicate AllPieces(pieces: seq<Text>) {
    forall k :: 0 <= k < |pieces| ==> IsPiece(pieces[k])
  }

  ghost predicate IsPieces(body: Text) {
    exists pieces :: AllPieces(pieces) && body == Joined(pieces)
  }

  lemma PieceIsWide(s: Text, i: nat)
    requires PieceWidth(s, i) > 0
    ensures IsPiece(s[i..i + PieceWidth(s, i)])
  {
  }

  lemma PieceStands(s: Text, i: nat, t: Text)
    requires IsPiece(t) && OccursAt(s, t, i)
    ensures PieceWidth(s, i) == |t|
  {
    AtAgrees(s, i, t);
    assert t[0] == s[0 + i];
    if |t| > 1 {
      assert t[1] == s[1 + i];
    }
    if |t| == 6 {
      assert t[2] == s[2 + i] && t[3] == s[3 + i] && t[4] == s[4 + i] && t[5] == s[5 + i];
    }
  }

  lemma {:induction false} BodyIsPieces(s: Text, i: nat) returns (pieces: seq<Text>)
    requires StringEnd(s, i).Some?
    ensures AllPieces(pieces) && s[i..StringEnd(s, i).value - 1] == Joined(pieces)
    decreases |s| - i
  {
    hide IsPiece, PieceWidth;
    if s[i] == QUOTE {
      return [];
    }
    var w, e := PieceWidth(s, i), StringEnd(s, i).value;
    PieceIsWide(s, i);
    var rest := BodyIsPieces(s, i + w);
    pieces := [s[i..i + w]] + rest;
    assert pieces[1..] == rest;
    assert s[i..e - 1] == s[i..i + w] + s[i + w..e - 1];
  }

  lemma {:induction false} PiecesAreBody(s: Text, i: nat, pieces: seq<Text>)
    requires AllPieces(pieces) && OccursAt(s, Joined(pieces) + [QUOTE], i)
    ensures StringEnd(s, i) == Some(i + |Joined(pieces)| + 1)
    decreases |pieces|
  {
    hide IsPiece, PieceWidth, OccursAt;
    if pieces == [] {
      QuoteAt(s, i);
    } else {
      var head, tail := pieces[0], Joined(pieces[1..]);
      assert Joined(pieces) + [QUOTE] == head + (tail + [QUOTE]);
      AtConcat(s, i, head, tail + [QUOTE]);
      PieceStands(s, i, head);
      PieceNotEmpty(head);
      PieceIsNoQuote(s, i);
      PiecesAreBody(s, i + |head|, pieces[1..]);
    }
  }

  lemma PieceNotEmpty(t: Text)
    requires IsPiece(t)
    ensures t != []
  {
  }

  lemma BodiesAreGenerated(body: Text)
    ensures IsBody(body) <==> IsPieces(body)
  {
    var t := body + [QUOTE];
    assert t[0..0 + |t|] == t;
    if IsBody(body) {
      var pieces := BodyIsPieces(t, 0);
      assert t[0..|body|] == body;
    }
    if pieces :| AllPieces(pieces) && body == Joined(pieces) {
      PiecesAreBody(t, 0, pieces);
    }
  }

  // ----- values -----

  /** Generated by the grammar: words, strings, and the whitespace between tokens. */
  ghost predicate WellFormed(v: Value)
    decreases v
  {
    match v
    case Word(w) => IsLiteralOrNumber(w)
    case Quoted(body) => IsPieces(body)
    case Empty(_, gap) => Spaces(gap)
    case Full(braced, items) => WellFormedItems(braced, items)
  }

  ghost predicate WellFormedLabel(braced: bool, l: Label) {
    match l
    case NoLabel => !braced
    case Label(body, gap, pad) => braced && IsPieces(body) && Spaces(gap) && Spaces(pad)
  }

  ghost predicate WellFormedItem(braced: bool, i: Item)
    decreases i
  {
    Spaces(i.before) && WellFormedLabel(braced, i.name) && WellFormed(i.value) && Spaces(i.after)
  }

  ghost predicate WellFormedItems(braced: bool, items: Items)
    decreases items
  {
    WellFormedItem(braced, items.item) && (items.More? ==> WellFormedItems(braced, items.rest))
  }

  lemma {:induction false} ValuesAreGenerated(v: Value)
    ensures Good(v) <==> WellFormed(v)
    decreases v
  {
    hide IsWord, IsLiteralOrNumber, IsBody, IsPieces, Spaces;
    match v
    case Word(w) => WordsAreGenerated(w);
    case Quoted(body) => BodiesAreGenerated(body);
    case Empty(_, _) =>
    case Full(braced, items) => ItemsAreGenerated(braced, items);
  }

  lemma {:induction false} ItemsAreGenerated(braced: bool, items: Items)
    ensures GoodItems(braced, items) <==> WellFormedItems(braced, items)
    decreases items
  {
    hide IsBody, IsPieces, Spaces;
    var i := items.item;
    if i.name.Label? {
      BodiesAreGenerated(i.name.body);
    }
    ValuesAreGenerated(i.value);
    if items.More? {
      ItemsAreGenerated(braced, items.rest);
    }
    assert GoodItem(braced, i) <==> WellFormedItem(braced, i);
  }

  /** The scanners accept exactly what the grammar generates: a value is read from i to e if and only if its spelling stands there. */
  lemma AcceptedIffGenerated(s: Text, i: nat, v: Value, e: nat)
    requires i <= |s| && (v.Word? ==> Ends(s, e))
    ensures Parse(s, i) == Some(Parsed(v, e)) <==> WellFormed(v) && Between(s, i, Spelling(v), e)
  {
    hide Parse, Good, WellFormed, Spelling, Between;
    ValuesAreGenerated(v);
    if Parse(s, i) == Some(Parsed(v, e)) {
      ParseSound(s, i);
    }
    if WellFormed(v) && Between(s, i, Spelling(v), e) {
      BetweenStands(s, i, Spelling(v), e);
      WordText(v);
      ParseComplete(s, i, v);
    }
  }

  lemma BetweenStands(s: Text, i: nat, t: Text, e: nat)
    requires Between(s, i, t, e)
    ensures OccursAt(s, t, i) && e == i + |t|
  {
  }
}
