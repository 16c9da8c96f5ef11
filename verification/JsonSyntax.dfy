/**
 The grammar of a JSON value: Parse says of any text what the scanners accept,
 Spelling gives the text back, Compact is the value respelled without whitespace.
 */
module JsonSyntax {
  import opened Bytes
  import opened Json
  import opened Utf8
  import opened JsonText

  // ----- literals and numbers -----

  function DigitsEnd(s: Text, i: nat): (e: nat)
    requires i <= |s|
    ensures i <= e <= |s| && (forall k | i <= k < e :: IsDigit(s[k])) && (e < |s| ==> !IsDigit(s[e]))
    decreases |s| - i
  {
    if i < |s| && IsDigit(s[i]) then DigitsEnd(s, i + 1) else i
  }

  predicate DigitAt(s: Text, i: nat) {
    i < |s| && IsDigit(s[i])
  }

  predicate ExponentMarkAt(s: Text, i: nat) {
    i < |s| && (s[i] == 101 || s[i] == 69)
  }

  predicate PointAt(s: Text, i: nat) {
    i < |s| && s[i] == 46
  }

  predicate SignAt(s: Text, i: nat) {
    i < |s| && (s[i] == 43 || s[i] == 45)
  }

  predicate MinusAt(s: Text, i: nat) {
    i < |s| && s[i] == 45
  }

  /** After the exponent mark. */
  function ExponentEnd(s: Text, i: nat): (r: Option<nat>)
    requires i <= |s|
    ensures r.Some? ==> i < r.value <= |s|
  {
    var j := if SignAt(s, i) then i + 1 else i;
    if DigitAt(s, j) then Some(DigitsEnd(s, j)) else None
  }

  /** After the point. */
  function FractionEnd(s: Text, i: nat): (r: Option<nat>)
    requires i <= |s|
    ensures r.Some? ==> i < r.value <= |s|
  {
    if !DigitAt(s, i) then None
    else
      var d := DigitsEnd(s, i);
      if ExponentMarkAt(s, d) then ExponentEnd(s, d + 1) else Some(d)
  }

  /** A leading zero stands alone. */
  function IntegerEnd(s: Text, i: nat): (r: Option<nat>)
    requires i <= |s|
    ensures r.Some? ==> i < r.value <= |s|
  {
    var j := if MinusAt(s, i) then i + 1 else i;
    if !DigitAt(s, j) then None else if s[j] == 48 then Some(j + 1) else Some(DigitsEnd(s, j))
  }

  function NumberEnd(s: Text, i: nat): (r: Option<nat>)
    requires i <= |s|
    ensures r.Some? ==> i < r.value <= |s|
  {
    match IntegerEnd(s, i)
    case None => None
    case Some(d) =>
      if PointAt(s, d) then FractionEnd(s, d + 1) else if ExponentMarkAt(s, d) then ExponentEnd(s, d + 1) else Some(d)
  }

  predicate IsNumberByte(b: byte) {
    IsDigit(b) || b == 46 || b == 101 || b == 69
  }

  /** No byte of a number can follow. */
  predicate Ends(s: Text, e: nat) {
    e < |s| ==> !IsNumberByte(s[e])
  }

  lemma {:induction false} DigitsEndIs(s: Text, i: nat, e: nat)
    requires i <= e <= |s| && (forall k | i <= k < e :: IsDigit(s[k])) && !DigitAt(s, e)
    ensures DigitsEnd(s, i) == e
    decreases e - i
  {
    if i < e {
      DigitsEndIs(s, i + 1, e);
    }
  }

  lemma DigitsAreLocal(s: Text, i: nat, e: nat, t: Text, d: int)
    requires Agree(s, i, e, t, d) && DigitsEnd(s, i) <= e && Ends(t, e + d)
    ensures DigitsEnd(t, i + d) == DigitsEnd(s, i) + d
  {
    var n := DigitsEnd(s, i);
    forall k | i + d <= k < n + d ensures IsDigit(t[k]) {
      assert s[k - d] == t[k - d + d];
    }
    if n < e {
      assert s[n] == t[n + d];
    }
    DigitsEndIs(t, i + d, n + d);
  }

  lemma ExponentIsLocal(s: Text, i: nat, e: nat, t: Text, d: int)
    requires Agree(s, i, e, t, d) && ExponentEnd(s, i) == Some(e) && Ends(t, e + d)
    ensures ExponentEnd(t, i + d) == Some(e + d)
  {
    assert s[i] == t[i + d];
    var j := if SignAt(s, i) then i + 1 else i;
    assert s[j] == t[j + d];
    DigitsAreLocal(s, j, e, t, d);
  }

  lemma FractionIsLocal(s: Text, i: nat, e: nat, t: Text, d: int)
    requires Agree(s, i, e, t, d) && FractionEnd(s, i) == Some(e) && Ends(t, e + d)
    ensures FractionEnd(t, i + d) == Some(e + d)
  {
    hide DigitsEnd, ExponentEnd;
    assert s[i] == t[i + d];
    var f := DigitsEnd(s, i);
    DigitsAreLocal(s, i, e, t, d);
    if f < e {
      assert s[f] == t[f + d];
      ExponentIsLocal(s, f + 1, e, t, d);
    }
  }

  lemma IntegerIsLocal(s: Text, i: nat, e: nat, t: Text, d: int)
    requires Agree(s, i, e, t, d) && Ends(t, e + d) && IntegerEnd(s, i).Some? && IntegerEnd(s, i).value <= e
    ensures IntegerEnd(t, i + d) == Some(IntegerEnd(s, i).value + d)
  {
    hide DigitsEnd;
    assert s[i] == t[i + d];
    var j := if MinusAt(s, i) then i + 1 else i;
    assert s[j] == t[j + d];
    if s[j] != 48 {
      DigitsAreLocal(s, j, e, t, d);
    }
  }

  /** Where a number ends depends on its own bytes and on the byte that follows. */
  lemma NumberIsLocal(s: Text, i: nat, e: nat, t: Text, d: int)
    requires Agree(s, i, e, t, d) && NumberEnd(s, i) == Some(e) && Ends(t, e + d)
    ensures NumberEnd(t, i + d) == Some(e + d)
  {
    hide IntegerEnd, FractionEnd, ExponentEnd;
    var n := IntegerEnd(s, i).value;
    IntegerIsLocal(s, i, e, t, d);
    if n < e {
      assert s[n] == t[n + d];
      if PointAt(s, n) {
        FractionIsLocal(s, n + 1, e, t, d);
      } else {
        ExponentIsLocal(s, n + 1, e, t, d);
      }
    }
  }

  /** Where the literal or number that starts at i ends. */
  function WordEnd(s: Text, i: nat): (r: Option<nat>)
    requires i < |s|
    ensures r.Some? ==> i < r.value <= |s|
  {
    if s[i] == 116 then (if OccursAt(s, TRUE_TEXT, i) then Some(i + 4) else None)
    else if s[i] == 102 then (if OccursAt(s, FALSE_TEXT, i) then Some(i + 5) else None)
    else if s[i] == 110 then (if OccursAt(s, NULL_TEXT, i) then Some(i + 4) else None)
    else if IsNumberStart(s[i]) then NumberEnd(s, i)
    else None
  }

  predicate IsWord(w: Text) {
    w != [] && WordEnd(w, 0) == Some(|w|)
  }

  lemma WordIsLocal(s: Text, i: nat, e: nat, t: Text, d: int)
    requires i < |s| && Agree(s, i, e, t, d) && WordEnd(s, i) == Some(e) && Ends(t, e + d)
    ensures i + d < |t| && WordEnd(t, i + d) == Some(e + d)
  {
    hide NumberEnd;
    assert s[i] == t[i + d];
    if IsNumberStart(s[i]) {
      NumberIsLocal(s, i, e, t, d);
    } else {
      assert s[i..e] == t[i + d..e + d];
    }
  }

  // ----- values -----

  /** A value as it is spelled, whitespace included. */
  datatype Value =
    | Word(word: Text)
    | Quoted(body: Text)
    | Empty(braced: bool, gap: Text)
    | Full(braced: bool, items: Items)

  datatype Items = Last(item: Item) | More(item: Item, rest: Items)

  datatype Item = Item(before: Text, name: Label, value: Value, after: Text)

  datatype Label = NoLabel | Label(body: Text, gap: Text, pad: Text)

  function LabelText(l: Label): Text {
    match l
    case NoLabel => []
    case Label(body, gap, pad) => [QUOTE] + (body + [QUOTE]) + gap + [COLON] + pad
  }

  function Spelling(v: Value): Text {
    match v
    case Word(w) => w
    case Quoted(body) => [QUOTE] + (body + [QUOTE])
    case Empty(braced, gap) => [Open(braced)] + gap + [Close(braced)]
    case Full(braced, items) => [Open(braced)] + ItemsText(items) + [Close(braced)]
  }

  function ItemText(i: Item): Text {
    i.before + LabelText(i.name) + Spelling(i.value) + i.after
  }

  function ItemsText(items: Items): Text {
    match items
    case Last(i) => ItemText(i)
    case More(i, rest) => ItemText(i) + [COMMA] + ItemsText(rest)
  }

  predicate GoodLabel(braced: bool, l: Label) {
    match l
    case NoLabel => !braced
    case Label(body, gap, pad) => braced && IsBody(body) && Spaces(gap) && Spaces(pad)
  }

  /** The text of the value is well formed. */
  predicate Good(v: Value)
    decreases v
  {
    match v
    case Word(w) => IsWord(w)
    case Quoted(body) => IsBody(body)
    case Empty(_, gap) => Spaces(gap)
    case Full(braced, items) => GoodItems(braced, items)
  }

  predicate GoodItem(braced: bool, i: Item)
    decreases i
  {
    Spaces(i.before) && GoodLabel(braced, i.name) && Good(i.value) && Spaces(i.after)
  }

  predicate GoodItems(braced: bool, items: Items)
    decreases items
  {
    GoodItem(braced, items.item) && (items.More? ==> GoodItems(braced, items.rest))
  }

  // ----- what the scanners accept -----

  datatype Parsed<+T> = Parsed(tree: T, end: nat)

  function ByteAt(s: Text, i: nat): int {
    if i < |s| then s[i] as int else -1
  }

  /** A label from its opening quote to the start of the value. */
  function ParseLabel(s: Text, a: nat): (r: Option<Parsed<Label>>)
    requires a <= |s|
    ensures r.Some? ==> a < r.value.end <= |s|
  {
    if ByteAt(s, a) != QUOTE as int || StringEnd(s, a + 1).None? then None
    else
      var e := StringEnd(s, a + 1).value;
      var c := SkipSpace(s, e);
      if ByteAt(s, c) != COLON as int then None
      else
        var v := SkipSpace(s, c + 1);
        Some(Parsed(Label(s[a + 1..e - 1], s[e..c], s[c + 1..v]), v))
  }

  /** The value whose first byte stands at i. */
  function Parse(s: Text, i: nat): (r: Option<Parsed<Value>>)
    requires i <= |s|
    ensures r.Some? ==> i < r.value.end <= |s|
    decreases |s| - i, 0
  {
    if i == |s| then None
    else if s[i] == QUOTE then
      match StringEnd(s, i + 1)
      case None => None
      case Some(e) => Some(Parsed(Quoted(s[i + 1..e - 1]), e))
    else if s[i] == Open(true) || s[i] == Open(false) then
      var braced := s[i] == Open(true);
      var g := SkipSpace(s, i + 1);
      if ByteAt(s, g) == Close(braced) as int then Some(Parsed(Empty(braced, s[i + 1..g]), g + 1))
      else
        match ParseItems(s, i + 1, braced)
        case None => None
        case Some(p) => Some(Parsed(Full(braced, p.tree), p.end))
    else
      match WordEnd(s, i)
      case None => None
      case Some(e) => Some(Parsed(Word(s[i..e]), e))
  }

  /** The items from i on, up to and with the closing bracket. */
  function ParseItems(s: Text, i: nat, braced: bool): (r: Option<Parsed<Items>>)
    requires i <= |s|
    ensures r.Some? ==> i < r.value.end <= |s|
    decreases |s| - i, 2
  {
    match ParseItem(s, i, braced)
    case None => None
    case Some(p) =>
      if ByteAt(s, p.end) == Close(braced) as int then Some(Parsed(Last(p.tree), p.end + 1))
      else if ByteAt(s, p.end) == COMMA as int then
        match ParseItems(s, p.end + 1, braced)
        case None => None
        case Some(q) => Some(Parsed(More(p.tree, q.tree), q.end))
      else None
  }

  /** One item with the whitespace around it. */
  function ParseItem(s: Text, i: nat, braced: bool): (r: Option<Parsed<Item>>)
    requires i <= |s|
    ensures r.Some? ==> i < r.value.end <= |s|
    decreases |s| - i, 1
  {
    var a := SkipSpace(s, i);
    var l := if braced then ParseLabel(s, a) else Some(Parsed(NoLabel, a));
    if l.None? then None
    else
      match Parse(s, l.value.end)
      case None => None
      case Some(p) =>
        var f := SkipSpace(s, p.end);
        Some(Parsed(Item(s[i..a], l.value.tree, p.tree, s[p.end..f]), f))
  }

  /** The text between two positions is the one given. */
  predicate Between(s: Text, i: nat, t: Text, e: nat) {
    OccursAt(s, t, i) && e == i + |t|
  }

  lemma BetweenConcat(s: Text, i: nat, a: Text, m: nat, b: Text, e: nat)
    requires Between(s, i, a, m) && Between(s, m, b, e)
    ensures Between(s, i, a + b, e)
  {
    AtConcat(s, i, a, b);
  }

  lemma SliceBetween(s: Text, i: nat, e: nat)
    requires i <= e <= |s|
    ensures Between(s, i, s[i..e], e)
  {
  }

  lemma ByteBetween(s: Text, i: nat, b: byte)
    requires i < |s| && s[i] == b
    ensures Between(s, i, [b], i + 1)
  {
  }

  lemma QuotedBetween(s: Text, i: nat)
    requires i < |s| && s[i] == QUOTE && StringEnd(s, i + 1).Some?
    ensures var e := StringEnd(s, i + 1).value; var body := s[i + 1..e - 1];
      IsBody(body) && Between(s, i, [QUOTE] + (body + [QUOTE]), e)
  {
    hide StringEnd, IsBody, CharsAt, BodyRunes, OccursAt, Between;
    var e := StringEnd(s, i + 1).value;
    BodyFound(s, i + 1);
    ByteBetween(s, i, QUOTE);
    BetweenIs(s, i + 1, s[i + 1..e - 1] + [QUOTE], e);
    BetweenConcat(s, i, [QUOTE], i + 1, s[i + 1..e - 1] + [QUOTE], e);
  }

  lemma LabelSound(s: Text, a: nat)
    requires a <= |s| && ParseLabel(s, a).Some?
    ensures var p := ParseLabel(s, a).value; GoodLabel(true, p.tree) && Between(s, a, LabelText(p.tree), p.end)
  {
    hide StringEnd, IsBody, SkipSpace, Between;
    var p := ParseLabel(s, a).value;
    var e := StringEnd(s, a + 1).value;
    var c := SkipSpace(s, e);
    QuotedBetween(s, a);
    SliceBetween(s, e, c);
    ByteBetween(s, c, COLON);
    SliceBetween(s, c + 1, p.end);
    var l := p.tree;
    var quoted := [QUOTE] + (l.body + [QUOTE]);
    BetweenConcat(s, a, quoted, e, l.gap, c);
    BetweenConcat(s, a, quoted + l.gap, c, [COLON], c + 1);
    BetweenConcat(s, a, quoted + l.gap + [COLON], c + 1, l.pad, p.end);
  }

  lemma WordSound(s: Text, i: nat)
    requires i < |s| && WordEnd(s, i).Some?
    ensures IsWord(s[i..WordEnd(s, i).value])
  {
    hide WordEnd;
    var e := WordEnd(s, i).value;
    var w := s[i..e];
    assert w[0..0 + |w|] == w;
    WordIsLocal(s, i, e, w, 0 - i);
  }

  lemma BracketedBetween(s: Text, i: nat, braced: bool, inner: Text, e: nat)
    requires i < |s| && s[i] == Open(braced) && Between(s, i + 1, inner, e) && e < |s| && s[e] == Close(braced)
    ensures Between(s, i, [Open(braced)] + inner + [Close(braced)], e + 1)
  {
    BetweenConcat(s, i, [Open(braced)], i + 1, inner, e);
    BetweenConcat(s, i, [Open(braced)] + inner, e, [Close(braced)], e + 1);
  }

  /** What is accepted is well formed, and is spelled by the bytes consumed. */
  lemma {:induction false} ParseSound(s: Text, i: nat)
    requires i <= |s| && Parse(s, i).Some?
    ensures var p := Parse(s, i).value; Good(p.tree) && Between(s, i, Spelling(p.tree), p.end)
    decreases |s| - i, 0
  {
    hide StringEnd, IsBody, IsWord, WordEnd, SkipSpace, Between, ParseItems, OccursAt, Open, Close, ItemsText, GoodItems;
    var v, e := Parse(s, i).value.tree, Parse(s, i).value.end;
    match v
    case Word(w) =>
      WordSound(s, i);
      SliceBetween(s, i, e);
    case Quoted(body) =>
      QuotedBetween(s, i);
    case Empty(braced, gap) =>
      SliceBetween(s, i + 1, e - 1);
      BracketedBetween(s, i, braced, gap, e - 1);
    case Full(braced, items) =>
      ItemsSound(s, i + 1, braced);
      BracketedBetween(s, i, braced, ItemsText(items), e - 1);
  }

  lemma {:induction false} ItemsSound(s: Text, i: nat, braced: bool)
    requires i <= |s| && ParseItems(s, i, braced).Some?
    ensures var p := ParseItems(s, i, braced).value;
      GoodItems(braced, p.tree) && Between(s, i, ItemsText(p.tree), p.end - 1) && s[p.end - 1] == Close(braced)
    decreases |s| - i, 2
  {
    hide ParseItem, GoodItem, Between, ItemText;
    ItemSound(s, i, braced);
    var p := ParseItem(s, i, braced).value;
    if ByteAt(s, p.end) != Close(braced) as int {
      ItemsSound(s, p.end + 1, braced);
      var q := ParseItems(s, p.end + 1, braced).value;
      ByteBetween(s, p.end, COMMA);
      BetweenConcat(s, i, ItemText(p.tree), p.end, [COMMA], p.end + 1);
      BetweenConcat(s, i, ItemText(p.tree) + [COMMA], p.end + 1, ItemsText(q.tree), q.end - 1);
    }
  }

  lemma {:induction false} ItemSound(s: Text, i: nat, braced: bool)
    requires i <= |s| && ParseItem(s, i, braced).Some?
    ensures var p := ParseItem(s, i, braced).value; GoodItem(braced, p.tree) && Between(s, i, ItemText(p.tree), p.end)
    decreases |s| - i, 1
  {
    hide Parse, ParseLabel, LabelText, Spelling, Good, Between, SkipSpace;
    var p := ParseItem(s, i, braced).value;
    var a := SkipSpace(s, i);
    var l := if braced then ParseLabel(s, a) else Some(Parsed(NoLabel, a));
    var v := l.value.end;
    var t := p.tree;
    if braced {
      LabelSound(s, a);
    } else {
      NoLabelBetween(s, a);
    }
    var e := Parse(s, v).value.end;
    ParseSound(s, v);
    SliceBetween(s, i, a);
    SliceBetween(s, e, p.end);
    BetweenConcat(s, i, t.before, a, LabelText(t.name), v);
    BetweenConcat(s, i, t.before + LabelText(t.name), v, Spelling(t.value), e);
    BetweenConcat(s, i, t.before + LabelText(t.name) + Spelling(t.value), e, t.after, p.end);
  }

  lemma NoLabelBetween(s: Text, a: nat)
    requires a <= |s|
    ensures Between(s, a, LabelText(NoLabel), a)
  {
  }

  // ----- everything well formed is accepted -----

  predicate StartsValue(b: byte) {
    b == QUOTE || b == Open(true) || b == Open(false) || b == 116 || b == 102 || b == 110 || IsNumberStart(b)
  }

  lemma SpellingStarts(v: Value)
    requires Good(v)
    ensures Spelling(v) != [] && StartsValue(Spelling(v)[0])
    ensures v.Word? ==> Spelling(v)[0] != QUOTE && Spelling(v)[0] != Open(true) && Spelling(v)[0] != Open(false)
  {
  }

  /** What follows a value in its container, whitespace first. */
  predicate Follows(s: Text, i: nat) {
    i < |s| && (s[i] == COMMA || s[i] == Close(true) || s[i] == Close(false))
  }

  lemma FirstByte(s: Text, i: nat, t: Text)
    requires t != [] && OccursAt(s, t, i)
    ensures i < |s| && s[i] == t[0]
  {
    assert s[i] == s[i..i + |t|][0];
  }

  lemma QuotedComplete(s: Text, i: nat, body: Text)
    requires IsBody(body) && OccursAt(s, [QUOTE] + (body + [QUOTE]), i)
    ensures i < |s| && s[i] == QUOTE && StringEnd(s, i + 1) == Some(i + |body| + 2) && s[i + 1..i + 1 + |body|] == body
  {
    hide StringEnd, IsBody;
    FirstByte(s, i, [QUOTE] + (body + [QUOTE]));
    AtConcat(s, i, [QUOTE], body + [QUOTE]);
    AtConcat(s, i + 1, body, [QUOTE]);
    BodyStands(s, i + 1, body);
  }

  lemma LabelComplete(s: Text, a: nat, l: Label, v: nat)
    requires GoodLabel(true, l) && Between(s, a, LabelText(l), v) && v < |s| && StartsValue(s[v])
    ensures ParseLabel(s, a) == Some(Parsed(l, v))
  {
    hide IsBody, StringEnd, SkipSpace, OccursAt;
    var quoted := [QUOTE] + (l.body + [QUOTE]);
    AtConcat(s, a, quoted + l.gap + [COLON], l.pad);
    AtConcat(s, a, quoted + l.gap, [COLON]);
    AtConcat(s, a, quoted, l.gap);
    QuotedComplete(s, a, l.body);
    var e := a + |quoted|;
    var c := e + |l.gap|;
    FirstByte(s, c, [COLON]);
    SkipSpaceAt(s, e, l.gap);
    SkipSpaceAt(s, c + 1, l.pad);
    WordSlice(s, e, l.gap);
    WordSlice(s, c + 1, l.pad);
  }

  lemma BracketParts(s: Text, i: nat, braced: bool, inner: Text)
    requires OccursAt(s, [Open(braced)] + inner + [Close(braced)], i)
    ensures i + |inner| + 2 <= |s| && s[i] == Open(braced) && OccursAt(s, inner, i + 1) && s[i + 1 + |inner|] == Close(braced)
  {
    AtConcat(s, i, [Open(braced)] + inner, [Close(braced)]);
    AtConcat(s, i, [Open(braced)], inner);
    FirstByte(s, i, [Open(braced)]);
    FirstByte(s, i + 1 + |inner|, [Close(braced)]);
  }

  lemma WordComplete(s: Text, i: nat, w: Text)
    requires IsWord(w) && OccursAt(s, w, i) && Ends(s, i + |w|)
    ensures i < |s| && s[i] == w[0] && WordEnd(s, i) == Some(i + |w|)
  {
    hide WordEnd;
    FirstByte(s, i, w);
    AtAgrees(s, i, w);
    WordIsLocal(w, 0, |w|, s, i);
  }

  /** Every spelling of a well-formed value is accepted whole, and as that value: the grammar is unambiguous. */
  lemma {:induction false} ParseComplete(s: Text, i: nat, v: Value)
    requires Good(v) && OccursAt(s, Spelling(v), i)
    requires v.Word? ==> Ends(s, i + |v.word|)
    ensures Parse(s, i) == Some(Parsed(v, i + |Spelling(v)|))
    decreases v
  {
    hide StringEnd, IsBody, IsWord, WordEnd, SkipSpace, OccursAt, ParseItems, Ends, ItemsText, GoodItems;
    match v
    case Word(w) =>
      SpellingStarts(v);
      WordComplete(s, i, w);
      WordSlice(s, i, w);
    case Quoted(body) =>
      QuotedComplete(s, i, body);
    case Empty(braced, gap) =>
      EmptyComplete(s, i, braced, gap);
    case Full(braced, items) =>
      BracketParts(s, i, braced, ItemsText(items));
      ItemsComplete(s, i + 1, braced, items);
      NotEmpty(s, i + 1, braced, items);
      FullComplete(s, i, braced);
  }

  lemma EmptyComplete(s: Text, i: nat, braced: bool, gap: Text)
    requires Spaces(gap) && OccursAt(s, [Open(braced)] + gap + [Close(braced)], i)
    ensures Parse(s, i) == Some(Parsed(Empty(braced, gap), i + |gap| + 2))
  {
    hide OccursAt, SkipSpace, ParseItems, StringEnd, WordEnd;
    BracketParts(s, i, braced, gap);
    SkipSpaceAt(s, i + 1, gap);
    WordSlice(s, i + 1, gap);
  }

  lemma FullComplete(s: Text, i: nat, braced: bool)
    requires i < |s| && s[i] == Open(braced) && ByteAt(s, SkipSpace(s, i + 1)) != Close(braced) as int
    requires ParseItems(s, i + 1, braced).Some?
    ensures var p := ParseItems(s, i + 1, braced).value; Parse(s, i) == Some(Parsed(Full(braced, p.tree), p.end))
  {
    hide SkipSpace, ParseItems, StringEnd, WordEnd;
  }

  lemma WordSlice(s: Text, i: nat, w: Text)
    requires OccursAt(s, w, i)
    ensures i + |w| <= |s| && s[i..i + |w|] == w
  {
  }

  lemma ItemParts(s: Text, i: nat, t: Item)
    requires OccursAt(s, ItemText(t), i)
    ensures OccursAt(s, t.before, i)
    ensures OccursAt(s, LabelText(t.name), i + |t.before|)
    ensures OccursAt(s, Spelling(t.value), i + |t.before| + |LabelText(t.name)|)
    ensures OccursAt(s, t.after, i + |t.before| + |LabelText(t.name)| + |Spelling(t.value)|)
    ensures |ItemText(t)| == |t.before| + |LabelText(t.name)| + |Spelling(t.value)| + |t.after|
  {
    hide LabelText, Spelling, OccursAt;
    AtConcat(s, i, t.before + LabelText(t.name) + Spelling(t.value), t.after);
    AtConcat(s, i, t.before + LabelText(t.name), Spelling(t.value));
    AtConcat(s, i, t.before, LabelText(t.name));
  }

  lemma LabelStarts(braced: bool, l: Label)
    requires GoodLabel(braced, l)
    ensures if braced then LabelText(l) != [] && LabelText(l)[0] == QUOTE else l == NoLabel && LabelText(l) == []
  {
  }

  /** Where an item starts, whitespace skipped, stands neither whitespace nor a closing bracket. */
  lemma ItemStarts(s: Text, i: nat, braced: bool, t: Item)
    requires GoodItem(braced, t) && OccursAt(s, ItemText(t), i)
    ensures SkipSpace(s, i) == i + |t.before| && i + |t.before| < |s| && StartsValue(s[i + |t.before|])
  {
    hide LabelText, Spelling, OccursAt, Good, GoodLabel, SkipSpace;
    ItemParts(s, i, t);
    SpellingStarts(t.value);
    LabelStarts(braced, t.name);
    var a := i + |t.before|;
    FirstByte(s, a + |LabelText(t.name)|, Spelling(t.value));
    if braced {
      FirstByte(s, a, LabelText(t.name));
    }
    SkipSpaceAt(s, i, t.before);
  }

  lemma ItemsParts(s: Text, i: nat, t: Item, rest: Items)
    requires OccursAt(s, ItemsText(More(t, rest)), i)
    ensures OccursAt(s, ItemText(t), i) && i + |ItemText(t)| < |s| && s[i + |ItemText(t)|] == COMMA
    ensures OccursAt(s, ItemsText(rest), i + |ItemText(t)| + 1)
    ensures |ItemsText(More(t, rest))| == |ItemText(t)| + 1 + |ItemsText(rest)|
  {
    hide ItemText, OccursAt;
    AtConcat(s, i, ItemText(t) + [COMMA], ItemsText(rest));
    AtConcat(s, i, ItemText(t), [COMMA]);
    FirstByte(s, i + |ItemText(t)|, [COMMA]);
  }

  lemma NotEmpty(s: Text, i: nat, braced: bool, items: Items)
    requires GoodItems(braced, items) && OccursAt(s, ItemsText(items), i)
    ensures i <= |s| && ByteAt(s, SkipSpace(s, i)) != Close(braced) as int
  {
    if items.More? {
      ItemsParts(s, i, items.item, items.rest);
    }
    ItemStarts(s, i, braced, items.item);
  }

  lemma {:induction false} ItemsComplete(s: Text, i: nat, braced: bool, items: Items)
    requires GoodItems(braced, items) && OccursAt(s, ItemsText(items), i)
    requires ByteAt(s, i + |ItemsText(items)|) == Close(braced) as int
    ensures ParseItems(s, i, braced) == Some(Parsed(items, i + |ItemsText(items)| + 1))
    decreases items
  {
    hide GoodItem, ItemText, OccursAt, ParseItem;
    match items
    case Last(t) =>
      ItemComplete(s, i, braced, t);
    case More(t, rest) =>
      ItemsParts(s, i, t, rest);
      ItemComplete(s, i, braced, t);
      ItemsComplete(s, i + |ItemText(t)| + 1, braced, rest);
  }

  lemma {:induction false} ItemComplete(s: Text, i: nat, braced: bool, t: Item)
    requires GoodItem(braced, t) && OccursAt(s, ItemText(t), i) && Follows(s, i + |ItemText(t)|)
    ensures ParseItem(s, i, braced) == Some(Parsed(t, i + |ItemText(t)|))
    decreases t
  {
    hide LabelText, Spelling, OccursAt, Good, GoodLabel, SkipSpace, ParseLabel, Parse, ItemText;
    ItemParts(s, i, t);
    ItemStarts(s, i, braced, t);
    SpellingStarts(t.value);
    LabelStarts(braced, t.name);
    var a := i + |t.before|;
    var v := a + |LabelText(t.name)|;
    var e := v + |Spelling(t.value)|;
    FirstByte(s, v, Spelling(t.value));
    if braced {
      BetweenIs(s, a, LabelText(t.name), v);
      LabelComplete(s, a, t.name, v);
    }
    if t.after != [] {
      FirstByte(s, e, t.after);
    }
    WordText(t.value);
    ParseComplete(s, v, t.value);
    SkipSpaceAt(s, e, t.after);
    WordSlice(s, i, t.before);
    WordSlice(s, e, t.after);
    assert SkipSpace(s, i) == a && Parse(s, v) == Some(Parsed(t.value, e));
  }

  lemma BetweenIs(s: Text, i: nat, t: Text, e: nat)
    requires OccursAt(s, t, i) && e == i + |t|
    ensures Between(s, i, t, e)
  {
  }

  lemma WordText(v: Value)
    ensures v.Word? ==> Spelling(v) == v.word
  {
  }
}
