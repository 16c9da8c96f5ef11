/**
 The compact form of a JSON text: whitespace dropped, keys kept as spelled or
 spelled anew. It denotes the same tree, is itself well formed, and is its own compact form.
 */
module Compaction {
  import opened Bytes
  import opened Json
  import opened Utf8
  import opened JsonText
  import opened JsonSyntax

  /** What a value denotes, strings decoded and members in order. */
  datatype Tree = Atom(word: Text) | Characters(runes: seq<Rune>) | Group(braced: bool, entries: seq<Entry>)

  datatype Entry = Entry(name: seq<Rune>, tree: Tree)

  function Meaning(v: Value): Tree
    requires Good(v)
    decreases v
  {
    match v
    case Word(w) => Atom(w)
    case Quoted(body) => Characters(BodyRunes(body))
    case Empty(braced, _) => Group(braced, [])
    case Full(braced, items) => Group(braced, Entries(braced, items))
  }

  function NameOf(braced: bool, l: Label): seq<Rune>
    requires GoodLabel(braced, l)
  {
    if braced then BodyRunes(l.body) else []
  }

  function Entries(braced: bool, items: Items): seq<Entry>
    requires GoodItems(braced, items)
    decreases items
  {
    assert GoodItem(braced, items.item);
    var first := [Entry(NameOf(braced, items.item.name), Meaning(items.item.value))];
    if items.Last? then first else first + Entries(braced, items.rest)
  }

  function CompactLabel(braced: bool, l: Label, rekey: bool): (r: Label)
    requires GoodLabel(braced, l)
    ensures GoodLabel(braced, r) && NameOf(braced, r) == NameOf(braced, l)
  {
    if !braced then NoLabel
    else
      EscapedIsBody(BodyRunes(l.body));
      Label(if rekey then Escaped(BodyRunes(l.body)) else l.body, [], [])
  }

  /** The value without whitespace; rekey spells the keys anew. */
  function Compact(v: Value, rekey: bool): (r: Value)
    requires Good(v)
    ensures Good(r)
    decreases v
  {
    match v
    case Word(_) => v
    case Quoted(_) => v
    case Empty(braced, _) => Empty(braced, [])
    case Full(braced, items) => Full(braced, CompactItems(braced, items, rekey))
  }

  function CompactItem(braced: bool, i: Item, rekey: bool): (r: Item)
    requires GoodItem(braced, i)
    ensures GoodItem(braced, r)
    decreases i
  {
    Item([], CompactLabel(braced, i.name, rekey), Compact(i.value, rekey), [])
  }

  function CompactItems(braced: bool, items: Items, rekey: bool): (r: Items)
    requires GoodItems(braced, items)
    ensures GoodItems(braced, r)
    decreases items
  {
    match items
    case Last(i) => Last(CompactItem(braced, i, rekey))
    case More(i, rest) => More(CompactItem(braced, i, rekey), CompactItems(braced, rest, rekey))
  }

  /** Compaction keeps the meaning. */
  lemma {:induction false} CompactMeansTheSame(v: Value, rekey: bool)
    requires Good(v)
    ensures Meaning(Compact(v, rekey)) == Meaning(v)
    decreases v
  {
    if v.Full? {
      ItemsMeanTheSame(v.braced, v.items, rekey);
    }
  }

  lemma {:induction false} ItemsMeanTheSame(braced: bool, items: Items, rekey: bool)
    requires GoodItems(braced, items)
    ensures Entries(braced, CompactItems(braced, items, rekey)) == Entries(braced, items)
    decreases items
  {
    CompactMeansTheSame(items.item.value, rekey);
    if items.More? {
      ItemsMeanTheSame(braced, items.rest, rekey);
    }
  }

  lemma LabelTwice(braced: bool, l: Label, rekey: bool)
    requires GoodLabel(braced, l)
    ensures CompactLabel(braced, CompactLabel(braced, l, rekey), rekey) == CompactLabel(braced, l, rekey)
  {
    if braced {
      EscapedIsBody(BodyRunes(l.body));
    }
  }

  /** Compacting twice is compacting once. */
  lemma {:induction false} CompactTwice(v: Value, rekey: bool)
    requires Good(v)
    ensures Compact(Compact(v, rekey), rekey) == Compact(v, rekey)
    decreases v
  {
    if v.Full? {
      ItemsTwice(v.braced, v.items, rekey);
    }
  }

  lemma {:induction false} ItemsTwice(braced: bool, items: Items, rekey: bool)
    requires GoodItems(braced, items)
    ensures CompactItems(braced, CompactItems(braced, items, rekey), rekey) == CompactItems(braced, items, rekey)
    decreases items
  {
    LabelTwice(braced, items.item.name, rekey);
    CompactTwice(items.item.value, rekey);
    if items.More? {
      ItemsTwice(braced, items.rest, rekey);
    }
  }

  // ----- what compaction drops -----

  /** How much whitespace there is between the tokens of a value. */
  function Padding(v: Value): nat {
    match v
    case Word(_) => 0
    case Quoted(_) => 0
    case Empty(_, gap) => |gap|
    case Full(_, items) => PaddingOfItems(items)
  }

  function PaddingOfLabel(l: Label): nat {
    if l.NoLabel? then 0 else |l.gap| + |l.pad|
  }

  function PaddingOfItems(items: Items): nat
    decreases items
  {
    var i := items.item;
    |i.before| + PaddingOfLabel(i.name) + Padding(i.value) + |i.after| + (if items.Last? then 0 else PaddingOfItems(items.rest))
  }

  /** Nothing is left between the tokens, and with keys as spelled nothing else is dropped: what is shorter is the whitespace. */
  lemma {:induction false} CompactDropsPadding(v: Value)
    requires Good(v)
    ensures Padding(Compact(v, true)) == Padding(Compact(v, false)) == 0
    ensures |Spelling(Compact(v, false))| + Padding(v) == |Spelling(v)|
    decreases v
  {
    if v.Full? {
      ItemsDropPadding(v.braced, v.items);
    }
  }

  lemma {:induction false} ItemsDropPadding(braced: bool, items: Items)
    requires GoodItems(braced, items)
    ensures PaddingOfItems(CompactItems(braced, items, true)) == PaddingOfItems(CompactItems(braced, items, false)) == 0
    ensures |ItemsText(CompactItems(braced, items, false))| + PaddingOfItems(items) == |ItemsText(items)|
    decreases items
  {
    hide IsBody, BodyRunes;
    assert GoodItem(braced, items.item);
    CompactDropsPadding(items.item.value);
    if items.More? {
      ItemsDropPadding(braced, items.rest);
    }
  }

  /** Every key is spelled as the encoder spells it. */
  predicate KeysRespelled(v: Value)
    requires Good(v)
    decreases v
  {
    v.Full? ==> ItemKeysRespelled(v.braced, v.items)
  }

  predicate ItemKeysRespelled(braced: bool, items: Items)
    requires GoodItems(braced, items)
    decreases items
  {
    assert GoodItem(braced, items.item);
    && (braced ==> items.item.name.body == Escaped(BodyRunes(items.item.name.body)))
    && KeysRespelled(items.item.value)
    && (items.More? ==> ItemKeysRespelled(braced, items.rest))
  }

  /** A text without whitespace between its tokens, and with its keys spelled so if they are respelled, is its own compact form. */
  lemma {:induction false} UnpaddedStays(v: Value, rekey: bool)
    requires Good(v) && Padding(v) == 0 && (rekey ==> KeysRespelled(v))
    ensures Compact(v, rekey) == v
    decreases v
  {
    if v.Full? {
      UnpaddedItemsStay(v.braced, v.items, rekey);
    }
  }

  lemma {:induction false} UnpaddedItemsStay(braced: bool, items: Items, rekey: bool)
    requires GoodItems(braced, items) && PaddingOfItems(items) == 0 && (rekey ==> ItemKeysRespelled(braced, items))
    ensures CompactItems(braced, items, rekey) == items
    decreases items
  {
    hide IsBody, BodyRunes, Escaped;
    assert GoodItem(braced, items.item);
    UnpaddedStays(items.item.value, rekey);
    if items.More? {
      UnpaddedItemsStay(braced, items.rest, rekey);
    }
  }

  // ----- the compact text of what a text holds -----

  /** The compact text of the value that starts at i, and where that value ends. */
  function Respelled(s: Text, i: nat, rekey: bool): (r: Option<Parsed<Text>>)
    requires i <= |s|
    ensures r.Some? ==> i < r.value.end <= |s|
  {
    match Parse(s, i)
    case None => None
    case Some(p) =>
      ParseSound(s, i);
      Some(Parsed(Spelling(Compact(p.tree, rekey)), p.end))
  }

  /** The same for the items up to the closing bracket; the bracket is passed and not part of the text. */
  function RespelledItems(s: Text, i: nat, braced: bool, rekey: bool): (r: Option<Parsed<Text>>)
    requires i <= |s|
    ensures r.Some? ==> i < r.value.end <= |s|
  {
    match ParseItems(s, i, braced)
    case None => None
    case Some(p) =>
      ItemsSound(s, i, braced);
      Some(Parsed(ItemsText(CompactItems(braced, p.tree, rekey)), p.end))
  }

  function RespelledLabel(s: Text, a: nat, braced: bool, rekey: bool): (r: Option<Parsed<Text>>)
    requires a <= |s|
    ensures r.Some? ==> a <= r.value.end <= |s|
  {
    if !braced then Some(Parsed([], a))
    else
      match ParseLabel(s, a)
      case None => None
      case Some(p) =>
        LabelSound(s, a);
        Some(Parsed(LabelText(CompactLabel(true, p.tree, rekey)), p.end))
  }

  /** A text begun and the rest of it. */
  function After(prefix: Text, r: Option<Parsed<Text>>): Option<Parsed<Text>> {
    match r
    case None => None
    case Some(p) => Some(Parsed(prefix + p.tree, p.end))
  }

  lemma AfterTwice(a: Text, b: Text, r: Option<Parsed<Text>>)
    ensures After(a, After(b, r)) == After(a + b, r)
  {
    if r.Some? {
      assert a + (b + r.value.tree) == a + b + r.value.tree;
    }
  }

  /** One item: its label, its value and the whitespace after it. */
  function RespelledItem(s: Text, i: nat, braced: bool, rekey: bool): (r: Option<Parsed<Text>>)
    requires i <= |s|
    ensures r.Some? ==> i < r.value.end <= |s|
  {
    var l := RespelledLabel(s, SkipSpace(s, i), braced, rekey);
    if l.None? then None
    else
      match Respelled(s, l.value.end, rekey)
      case None => None
      case Some(p) => Some(Parsed(l.value.tree + p.tree, SkipSpace(s, p.end)))
  }

  lemma ItemRespells(s: Text, i: nat, braced: bool, rekey: bool)
    requires i <= |s|
    ensures ParseItem(s, i, braced).None? <==> RespelledItem(s, i, braced, rekey).None?
    ensures ParseItem(s, i, braced).Some? ==>
      var p := ParseItem(s, i, braced).value;
      GoodItem(braced, p.tree) &&
      RespelledItem(s, i, braced, rekey) == Some(Parsed(ItemText(CompactItem(braced, p.tree, rekey)), p.end))
  {
    hide Parse, ParseLabel, Spelling, LabelText, Compact, CompactLabel, SkipSpace;
    if ParseItem(s, i, braced).Some? {
      ItemSound(s, i, braced);
      var p := ParseItem(s, i, braced).value;
      CompactItemText(braced, p.tree, rekey);
      PlainLabelText(p.tree.name, rekey);
    }
  }

  /** How the items of a container respell, one at a time. */
  lemma ItemsRespell(s: Text, i: nat, braced: bool, rekey: bool)
    requires i <= |s|
    ensures RespelledItems(s, i, braced, rekey) ==
      match RespelledItem(s, i, braced, rekey)
      case None => None
      case Some(p) =>
        if ByteAt(s, p.end) == Close(braced) as int then Some(Parsed(p.tree, p.end + 1))
        else if ByteAt(s, p.end) == COMMA as int then After(p.tree + [COMMA], RespelledItems(s, p.end + 1, braced, rekey))
        else None
  {
    hide ParseItem, RespelledItem, CompactItem, ItemText, GoodItem;
    ItemRespells(s, i, braced, rekey);
  }

  lemma PlainLabelText(l: Label, rekey: bool)
    ensures GoodLabel(false, l) ==> LabelText(CompactLabel(false, l, rekey)) == []
  {
  }

  lemma CompactItemText(braced: bool, t: Item, rekey: bool)
    requires GoodItem(braced, t)
    ensures ItemText(CompactItem(braced, t, rekey)) ==
      LabelText(CompactLabel(braced, t.name, rekey)) + Spelling(Compact(t.value, rekey))
  {
  }

  /** What follows the opening bracket of a container. */
  function RespelledRest(s: Text, i: nat, braced: bool, rekey: bool): (r: Option<Parsed<Text>>)
    requires i <= |s|
    ensures r.Some? ==> i < r.value.end <= |s|
  {
    if ByteAt(s, SkipSpace(s, i)) == Close(braced) as int then Some(Parsed([Close(braced)], SkipSpace(s, i) + 1))
    else
      match RespelledItems(s, i, braced, rekey)
      case None => None
      case Some(q) => Some(Parsed(q.tree + [Close(braced)], q.end))
  }

  lemma ContainerRespells(s: Text, i: nat, braced: bool, rekey: bool)
    requires i < |s| && s[i] == Open(braced)
    ensures Respelled(s, i, rekey) == After([Open(braced)], RespelledRest(s, i + 1, braced, rekey))
  {
    hide ParseItems, SkipSpace, ItemsText, StringEnd, WordEnd, Spelling, CompactItems;
    if Parse(s, i).Some? {
      ParseSound(s, i);
      CompactContainerText(Parse(s, i).value.tree, rekey);
    }
  }

  lemma CompactContainerText(v: Value, rekey: bool)
    requires Good(v) && (v.Empty? || v.Full?)
    ensures Spelling(Compact(v, rekey)) == [Open(v.braced)] +
      (if v.Empty? then [Close(v.braced)] else ItemsText(CompactItems(v.braced, v.items, rekey)) + [Close(v.braced)])
  {
    hide ItemsText, CompactItems;
  }

  lemma StringRespells(s: Text, i: nat, rekey: bool)
    requires i < |s| && s[i] == QUOTE
    ensures Respelled(s, i, rekey) ==
      match StringEnd(s, i + 1)
      case None => None
      case Some(e) => Some(Parsed(s[i..e], e))
  {
    hide StringEnd, IsBody, ParseItems, SkipSpace, WordEnd;
    if StringEnd(s, i + 1).Some? {
      var e := StringEnd(s, i + 1).value;
      assert s[i..e] == [QUOTE] + (s[i + 1..e - 1] + [QUOTE]);
    }
  }

  lemma WordRespells(s: Text, i: nat, rekey: bool)
    requires i < |s| && s[i] != QUOTE && s[i] != Open(true) && s[i] != Open(false)
    ensures Respelled(s, i, rekey) ==
      match WordEnd(s, i)
      case None => None
      case Some(e) => Some(Parsed(s[i..e], e))
  {
    hide WordEnd, IsWord;
  }

  lemma CompactLabelText(l: Label, rekey: bool)
    requires GoodLabel(true, l)
    ensures var body := if rekey then Escaped(BodyRunes(l.body)) else l.body;
      LabelText(CompactLabel(true, l, rekey)) == [QUOTE] + (body + [QUOTE]) + [COLON]
  {
    hide Escaped, BodyRunes, IsBody;
  }

  /** How a label respells: as it stands, or its characters escaped anew. */
  lemma LabelRespells(s: Text, a: nat, rekey: bool)
    requires a < |s| && s[a] == QUOTE
    ensures RespelledLabel(s, a, true, rekey) ==
      match StringEnd(s, a + 1)
      case None => None
      case Some(e) =>
        var c := SkipSpace(s, e);
        if ByteAt(s, c) != COLON as int || CharsAt(s, a + 1).None? then None
        else
          var body := if rekey then Escaped(CharsAt(s, a + 1).value.runes) else s[a + 1..e - 1];
          Some(Parsed([QUOTE] + (body + [QUOTE]) + [COLON], SkipSpace(s, c + 1)))
  {
    hide StringEnd, CharsAt, SkipSpace, IsBody, BodyRunes, Escaped, LabelText, CompactLabel, Between;
    if StringEnd(s, a + 1).Some? {
      BodyFound(s, a + 1);
      if ParseLabel(s, a).Some? {
        LabelSound(s, a);
        CompactLabelText(ParseLabel(s, a).value.tree, rekey);
      }
    }
  }

  /** One item written after what came before: the next one, the end, or a malformed container. */
  lemma ItemDone(s: Text, i: nat, braced: bool, rekey: bool, before: Text)
    requires i <= |s|
    ensures After(before, RespelledItems(s, i, braced, rekey)) ==
      match RespelledItem(s, i, braced, rekey)
      case None => None
      case Some(p) =>
        if ByteAt(s, p.end) == Close(braced) as int then Some(Parsed(before + p.tree, p.end + 1))
        else if ByteAt(s, p.end) == COMMA as int then After(before + p.tree + [COMMA], RespelledItems(s, p.end + 1, braced, rekey))
        else None
  {
    hide RespelledItem, RespelledItems;
    ItemsRespell(s, i, braced, rekey);
    if RespelledItem(s, i, braced, rekey).Some? {
      var p := RespelledItem(s, i, braced, rekey).value;
      if ByteAt(s, p.end) == COMMA as int && ByteAt(s, p.end) != Close(braced) as int {
        AfterTwice(before, p.tree + [COMMA], RespelledItems(s, p.end + 1, braced, rekey));
        assert before + (p.tree + [COMMA]) == before + p.tree + [COMMA];
      }
    }
  }

  /** The compact text is well formed, is read as the compact value, denotes the same tree and stays as it is when compacted again. */
  lemma CompactTextIsFixed(s: Text, i: nat, rekey: bool)
    requires i <= |s| && Parse(s, i).Some?
    ensures Respelled(s, i, rekey).Some?
    ensures var t := Respelled(s, i, rekey).value.tree;
      Respelled(t, 0, rekey) == Some(Parsed(t, |t|)) &&
      Good(Parse(s, i).value.tree) && Parse(t, 0).Some? && Good(Parse(t, 0).value.tree) &&
      Meaning(Parse(t, 0).value.tree) == Meaning(Parse(s, i).value.tree)
  {
    hide Parse, Spelling, Compact, Meaning, Good;
    ParseSound(s, i);
    var v := Parse(s, i).value.tree;
    var c := Compact(v, rekey);
    var t := Spelling(c);
    assert t[0..0 + |t|] == t;
    WordText(c);
    ParseComplete(t, 0, c);
    CompactTwice(v, rekey);
    CompactMeansTheSame(v, rekey);
  }
}
