/**
 The two top-level fast scans on bytes: whatever they compare on the way, and however early
 they stop comparing, they consume exactly the object the general skipper consumes.
 */
module FastScans {
  import opened Bytes
  import opened Json
  import opened Utf8
  import opened JsonText
  import opened JsonSyntax
  import opened Compaction
  import opened Scanners

  /** What is left of a container depends on where its first item starts, not on the whitespace before. */
  lemma ItemsFromStart(s: Text, i: nat, braced: bool)
    requires i <= |s|
    ensures EndOf(ParseItems(s, SkipSpace(s, i), braced)) == EndOf(ParseItems(s, i, braced))
  {
    hide Parse, ParseLabel, ParseItems;
    var a := SkipSpace(s, i);
    assert SkipSpace(s, a) == a;
    ItemsEndStep(s, i, braced);
    ItemsEndStep(s, a, braced);
  }

  /** Compacting a value ends where parsing it ends. */
  lemma RespelledEnds(s: Text, i: nat, rekey: bool)
    requires i <= |s|
    ensures EndOf(Respelled(s, i, rekey)) == EndOf(Parse(s, i))
  {
    hide Parse;
  }

  lemma StringParses(s: Text, i: nat)
    requires i < |s| && s[i] == QUOTE
    ensures EndOf(Parse(s, i)) == StringEnd(s, i + 1)
  {
    hide StringEnd, ParseItems, SkipSpace, WordEnd;
  }

  lemma WordParses(s: Text, i: nat)
    requires i < |s| && s[i] != QUOTE && s[i] != Open(true) && s[i] != Open(false)
    ensures EndOf(Parse(s, i)) == WordEnd(s, i)
  {
    hide StringEnd, ParseItems, SkipSpace, WordEnd;
  }

  // ----- what the scans look for -----

  /** Strings without escapes are valid UTF-8: read raw or decoded they are the same text. */
  ghost predicate Legible(s: Text) {
    forall i: nat :: PlainString(s, i) ==> CharsAt(s, i).Some? && Encoded(CharsAt(s, i).value.runes) == s[i..StringEnd(s, i).value - 1]
  }

  predicate PlainString(s: Text, i: nat) {
    StringEnd(s, i).Some? && AllPlain(s[i..StringEnd(s, i).value - 1])
  }

  /** What a value is read as: the text of a string, a literal or number, or a container whose inside is not looked at. */
  datatype Reading = StringReading(text: Text) | WordReading(word: Text) | ContainerReading(braced: bool)

  /** A clause on one top-level key; one that does not read strings accepts all of them or none. */
  datatype FieldClause = FieldClause(key: Text, readsText: bool, accepts: Reading -> bool)

  ghost predicate ClauseOk(c: FieldClause) {
    !c.readsText ==> forall t, u :: c.accepts(StringReading(t)) == c.accepts(StringReading(u))
  }

  /** A single eq: the folded text; a null equals nothing, and containers neither. */
  datatype EqClause = EqClause(key: Text, needle: Text, fold: Text -> Text)

  predicate EqAccepts(c: EqClause, r: Reading) {
    match r
    case StringReading(t) => c.fold(t) == c.needle
    case WordReading(w) => w != NULL_TEXT && c.fold(w) == c.needle
    case ContainerReading(_) => false
  }

  function AsField(c: EqClause): FieldClause {
    FieldClause(c.key, true, (r: Reading) => EqAccepts(c, r))
  }

  function ReadingOf(v: Value): Reading
    requires Good(v)
  {
    match v
    case Word(w) => WordReading(w)
    case Quoted(body) => StringReading(Encoded(BodyRunes(body)))
    case Empty(braced, _) => ContainerReading(braced)
    case Full(braced, _) => ContainerReading(braced)
  }

  predicate ItemAccepted(c: FieldClause, i: Item)
    requires GoodItem(true, i)
  {
    Encoded(BodyRunes(i.name.body)) == c.key && c.accepts(ReadingOf(i.value))
  }

  predicate SomeAccepted(c: FieldClause, items: Items)
    requires GoodItems(true, items)
    decreases items
  {
    ItemAccepted(c, items.item) || (items.More? && SomeAccepted(c, items.rest))
  }

  /** Whether the clause accepts the value that starts at i, the item at i, or some item from i on. */
  predicate ValueAt(s: Text, i: nat, c: FieldClause)
    requires i <= |s|
  {
    Parse(s, i).Some? && (ParseSound(s, i); c.accepts(ReadingOf(Parse(s, i).value.tree)))
  }

  predicate ItemAt(s: Text, i: nat, c: FieldClause)
    requires i <= |s|
  {
    ParseItem(s, i, true).Some? && (ItemSound(s, i, true); ItemAccepted(c, ParseItem(s, i, true).value.tree))
  }

  predicate SomeAt(s: Text, i: nat, c: FieldClause)
    requires i <= |s|
  {
    ParseItems(s, i, true).Some? && (ItemsSound(s, i, true); SomeAccepted(c, ParseItems(s, i, true).value.tree))
  }

  /** Some member of the object whose bracket stands before i. */
  predicate MemberAt(s: Text, i: nat, c: FieldClause)
    requires i <= |s|
  {
    ByteAt(s, SkipSpace(s, i)) != Close(true) as int && SomeAt(s, i, c)
  }

  /** An object is closed at once, or is its items. */
  lemma RestIs(s: Text, i: nat, c: FieldClause)
    requires i <= |s|
    ensures if ByteAt(s, SkipSpace(s, i)) == Close(true) as int
      then RestEnd(s, i, true) == Some(SkipSpace(s, i) + 1) && !MemberAt(s, i, c)
      else RestEnd(s, i, true) == EndOf(ParseItems(s, i, true)) && (MemberAt(s, i, c) <==> SomeAt(s, i, c))
    ensures SkipSpace(s, i) == |s| ==> RestEnd(s, i, true) == None
  {
    EndAtEnd(s, i, true);
  }

  lemma SomeAtStep(s: Text, i: nat, c: FieldClause)
    requires i <= |s| && ParseItems(s, i, true).Some?
    ensures ParseItem(s, i, true).Some?
    ensures var p := ParseItem(s, i, true).value;
      SomeAt(s, i, c) <==> ItemAt(s, i, c) || (ByteAt(s, p.end) == COMMA as int && SomeAt(s, p.end + 1, c))
  {
    hide ParseItem, ItemAccepted, GoodItem;
    ItemsSound(s, i, true);
    ItemSound(s, i, true);
  }

  lemma LabelReads(s: Text, a: nat)
    requires a <= |s| && ParseLabel(s, a).Some?
    ensures var l := ParseLabel(s, a).value.tree;
      GoodLabel(true, l) && CharsAt(s, a + 1).Some? && BodyRunes(l.body) == CharsAt(s, a + 1).value.runes
  {
    hide StringEnd, CharsAt, IsBody, BodyRunes, Between, SkipSpace, LabelText, OccursAt, Spaces;
    BodyFound(s, a + 1);
    LabelSound(s, a);
    assert ParseLabel(s, a).value.tree.body == s[a + 1..StringEnd(s, a + 1).value - 1];
  }

  /** An item is accepted if its label reads as the key and its value is accepted. */
  lemma ItemAtParts(s: Text, i: nat, c: FieldClause)
    requires i <= |s| && ParseItem(s, i, true).Some?
    ensures var a := SkipSpace(s, i);
      && ParseLabel(s, a).Some? && CharsAt(s, a + 1).Some?
      && (ItemAt(s, i, c) <==> Encoded(CharsAt(s, a + 1).value.runes) == c.key && ValueAt(s, ParseLabel(s, a).value.end, c))
  {
    hide StringEnd, CharsAt, IsBody, BodyRunes, Parse, ParseLabel, Encoded, ReadingOf, Good, GoodLabel, Between, SkipSpace, Spelling, LabelText;
    var a := SkipSpace(s, i);
    ItemSound(s, i, true);
    LabelReads(s, a);
    ParseSound(s, ParseLabel(s, a).value.end);
  }

  lemma StringAt(s: Text, i: nat, c: FieldClause)
    requires i < |s| && s[i] == QUOTE && StringEnd(s, i + 1).Some?
    ensures CharsAt(s, i + 1).Some? && (ValueAt(s, i, c) <==> c.accepts(StringReading(Encoded(CharsAt(s, i + 1).value.runes))))
  {
    hide StringEnd, CharsAt, IsBody, BodyRunes, Encoded, ParseItems, SkipSpace, WordEnd;
    BodyFound(s, i + 1);
  }

  lemma WordAt(s: Text, i: nat, c: FieldClause)
    requires i < |s| && s[i] != QUOTE && s[i] != Open(true) && s[i] != Open(false) && WordEnd(s, i).Some?
    ensures ValueAt(s, i, c) <==> c.accepts(WordReading(s[i..WordEnd(s, i).value]))
  {
    hide WordEnd, IsWord, StringEnd, ParseItems, SkipSpace;
  }

  lemma ContainerAt(s: Text, i: nat, c: FieldClause)
    requires i < |s| && (s[i] == Open(true) || s[i] == Open(false)) && Parse(s, i).Some?
    ensures ValueAt(s, i, c) <==> c.accepts(ContainerReading(s[i] == Open(true)))
  {
    hide WordEnd, StringEnd, ParseItems, SkipSpace;
  }

  predicate AllOfKey(ids: seq<nat>, k: Text, clauses: seq<FieldClause>) {
    forall m | 0 <= m < |ids| :: ids[m] < |clauses| && clauses[ids[m]].key == k
  }

  /** The clauses filed under each key are exactly those with that key. */
  ghost predicate Filed(fields: map<Text, seq<nat>>, clauses: seq<FieldClause>) {
    && (forall i :: 0 <= i < |clauses| ==> ClauseOk(clauses[i]))
    && (forall k :: k in fields ==> AllOfKey(fields[k], k, clauses))
    && (forall i :: 0 <= i < |clauses| ==> clauses[i].key in fields && i in fields[clauses[i].key])
  }

  /** Plain bytes up to a quote are a string. */
  lemma QuotedRun(s: Text, i: nat, chunk: Text, end: nat)
    requires i + |chunk| <= |s| && chunk == s[i..i + |chunk|] && end < |chunk| && chunk[end] == QUOTE && AllPlain(chunk[..end])
    ensures StringEnd(s, i) == Some(i + end + 1) && PlainString(s, i) && chunk[..end] == s[i..i + end]
  {
    RawIsPlain(s, i, chunk, end);
    assert chunk[end] == s[i + end];
  }

  class TopLevelScanner {
    const reader: Scanner
    const includeJson: bool
    const clauses: seq<FieldClause>
    const fields: map<Text, seq<nat>>
    var hits: seq<bool>

    ghost predicate Valid()
      reads this`hits, reader`pos, reader`filled
    {
      reader.Valid() && |hits| == |clauses| && Filed(fields, clauses)
    }

    constructor (reader: Scanner, includeJson: bool, clauses: seq<FieldClause>, fields: map<Text, seq<nat>>)
      requires reader.Valid() && Filed(fields, clauses)
      ensures Valid() && this.reader == reader && this.includeJson == includeJson
      ensures this.clauses == clauses && this.fields == fields && forall i :: 0 <= i < |hits| ==> !hits[i]
    {
      this.reader, this.includeJson, this.clauses, this.fields := reader, includeJson, clauses, fields;
      hits := seq(|clauses|, _ => false);
    }

    method Write(bytes: Text)
      modifies reader`out
    {
      if includeJson {
        reader.out := reader.out + bytes;
      }
    }

    /** A string without escapes that is buffered whole; otherwise nothing is consumed. */
    method ReadBufferedUnescapedString() returns (value: Option<Text>)
      requires reader.Valid()
      modifies reader
      ensures reader.Valid()
      ensures value.None? ==> reader.pos == old(reader.pos)
      ensures value.Some? ==> StringEnd(reader.data, old(reader.pos)) == Some(reader.pos)
      ensures value.Some? ==> reader.pos > old(reader.pos) && value.value == reader.data[old(reader.pos)..reader.pos - 1]
      ensures value.Some? ==> PlainString(reader.data, old(reader.pos))
    {
      hide StringEnd, AllPlain, PlainString;
      if reader.filled == reader.pos { return None; }
      var n := reader.filled - reader.pos;
      var chunk := reader.Peek(n);
      var end := LeadingRaw(chunk);
      if end == |chunk| || chunk[end] != QUOTE { return None; }
      QuotedRun(reader.data, reader.pos, chunk, end);
      value := Some(chunk[..end]);
      reader.Discard(end + 1);
      Write([QUOTE] + value.value + [QUOTE]);
    }

    /** A string, its quick form first. */
    method ReadKey() returns (ok: bool, key: Text)
      requires reader.Valid()
      modifies reader
      ensures reader.Valid()
      ensures ok <==> StringEnd(reader.data, old(reader.pos)).Some?
      ensures ok ==> Some(reader.pos) == StringEnd(reader.data, old(reader.pos)) && CharsAt(reader.data, old(reader.pos)).Some?
      ensures ok && Legible(reader.data) ==> key == Encoded(CharsAt(reader.data, old(reader.pos)).value.runes)
    {
      hide StringEnd, CharsAt, PlainString, Encoded;
      ghost var start := reader.pos;
      DecodingEndsAlike(reader.data, start);
      var quick := ReadBufferedUnescapedString();
      if quick.Some? { return true, quick.value; }
      ok, key := reader.ReadString();
      if !ok { return; }
      var quoted := AppendJsonString([], key);
      Write(quoted);
    }

    /** The key whose opening quote has just been read, the colon and the first byte of the value. */
    method ReadLabel() returns (ok: bool, key: Text, start: byte)
      requires reader.Valid() && 0 < reader.pos && reader.data[reader.pos - 1] == QUOTE
      modifies reader
      ensures reader.Valid()
      ensures var l := ParseLabel(reader.data, old(reader.pos) - 1);
        (ok <==> l.Some? && l.value.end < |reader.data|) &&
        (ok ==> reader.pos == l.value.end + 1 && start == reader.data[l.value.end])
      ensures ok && Legible(reader.data) ==>
        CharsAt(reader.data, old(reader.pos)).Some? && key == Encoded(CharsAt(reader.data, old(reader.pos)).value.runes)
    {
      hide StringEnd, SkipSpace, CharsAt, Encoded, Legible;
      start := 0;
      ok, key := ReadKey();
      if !ok { return; }
      var colon := reader.ReadNonSpaceByte();
      if colon != Some(COLON) { return false, key, start; }
      Write([COLON]);
      var b := reader.ReadNonSpaceByte();
      if b.None? { return false, key, start; }
      return true, key, b.value;
    }

    method CopyOrSkipValue(start: byte) returns (ok: bool)
      requires reader.Valid() && 0 < reader.pos && reader.data[reader.pos - 1] == start
      modifies reader
      ensures reader.Valid()
      ensures ok <==> Parse(reader.data, old(reader.pos) - 1).Some?
      ensures ok ==> Some(reader.pos) == EndOf(Parse(reader.data, old(reader.pos) - 1))
    {
      hide Parse, Respelled;
      RespelledEnds(reader.data, reader.pos - 1, false);
      if includeJson {
        ok := reader.CopyValue(start, false);
      } else {
        ok := reader.SkipValue(start);
      }
    }

    /** A value compared with the clause while it is consumed. */
    method EqValueMatches(start: byte, c: EqClause) returns (ok: bool, matched: bool)
      requires reader.Valid() && 0 < reader.pos && reader.data[reader.pos - 1] == start
      modifies reader
      ensures reader.Valid()
      ensures ok <==> Parse(reader.data, old(reader.pos) - 1).Some?
      ensures ok ==> Some(reader.pos) == EndOf(Parse(reader.data, old(reader.pos) - 1))
      ensures ok && Legible(reader.data) ==> (matched <==> ValueAt(reader.data, old(reader.pos) - 1, AsField(c)))
    {
      hide Parse, StringEnd, WordEnd, CharsAt, Encoded, Legible, ValueAt;
      matched := false;
      ghost var i := reader.pos - 1;
      if start == QUOTE {
        StringParses(reader.data, i);
        var value;
        ok, value := ReadKey();
        if !ok { return; }
        StringAt(reader.data, i, AsField(c));
        matched := c.fold(value) == c.needle;
      } else if start == Open(true) || start == Open(false) {
        ok := CopyOrSkipValue(start);
        if !ok { return; }
        ContainerAt(reader.data, i, AsField(c));
      } else {
        WordParses(reader.data, i);
        var word;
        ok, word := reader.ReadWord(start);
        if !ok { return; }
        WordAt(reader.data, i, AsField(c));
        matched := word != NULL_TEXT && c.fold(word) == c.needle;
        Write(word);
      }
    }

    /** The rest of an object whose next byte has been read: the early skip. */
    method SkipObjectFromNext(next: byte) returns (ok: bool)
      requires reader.Valid() && 0 < reader.pos && reader.data[reader.pos - 1] == next && !IsSpace(next)
      modifies reader
      ensures reader.Valid()
      ensures ok <==> ParseItems(reader.data, old(reader.pos) - 1, true).Some?
      ensures ok ==> Some(reader.pos) == EndOf(ParseItems(reader.data, old(reader.pos) - 1, true))
    {
      hide ParseItems, ParseItem, SkipSpace;
      ghost var start, k := reader.pos - 1, reader.pos - 1;
      NoSpaceHere(reader.data, start);
      var lead := next;
      while true
        invariant reader.Valid() && start <= k < reader.pos && reader.pos - 1 == SkipSpace(reader.data, k)
        invariant reader.data[reader.pos - 1] == lead
        invariant EndOf(ParseItems(reader.data, k, true)) == EndOf(ParseItems(reader.data, start, true))
        decreases |reader.data| - reader.pos
      {
        ItemsEndStep(reader.data, k, true);
        var following;
        ok, following := reader.SkipMember(lead, k);
        if !ok { return; }
        if following == COMMA {
          k := reader.pos;
          EndAtEnd(reader.data, k, true);
          var b := reader.ReadNonSpaceByte();
          if b.None? { return false; }
          lead := b.value;
        } else {
          return following == Close(true);
        }
      }
    }

    lemma NoSpaceHere(s: Text, i: nat)
      requires i < |s| && !IsSpace(s[i])
      ensures SkipSpace(s, i) == i
    {
    }

    /** The comma if one is due, one member of the single-eq scan and the byte that follows it; values are compared while nothing has matched. */
    method EqMember(start: byte, ghost k: nat, first: bool, c: EqClause, matched0: bool) returns (ok: bool, next: byte, matched: bool)
      requires reader.Valid() && k <= |reader.data| && 0 < reader.pos && reader.pos - 1 == SkipSpace(reader.data, k)
      requires reader.data[reader.pos - 1] == start
      modifies reader
      ensures reader.Valid()
      ensures var r := ParseItem(reader.data, k, true);
        (ok <==> r.Some? && r.value.end < |reader.data|) &&
        (ok ==> reader.pos == r.value.end + 1 && next == reader.data[r.value.end])
      ensures ok ==> old(reader.pos) < reader.pos
      ensures ok && Legible(reader.data) ==> (matched <==> matched0 || ItemAt(reader.data, k, AsField(c)))
    {
      hide Parse, StringEnd, SkipSpace, CharsAt, Encoded, Legible, ValueAt, ItemAt;
      next, matched := 0, matched0;
      if start != QUOTE { return false, next, matched; }
      if !first {
        Write([COMMA]);
      }
      var name, value;
      ok, name, value := ReadLabel();
      if !ok {
        NothingToParse(reader.data);
        return;
      }
      if !matched && name == c.key {
        ok, matched := EqValueMatches(value, c);
      } else {
        ok := CopyOrSkipValue(value);
      }
      if !ok { return; }
      ItemAtParts(reader.data, k, AsField(c));
      var b := reader.ReadNonSpaceByte();
      if b.None? { return false, next, matched; }
      return true, b.value, matched;
    }

    /** The single-eq scan; once it has matched, and no payload is wanted, the rest is skipped. */
    method ScanObjectFastTopLevelEq(c: EqClause) returns (ok: bool, matched: bool)
      requires reader.Valid()
      modifies reader
      ensures reader.Valid()
      ensures ok <==> RestEnd(reader.data, old(reader.pos), true).Some?
      ensures ok ==> Some(reader.pos) == RestEnd(reader.data, old(reader.pos), true)
      ensures ok && Legible(reader.data) ==> (matched <==> MemberAt(reader.data, old(reader.pos), AsField(c)))
    {
      hide ParseItems, ParseItem, SkipSpace, Legible, SomeAt, ItemAt, MemberAt, RestEnd;
      matched := false;
      ghost var start, k := reader.pos, reader.pos;
      RestIs(reader.data, start, AsField(c));
      var next := reader.ReadNonSpaceByte();
      Write([Open(true)]);
      if next.None? { return false, matched; }
      if next.value == Close(true) {
        Write([Close(true)]);
        return true, matched;
      }
      var first := true;
      while true
        invariant reader.Valid() && start <= k < reader.pos && reader.pos - 1 == SkipSpace(reader.data, k)
        invariant next == Some(reader.data[reader.pos - 1])
        invariant EndOf(ParseItems(reader.data, k, true)) == EndOf(ParseItems(reader.data, start, true))
        invariant Legible(reader.data) && ParseItems(reader.data, k, true).Some? ==>
          (SomeAt(reader.data, start, AsField(c)) <==> matched || SomeAt(reader.data, k, AsField(c)))
        decreases |reader.data| - reader.pos
      {
        ItemsEndStep(reader.data, k, true);
        if ParseItems(reader.data, k, true).Some? {
          SomeAtStep(reader.data, k, AsField(c));
        }
        var following;
        ok, following, matched := EqMember(next.value, k, first, c, matched);
        if !ok { return; }
        if following == Close(true) {
          Write([Close(true)]);
          return;
        }
        if following != COMMA { return false, matched; }
        k := reader.pos;
        EndAtEnd(reader.data, k, true);
        next := reader.ReadNonSpaceByte();
        if next.None? { return false, matched; }
        if matched && !includeJson {
          ItemsFromStart(reader.data, k, true);
          NotSpace(reader.data, k);
          ok := SkipObjectFromNext(next.value);
          return;
        }
        first := false;
      }
    }

    lemma NotSpace(s: Text, i: nat)
      requires i <= |s|
      ensures SkipSpace(s, i) < |s| ==> !IsSpace(s[SkipSpace(s, i)])
    {
    }

    // ----- the per-field scan -----

    /** The clauses that are hit: those that were, and those of some ids that accept. */
    twostate predicate Marked(ids: seq<nat>, accepted: nat -> bool)
      reads this`hits
    {
      |hits| == |clauses| == |old(hits)| && forall i :: 0 <= i < |hits| ==> (hits[i] <==> old(hits[i]) || (i in ids && accepted(i)))
    }

    method Mark(ids: seq<nat>, r: Reading)
      requires |hits| == |clauses| && forall m :: 0 <= m < |ids| ==> ids[m] < |clauses|
      modifies this`hits
      ensures Marked(ids, (i: nat) => i < |clauses| && clauses[i].accepts(r))
    {
      for n := 0 to |ids|
        invariant Marked(ids[..n], (i: nat) => i < |clauses| && clauses[i].accepts(r))
      {
        var id := ids[n];
        assert id in ids && ids[..n + 1] == ids[..n] + [id];
        if !hits[id] && clauses[id].accepts(r) {
          hits := hits[id := true];
        }
      }
      assert ids[..|ids|] == ids;
    }

    method HasPending(ids: seq<nat>) returns (pending: bool, reading: bool)
      requires |hits| == |clauses| && forall m :: 0 <= m < |ids| ==> ids[m] < |clauses|
      ensures pending <==> exists i :: i in ids && !hits[i]
      ensures reading <==> exists i :: i in ids && !hits[i] && clauses[i].readsText
    {
      pending, reading := false, false;
      for n := 0 to |ids|
        invariant pending <==> exists m :: 0 <= m < n && !hits[ids[m]]
        invariant reading <==> exists m :: 0 <= m < n && !hits[ids[m]] && clauses[ids[m]].readsText
      {
        assert ids[n] in ids;
        if !hits[ids[n]] {
          pending := true;
          reading := reading || clauses[ids[n]].readsText;
        }
      }
    }

    /** The value as it is read; the text of a string only if it is asked for. */
    method ReadValue(start: byte, readText: bool) returns (ok: bool, r: Reading)
      requires reader.Valid() && 0 < reader.pos && reader.data[reader.pos - 1] == start
      modifies reader
      ensures reader.Valid()
      ensures ok <==> Parse(reader.data, old(reader.pos) - 1).Some?
      ensures ok ==> Some(reader.pos) == EndOf(Parse(reader.data, old(reader.pos) - 1))
      ensures ok ==> forall c :: ClauseOk(c) && (c.readsText ==> readText || start != QUOTE) ==>
        (c.accepts(r) <==> ValueAt(reader.data, old(reader.pos) - 1, c))
    {
      hide Parse, StringEnd, WordEnd, CharsAt, ValueAt, Encoded;
      ghost var i, s := reader.pos - 1, reader.data;
      if start == QUOTE {
        StringParses(s, i);
        DecodingEndsAlike(s, i + 1);
        var text := [];
        if readText {
          ok, text := reader.ReadString();
          if ok {
            var quoted := AppendJsonString([], text);
            Write(quoted);
          }
        } else {
          ok := CopyOrSkipValue(start);
        }
        r := StringReading(text);
        if ok {
          forall c | ClauseOk(c) && (c.readsText ==> readText) ensures c.accepts(r) <==> ValueAt(s, i, c) {
            StringAt(s, i, c);
          }
        }
      } else if start == Open(true) || start == Open(false) {
        ok := CopyOrSkipValue(start);
        r := ContainerReading(start == Open(true));
        if ok {
          forall c: FieldClause ensures c.accepts(r) <==> ValueAt(s, i, c) {
            ContainerAt(s, i, c);
          }
        }
      } else {
        WordParses(s, i);
        var word;
        ok, word := reader.ReadWord(start);
        r := WordReading(word);
        if ok {
          forall c: FieldClause ensures c.accepts(r) <==> ValueAt(s, i, c) {
            WordAt(s, i, c);
          }
          Write(word);
        }
      }
    }

    /** After a member: its clauses that accept it are hit. */
    twostate predicate Observed(ids: seq<nat>, i: nat)
      requires i <= |reader.data|
      reads this`hits
    {
      Marked(ids, (n: nat) => n < |clauses| && ValueAt(reader.data, i, clauses[n]))
    }

    /** The member's value under a key: read for the clauses that are pending, copied or skipped if none is. */
    method ObserveValue(start: byte, ids: seq<nat>) returns (ok: bool)
      requires Valid() && 0 < reader.pos && reader.data[reader.pos - 1] == start && forall m :: 0 <= m < |ids| ==> ids[m] < |clauses|
      modifies reader, this`hits
      ensures Valid()
      ensures ok <==> Parse(reader.data, old(reader.pos) - 1).Some?
      ensures ok ==> Some(reader.pos) == EndOf(Parse(reader.data, old(reader.pos) - 1))
      ensures ok ==> Observed(ids, old(reader.pos) - 1)
    {
      hide Parse, ValueAt, Filed;
      ghost var was := hits;
      var pending, readText := HasPending(ids);
      if !pending {
        ok := CopyOrSkipValue(start);
        return;
      }
      var r;
      ok, r := ReadValue(start, readText);
      if !ok { return; }
      Mark(ids, r);
      FiledOk();
      forall n | n in ids && !was[n]
        ensures clauses[n].accepts(r) <==> ValueAt(reader.data, old(reader.pos) - 1, clauses[n])
      {
      }
    }

    lemma FiledOk()
      requires Filed(fields, clauses)
      ensures forall n: nat :: n < |clauses| ==> ClauseOk(clauses[n])
    {
    }

    /** The comma if one is due, one member of the per-field scan and the byte that follows it. */
    method FieldMember(start: byte, ghost k: nat, first: bool) returns (ok: bool, next: byte)
      requires Valid() && k <= |reader.data| && 0 < reader.pos && reader.pos - 1 == SkipSpace(reader.data, k)
      requires reader.data[reader.pos - 1] == start
      modifies reader, this`hits
      ensures Valid()
      ensures var r := ParseItem(reader.data, k, true);
        (ok <==> r.Some? && r.value.end < |reader.data|) &&
        (ok ==> reader.pos == r.value.end + 1 && next == reader.data[r.value.end])
      ensures ok ==> old(reader.pos) < reader.pos
      ensures ok && Legible(reader.data) ==>
        forall i :: 0 <= i < |hits| ==> (hits[i] <==> old(hits[i]) || ItemAt(reader.data, k, clauses[i]))
    {
      hide Parse, StringEnd, SkipSpace, CharsAt, Encoded, Legible, ValueAt, ItemAt, Filed, Observed;
      next := 0;
      if start != QUOTE { return false, next; }
      if !first {
        Write([COMMA]);
      }
      var name, value;
      ok, name, value := ReadLabel();
      if !ok {
        NothingToParse(reader.data);
        return;
      }
      ghost var at := reader.pos - 1;
      ok := ObserveMember(name, value);
      if !ok { return; }
      forall i | 0 <= i < |clauses|
        ensures Legible(reader.data) ==> (ItemAt(reader.data, k, clauses[i]) <==> name == clauses[i].key && ValueAt(reader.data, at, clauses[i]))
      {
        ItemAtParts(reader.data, k, clauses[i]);
      }
      var b := reader.ReadNonSpaceByte();
      if b.None? { return false, next; }
      return true, b.value;
    }

    /** The value of a member: observed if clauses are filed under its key. */
    method ObserveMember(name: Text, start: byte) returns (ok: bool)
      requires Valid() && 0 < reader.pos && reader.data[reader.pos - 1] == start
      modifies reader, this`hits
      ensures Valid()
      ensures ok <==> Parse(reader.data, old(reader.pos) - 1).Some?
      ensures ok ==> Some(reader.pos) == EndOf(Parse(reader.data, old(reader.pos) - 1))
      ensures ok ==> forall i :: 0 <= i < |hits| ==>
        (hits[i] <==> old(hits[i]) || (name == clauses[i].key && ValueAt(reader.data, old(reader.pos) - 1, clauses[i])))
    {
      hide Parse, ValueAt;
      if name in fields {
        assert AllOfKey(fields[name], name, clauses);
        ok := ObserveValue(start, fields[name]);
      } else {
        ok := CopyOrSkipValue(start);
      }
    }

    /** The per-field scan: it consumes the object, and every clause that some member satisfies is hit. */
    method ScanObjectFastTopLevel() returns (ok: bool)
      requires Valid()
      modifies reader, this`hits
      ensures Valid()
      ensures ok <==> RestEnd(reader.data, old(reader.pos), true).Some?
      ensures ok ==> Some(reader.pos) == RestEnd(reader.data, old(reader.pos), true)
      ensures ok && Legible(reader.data) ==>
        forall i :: 0 <= i < |hits| ==> (hits[i] <==> old(hits[i]) || MemberAt(reader.data, old(reader.pos), clauses[i]))
    {
      hide ParseItems, ParseItem, SkipSpace, Legible, SomeAt, ItemAt, MemberAt, RestEnd, Filed, Remaining;
      ghost var start, k, was := reader.pos, reader.pos, hits;
      RestIsFor(start);
      RemainingAtStart(was, start);
      var next := reader.ReadNonSpaceByte();
      Write([Open(true)]);
      if next.None? { return false; }
      if next.value == Close(true) {
        Write([Close(true)]);
        return true;
      }
      var first := true;
      while true
        invariant Valid() && start <= k < reader.pos && reader.pos - 1 == SkipSpace(reader.data, k)
        invariant next == Some(reader.data[reader.pos - 1])
        invariant EndOf(ParseItems(reader.data, k, true)) == EndOf(ParseItems(reader.data, start, true))
        invariant Legible(reader.data) && ParseItems(reader.data, k, true).Some? ==> Remaining(was, hits, start, k)
        decreases |reader.data| - reader.pos
      {
        ItemsEndStep(reader.data, k, true);
        ghost var before := hits;
        var following;
        ok, following := FieldMember(next.value, k, first);
        if !ok { return; }
        if ParseItems(reader.data, k, true).Some? && Legible(reader.data) {
          RemainingStep(was, before, hits, start, k);
        }
        if following == Close(true) {
          Write([Close(true)]);
          return;
        }
        if following != COMMA { return false; }
        k := reader.pos;
        EndAtEnd(reader.data, k, true);
        next := reader.ReadNonSpaceByte();
        if next.None? { return false; }
        first := false;
      }
    }

    lemma RestIsFor(i: nat)
      requires i <= |reader.data|
      ensures ByteAt(reader.data, SkipSpace(reader.data, i)) == Close(true) as int ==>
        RestEnd(reader.data, i, true) == Some(SkipSpace(reader.data, i) + 1) &&
        forall n :: 0 <= n < |clauses| ==> !MemberAt(reader.data, i, clauses[n])
      ensures ByteAt(reader.data, SkipSpace(reader.data, i)) != Close(true) as int ==>
        RestEnd(reader.data, i, true) == EndOf(ParseItems(reader.data, i, true)) &&
        forall n :: 0 <= n < |clauses| ==> (MemberAt(reader.data, i, clauses[n]) <==> SomeAt(reader.data, i, clauses[n]))
      ensures SkipSpace(reader.data, i) == |reader.data| ==> RestEnd(reader.data, i, true) == None
    {
      hide MemberAt, SomeAt, RestEnd;
      RestIs(reader.data, i, AsField(EqClause([], [], t => t)));
      forall n | 0 <= n < |clauses|
        ensures ByteAt(reader.data, SkipSpace(reader.data, i)) == Close(true) as int ==> !MemberAt(reader.data, i, clauses[n])
        ensures ByteAt(reader.data, SkipSpace(reader.data, i)) != Close(true) as int ==>
          (MemberAt(reader.data, i, clauses[n]) <==> SomeAt(reader.data, i, clauses[n]))
      {
        RestIs(reader.data, i, clauses[n]);
      }
    }

    /** What is hit, and what the items from k on will hit, is what was hit and what the items from start on hit. */
    ghost predicate Remaining(was: seq<bool>, now: seq<bool>, start: nat, k: nat)
      requires start <= |reader.data| && k <= |reader.data|
    {
      |was| == |now| == |clauses| && forall n :: 0 <= n < |clauses| ==>
        (was[n] || SomeAt(reader.data, start, clauses[n]) <==> now[n] || SomeAt(reader.data, k, clauses[n]))
    }

    lemma RemainingAtStart(was: seq<bool>, start: nat)
      requires start <= |reader.data| && |was| == |clauses|
      ensures Remaining(was, was, start, start)
    {
    }

    lemma RemainingStep(was: seq<bool>, before: seq<bool>, now: seq<bool>, start: nat, k: nat)
      requires start <= |reader.data| && k <= |reader.data| && ParseItems(reader.data, k, true).Some?
      requires Remaining(was, before, start, k) && |now| == |clauses|
      requires forall n :: 0 <= n < |clauses| ==> (now[n] <==> before[n] || ItemAt(reader.data, k, clauses[n]))
      ensures ParseItem(reader.data, k, true).Some?
      ensures var p := ParseItem(reader.data, k, true).value;
        if ByteAt(reader.data, p.end) == COMMA as int then Remaining(was, now, start, p.end + 1)
        else forall n :: 0 <= n < |clauses| ==> (was[n] || SomeAt(reader.data, start, clauses[n]) <==> now[n])
    {
      hide ParseItem, SomeAt, ItemAt;
      SomeAtStep(reader.data, k, AsField(EqClause([], [], t => t)));
      forall n | 0 <= n < |clauses|
        ensures var p := ParseItem(reader.data, k, true).value;
          SomeAt(reader.data, k, clauses[n]) <==>
          ItemAt(reader.data, k, clauses[n]) || (ByteAt(reader.data, p.end) == COMMA as int && SomeAt(reader.data, p.end + 1, clauses[n]))
      {
        SomeAtStep(reader.data, k, clauses[n]);
      }
    }
  }
}
