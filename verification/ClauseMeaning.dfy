/** What the clauses mean for the values they are asked of, in the terms of the selector language. */
module ClauseMeaning {
  import opened Bytes
  import opened Json
  import opened Patterns
  import opened TreeEval
  import opened Selectors
  import opened StreamClauses
  import opened Engine
  import opened JsonText
  import JsonSyntax
  import FastScans

  // ----- ranges -----

  function OnlyGte(b: real): Bounds { Bounds(Some(b), None, None, None) }

  function OnlyGt(b: real): Bounds { Bounds(None, Some(b), None, None) }

  function OnlyLte(b: real): Bounds { Bounds(None, None, Some(b), None) }

  function OnlyLt(b: real): Bounds { Bounds(None, None, None, Some(b)) }

  /** The answer of a range clause on a value: the tree's, or the stream's. */
  ghost predicate InRange(env: Env, streamed: bool, b: Bounds, v: Json) {
    var c := Range(0, Field("/n", ["n"]), b);
    if streamed then StreamLeaf(env, c, v, false) else TreeLeaf(env, c, v)
  }

  /** Values that read as a number: numbers, and on trees strings too. */
  ghost predicate ReadsAsNumber(env: Env, streamed: bool, v: Json, x: real) {
    (v.Num? && env.parseFloat(v.literal) == Some(x)) || (!streamed && v.Str? && env.parseFloat(v.text) == Some(x))
  }

  /** Bounds part the numbers: at most or beyond, below or at least, with the bound itself inside the inclusive ones only. */
  lemma RangesPartNumbers(env: Env, streamed: bool, v: Json, x: real, b: real)
    requires ReadsAsNumber(env, streamed, v, x)
    ensures InRange(env, streamed, OnlyGt(b), v) <==> !InRange(env, streamed, OnlyLte(b), v)
    ensures InRange(env, streamed, OnlyGte(b), v) <==> !InRange(env, streamed, OnlyLt(b), v)
    ensures InRange(env, streamed, OnlyGte(b), v) && InRange(env, streamed, OnlyLte(b), v) <==> x == b
    ensures InRange(env, streamed, OnlyGt(b), v) && InRange(env, streamed, OnlyLt(b), v) <==> false
  {
  }

  /** A larger number stays above a bound that a smaller one is above, and a smaller one below. */
  lemma RangesAreRays(env: Env, streamed: bool, v: Json, x: real, w: Json, y: real, b: real)
    requires ReadsAsNumber(env, streamed, v, x) && ReadsAsNumber(env, streamed, w, y) && x <= y
    ensures InRange(env, streamed, OnlyGt(b), v) ==> InRange(env, streamed, OnlyGt(b), w)
    ensures InRange(env, streamed, OnlyGte(b), v) ==> InRange(env, streamed, OnlyGte(b), w)
    ensures InRange(env, streamed, OnlyLt(b), w) ==> InRange(env, streamed, OnlyLt(b), v)
    ensures InRange(env, streamed, OnlyLte(b), w) ==> InRange(env, streamed, OnlyLte(b), v)
  {
  }

  /** Several bounds hold exactly if each alone does; a value that is no number is in no range. */
  lemma BoundsJoin(env: Env, streamed: bool, b: Bounds, v: Json)
    requires Compiles(Range(0, Field("/n", ["n"]), b))
    ensures InRange(env, streamed, b, v) <==>
      && (exists x :: ReadsAsNumber(env, streamed, v, x))
      && (b.gte.Some? ==> InRange(env, streamed, OnlyGte(b.gte.value), v))
      && (b.gt.Some? ==> InRange(env, streamed, OnlyGt(b.gt.value), v))
      && (b.lte.Some? ==> InRange(env, streamed, OnlyLte(b.lte.value), v))
      && (b.lt.Some? ==> InRange(env, streamed, OnlyLt(b.lt.value), v))
  {
    var text := if v.Num? then v.literal else if v.Str? then v.text else [];
    if (v.Num? || (v.Str? && !streamed)) && env.parseFloat(text).Some? {
      assert ReadsAsNumber(env, streamed, v, env.parseFloat(text).value);
    }
  }

  /** A range without any bound holds of nothing on a tree, and the engine refuses it. */
  lemma NoBoundsNoRange(env: Env, v: Json)
    ensures !InRange(env, false, Bounds(None, None, None, None), v)
    ensures !Compiles(Range(0, Field("/n", ["n"]), Bounds(None, None, None, None)))
  {
  }

  // ----- the text of a value -----

  /** The literals are spelled as JSON spells them. */
  lemma LiteralsAreSpelled()
    ensures TRUE_TEXT == Ascii("true") && FALSE_TEXT == Ascii("false") && NULL_TEXT == Ascii("null")
  {
  }

  /** A string reads as its text, a number as its literal, a boolean as its word, and nothing else reads as text. */
  ghost predicate ReadsAs(v: Json, t: Text) {
    || v == Str(t) || v == Num(t)
    || (v == Bool(true) && t == Ascii("true")) || (v == Bool(false) && t == Ascii("false"))
  }

  lemma TextOfValue(v: Json, d: Doc, t: Text)
    ensures ValueToString(v) == Some(t) <==> ReadsAs(v, t)
    ensures !d.DStr? ==> (ObservedText(d) == Some(t) <==> ReadsAs(Decode(d), t))
  {
    LiteralsAreSpelled();
  }

  /** What a term compares with: its alternatives, or else its one value. */
  ghost predicate IsAlternative(t: Term, a: Text) {
    if t.any == [] then a == t.value else a in t.any
  }

  ghost predicate Within(inner: Text, t: Text) {
    exists before: Text, after: Text :: t == before + inner + after
  }

  ghost predicate Begins(t: Text, start: Text) {
    exists after: Text :: t == start + after
  }

  lemma OccurrenceCuts(t: Text, needle: Text)
    ensures Bytes.Contains(t, needle) <==> Within(needle, t)
    ensures HasPrefix(t, needle) <==> Begins(t, needle)
  {
    if Bytes.Contains(t, needle) {
      var i :| 0 <= i <= |t| && OccursAt(t, needle, i);
      assert t == t[..i] + needle + t[i + |needle|..];
    }
    if before: Text, after: Text :| t == before + needle + after {
      assert OccursAt(t, needle, |before|);
    }
    if HasPrefix(t, needle) {
      assert t == needle + t[|needle|..];
    }
  }

  /** The text holds the alternative, or starts with it, letter case aside if asked for. */
  ghost predicate TextHolds(env: Env, ignoreCase: bool, x: Text, a: Text, prefix: bool) {
    var (text, part) := if ignoreCase then (env.lower(x), env.lower(a)) else (x, a);
    if prefix then Begins(text, part) else Within(part, text)
  }

  ghost predicate HoldsAlternative(env: Env, t: Term, ignoreCase: bool, v: Json, prefix: bool) {
    exists x, a :: ReadsAs(v, x) && IsAlternative(t, a) && TextHolds(env, ignoreCase, x, a, prefix)
  }

  function Matcher(prefix: bool): (Text, Text) -> bool {
    if prefix then Bytes.HasPrefix else Bytes.Contains
  }

  lemma FoldedHolds(env: Env, ignoreCase: bool, x: Text, a: Text, prefix: bool)
    ensures Matcher(prefix)(Fold(env, ignoreCase, x), Fold(env, ignoreCase, a)) <==> TextHolds(env, ignoreCase, x, a, prefix)
  {
    OccurrenceCuts(Fold(env, ignoreCase, x), Fold(env, ignoreCase, a));
  }

  lemma NeedlesAreFolded(env: Env, t: Term, ignoreCase: bool, n: Text)
    ensures n in Needles(env, t, ignoreCase) <==> exists a :: IsAlternative(t, a) && n == Fold(env, ignoreCase, a)
  {
    hide Fold;
    var needles := Needles(env, t, ignoreCase);
    if n in needles {
      var i :| 0 <= i < |needles| && needles[i] == n;
      assert IsAlternative(t, if t.any == [] then t.value else t.any[i]);
    }
    if a :| IsAlternative(t, a) && n == Fold(env, ignoreCase, a) {
      if t.any == [] {
        assert needles[0] == n;
      } else {
        var i :| 0 <= i < |t.any| && t.any[i] == a;
        assert needles[i] == n;
      }
    }
  }

  lemma AlternativeHolds(env: Env, t: Term, ignoreCase: bool, v: Json, prefix: bool)
    requires !OmittedValue(t)
    ensures StringTermHolds(env, t, ignoreCase, v, Matcher(prefix)) <==> HoldsAlternative(env, t, ignoreCase, v, prefix)
  {
    hide Fold, Needles, TextHolds, Matcher, IsAlternative, ReadsAs, ValueToString;
    forall x ensures ValueToString(v) == Some(x) <==> ReadsAs(v, x) {
      TextOfValue(v, DNull, x);
    }
    if StringTermHolds(env, t, ignoreCase, v, Matcher(prefix)) {
      var x := ValueToString(v).value;
      var n :| n in Needles(env, t, ignoreCase) && Matcher(prefix)(Fold(env, ignoreCase, x), n);
      NeedlesAreFolded(env, t, ignoreCase, n);
      var a :| IsAlternative(t, a) && n == Fold(env, ignoreCase, a);
      FoldedHolds(env, ignoreCase, x, a, prefix);
    }
    if x, a :| ReadsAs(v, x) && IsAlternative(t, a) && TextHolds(env, ignoreCase, x, a, prefix) {
      FoldedHolds(env, ignoreCase, x, a, prefix);
      NeedlesAreFolded(env, t, ignoreCase, Fold(env, ignoreCase, a));
    }
  }

  /** The clauses on one value, as the selector language describes them; a string term given no value asks nothing of it. */
  lemma ClausesOnValues(env: Env, t: Term, force: bool, f: Field, values: seq<Text>, v: Json)
    ensures TreeLeaf(env, Eq(t), v) <==> ReadsAs(v, t.value)
    ensures TreeLeaf(env, Contains(t, force), v) <==>
      (t.any == [] && t.value == [] && !t.valueSet) || HoldsAlternative(env, t, force || t.ignoreCase, v, false)
    ensures TreeLeaf(env, Prefix(t, force), v) <==>
      (t.any == [] && t.value == [] && !t.valueSet) || HoldsAlternative(env, t, force || t.ignoreCase, v, true)
    ensures TreeLeaf(env, In(0, f, values), v) <==> exists x :: ReadsAs(v, x) && x in values
    ensures TreeLeaf(env, Exists(f), v) <==> v != Null
  {
    TextOfValue(v, DNull, t.value);
    if !OmittedValue(t) {
      AlternativeHolds(env, t, force || t.ignoreCase, v, false);
      AlternativeHolds(env, t, force || t.ignoreCase, v, true);
    }
    forall x ensures ValueToString(v) == Some(x) <==> ReadsAs(v, x) {
      TextOfValue(v, DNull, x);
    }
  }

  /** The value a spelled scalar denotes, and a container of the kind a spelled one is. */
  ghost predicate Denotes(v: JsonSyntax.Value, j: Json)
    requires JsonSyntax.Good(v)
  {
    match v
    case Word(w) =>
      if w == Ascii("null") then j == Null
      else if w == Ascii("true") then j == Bool(true)
      else if w == Ascii("false") then j == Bool(false)
      else j == Num(w)
    case Quoted(body) => j == Str(Encoded(BodyRunes(body)))
    case Empty(braced, _) => if braced then j.Obj? else j.Arr?
    case Full(braced, _) => if braced then j.Obj? else j.Arr?
  }

  /** The byte-level scan for a single eq accepts a spelled value exactly if the engine's eq clause holds of what it denotes. */
  lemma FastEqIsEq(env: Env, t: Term, key: Text, v: JsonSyntax.Value, j: Json)
    requires JsonSyntax.Good(v) && Denotes(v, j)
    ensures var fold := (x: Text) => if t.ignoreCase then env.lower(x) else x;
      FastScans.EqAccepts(FastScans.EqClause(key, fold(t.value), fold), FastScans.ReadingOf(v)) <==> StreamLeaf(env, Eq(t), j, false)
  {
    LiteralsAreSpelled();
  }

  /** A clause on a document: its own field leads to a value that satisfies it. */
  ghost predicate FieldLeadsTo(env: Env, f: Field, c: Clause, doc: Json) {
    f.segments != [] && exists v :: v in ValuesAt({doc}, f.segments) && TreeLeaf(env, c, v)
  }

  lemma ClausesOnDocuments(env: Env, t: Term, force: bool, address: nat, f: Field, b: Bounds, values: seq<Text>, doc: Json)
    ensures TreeClause(env, Eq(t), doc) <==> FieldLeadsTo(env, t.field, Eq(t), doc)
    ensures TreeClause(env, Contains(t, force), doc) <==> FieldLeadsTo(env, t.field, Contains(t, force), doc)
    ensures TreeClause(env, Prefix(t, force), doc) <==> FieldLeadsTo(env, t.field, Prefix(t, force), doc)
    ensures TreeClause(env, Range(address, f, b), doc) <==> FieldLeadsTo(env, f, Range(address, f, b), doc)
    ensures TreeClause(env, In(address, f, values), doc) <==> FieldLeadsTo(env, f, In(address, f, values), doc)
    ensures TreeClause(env, Exists(f), doc) <==> FieldLeadsTo(env, f, Exists(f), doc)
  {
    hide TreeLeaf;
  }

  // ----- match-all clauses -----

  ghost predicate HasStringMember(j: Json) {
    j.Obj? && exists k :: k in j.members && j.members[k].Str?
  }

  /** An empty term over one segment. */
  predicate EmptyOverOne(c: Clause) {
    (c.Contains? || c.Prefix?) && c.term.any == [] && c.term.value == [] && |c.term.field.segments| == 1
  }

  /** A clause that simplification drops holds on every object with a string member, unless its field is the root, where it never does. */
  lemma DroppedClausesHold(env: Env, c: Clause, doc: Json)
    requires ClauseMatchesAll(c) && env.lower([]) == [] && HasStringMember(doc)
    ensures TreeClause(env, c, doc) <==> FieldOf(c).segments != []
  {
    var segments := FieldOf(c).segments;
    if segments != [] {
      MatchAllOnTree(env, c, doc);
      var k :| k in doc.members && doc.members[k].Str?;
      var v := doc.members[k];
      assert v in Children(doc);
      assert v in Subtree(v);
      assert v in Step(doc, segments[0]);
    }
  }

  /** Of the empty terms over one segment these are all: any other segment misses the string member of some object. */
  lemma OnlyThoseAreDropped(env: Env, c: Clause)
    requires EmptyOverOne(c) && env.lower([]) == []
    ensures ClauseMatchesAll(c) <==> forall doc :: HasStringMember(doc) ==> TreeClause(env, c, doc)
  {
    var segment := c.term.field.segments[0];
    assert c.term.field.segments == [segment];
    if ClauseMatchesAll(c) {
      forall doc | HasStringMember(doc) ensures TreeClause(env, c, doc) {
        DroppedClausesHold(env, c, doc);
      }
    } else {
      var doc := Obj(map[segment + "x" := Str([])]);
      assert HasStringMember(doc) by {
        assert segment + "x" in doc.members;
      }
      OneStep(doc, segment);
      assert segment != segment + "x";
      assert Step(doc, segment) == {};
      assert !TreeClause(env, c, doc);
    }
  }

  /** A field of two or more segments, a term with a value or with alternatives, and every other kind of clause is kept. */
  lemma OthersAreKept(c: Clause)
    requires ClauseMatchesAll(c)
    ensures (c.Contains? || c.Prefix?) && c.term.any == [] && c.term.value == [] && |c.term.field.segments| <= 1
  {
  }
}
