/** The streaming decision against the tree evaluator. */
module Query {
  import opened Bytes
  import opened Json
  import opened Patterns
  import opened TreeEval
  import opened Selectors
  import opened StreamClauses
  import opened Programs
  import opened Engine
  import opened Scan

  // ----- what a scan sees, as a statement about paths -----

  /** Some node of the tree sits at a path the clause reaches and satisfies it. */
  ghost predicate StreamClause(env: Env, c: Clause, j: Json, prefix: Path, nullExists: bool) {
    exists q :: HitAt(env, c, j, prefix, q, nullExists)
  }

  ghost predicate HitAt(env: Env, c: Clause, j: Json, prefix: Path, q: Path, nullExists: bool) {
    At(j, q).Some? && Reaches(c, prefix + q) && StreamLeaf(env, c, At(j, q).value, nullExists)
  }

  lemma HitBelow(env: Env, c: Clause, j: Json, prefix: Path, s: Segment, q: Path, nullExists: bool)
    requires Child(j, s).Some?
    ensures HitAt(env, c, j, prefix, [s] + q, nullExists) <==> HitAt(env, c, Child(j, s).value, prefix + [s], q, nullExists)
  {
    assert ([s] + q)[1..] == q;
    assert prefix + ([s] + q) == prefix + [s] + q;
  }

  lemma HitHere(env: Env, c: Clause, d: Doc, prefix: Path, nullExists: bool)
    ensures HitAt(env, c, Decode(d), prefix, [], nullExists) <==> NodeHit(env, c, prefix, d, nullExists)
  {
    assert prefix + [] == prefix;
  }

  /** Scanning in document order sees exactly the nodes of the decoded tree. */
  lemma {:induction false} SeenIsStreamClause(env: Env, c: Clause, d: Doc, prefix: Path, nullExists: bool)
    requires UniqueKeys(d)
    ensures Seen(env, c, d, prefix, nullExists) <==> StreamClause(env, c, Decode(d), prefix, nullExists)
    decreases d
  {
    if Seen(env, c, d, prefix, nullExists) {
      var q := SeenIsHit(env, c, d, prefix, nullExists);
    }
    if StreamClause(env, c, Decode(d), prefix, nullExists) {
      var q :| HitAt(env, c, Decode(d), prefix, q, nullExists);
      HitIsSeen(env, c, d, prefix, q, nullExists);
    }
  }

  lemma LiftItem(env: Env, c: Clause, items: seq<Doc>, i: nat, prefix: Path, below: Path, nullExists: bool)
    requires i < |items| && HitAt(env, c, Decode(items[i]), prefix + [Index(i)], below, nullExists)
    ensures HitAt(env, c, Decode(DArr(items)), prefix, [Index(i)] + below, nullExists)
  {
    assert Child(Decode(DArr(items)), Index(i)) == Some(Decode(items[i]));
    HitBelow(env, c, Decode(DArr(items)), prefix, Index(i), below, nullExists);
  }

  lemma LiftMember(env: Env, c: Clause, members: seq<Member>, i: nat, prefix: Path, below: Path, nullExists: bool)
    requires UniqueKeys(DObj(members)) && i < |members|
    requires HitAt(env, c, Decode(members[i].value), prefix + [Key(members[i].key)], below, nullExists)
    ensures HitAt(env, c, Decode(DObj(members)), prefix, [Key(members[i].key)] + below, nullExists)
  {
    DecodeMember(members, i);
    assert Child(Decode(DObj(members)), Key(members[i].key)) == Some(Decode(members[i].value));
    HitBelow(env, c, Decode(DObj(members)), prefix, Key(members[i].key), below, nullExists);
  }

  lemma {:induction false} SeenIsHit(env: Env, c: Clause, d: Doc, prefix: Path, nullExists: bool) returns (q: Path)
    requires UniqueKeys(d) && Seen(env, c, d, prefix, nullExists)
    ensures HitAt(env, c, Decode(d), prefix, q, nullExists)
    decreases d
  {
    hide StreamLeaf, Reaches, HitAt;
    if NodeHit(env, c, prefix, d, nullExists) {
      HitHere(env, c, d, prefix, nullExists);
      return [];
    }
    match d
    case DArr(items) =>
      var i :| 0 <= i < |items| && Seen(env, c, items[i], prefix + [Index(i)], nullExists);
      var below := SeenIsHit(env, c, items[i], prefix + [Index(i)], nullExists);
      LiftItem(env, c, items, i, prefix, below, nullExists);
      q := [Index(i)] + below;
    case DObj(members) =>
      var i :| 0 <= i < |members| && Seen(env, c, members[i].value, prefix + [Key(members[i].key)], nullExists);
      var below := SeenIsHit(env, c, members[i].value, prefix + [Key(members[i].key)], nullExists);
      LiftMember(env, c, members, i, prefix, below, nullExists);
      q := [Key(members[i].key)] + below;
    case _ =>
  }

  lemma {:induction false} HitIsSeen(env: Env, c: Clause, d: Doc, prefix: Path, q: Path, nullExists: bool)
    requires UniqueKeys(d) && HitAt(env, c, Decode(d), prefix, q, nullExists)
    ensures Seen(env, c, d, prefix, nullExists)
    decreases q
  {
    if q == [] {
      HitHere(env, c, d, prefix, nullExists);
      return;
    }
    assert q == [q[0]] + q[1..];
    HitBelow(env, c, Decode(d), prefix, q[0], q[1..], nullExists);
    match d
    case DArr(items) =>
      HitIsSeen(env, c, items[q[0].index], prefix + [q[0]], q[1..], nullExists);
    case DObj(members) =>
      var i :| 0 <= i < |members| && members[i].key == q[0].key;
      DecodeMember(members, i);
      HitIsSeen(env, c, members[i].value, prefix + [q[0]], q[1..], nullExists);
    case _ =>
  }

  // ----- clause by clause -----

  /** A node on which the clause is read alike; a null under a term without a value must be one the walk returns. */
  ghost predicate AlikeAt(env: Env, c: Clause, q: Path, v: Json, nullExists: bool) {
    Alike(env, c, v, nullExists) && (ExistsOnly(c) && v == Null ==> Hits(Compile(FieldOf(c).segments), q))
  }

  /** Every node of the document that the clause reaches is read alike. */
  ghost predicate Neutral(env: Env, c: Clause, doc: Json, nullExists: bool) {
    forall q :: At(doc, q).Some? && Reaches(c, q) ==> AlikeAt(env, c, q, At(doc, q).value, nullExists)
  }

  /** A node the stream counts as a hit is a value of the tree's walk that satisfies the clause. */
  lemma HitIsReached(env: Env, c: Clause, doc: Json, q: Path, nullExists: bool)
    requires Compiles(c) && HitAt(env, c, doc, [], q, nullExists) && AlikeAt(env, c, q, At(doc, q).value, nullExists)
    ensures At(doc, q).value in ValuesAt({doc}, FieldOf(c).segments) && TreeLeaf(env, c, At(doc, q).value)
  {
    hide StreamLeaf, TreeLeaf, Alike, Matches, Hits, Compile;
    var segments, v := FieldOf(c).segments, At(doc, q).value;
    assert [] + q == q;
    LeavesAgree(env, c, v, nullExists);
    assert At(doc, q) == Some(v) && Matches(Compile(segments), q);
    if v == Null {
      NullsNeedNoValue(env, c);
      assert At(doc, q) == Some(Null) && Hits(Compile(segments), q);
      NullsAreReachedBelow(doc, segments);
    } else {
      ValuesAreMatchedNodes(doc, segments, v);
    }
  }

  lemma ClausesAgree(env: Env, c: Clause, doc: Json, nullExists: bool)
    requires Neutral(env, c, doc, nullExists) && Compiles(c)
    ensures StreamClause(env, c, doc, [], nullExists) <==> TreeClause(env, c, doc)
  {
    hide StreamLeaf, TreeLeaf, AlikeAt, Matches, Compile;
    var segments := FieldOf(c).segments;
    if q :| HitAt(env, c, doc, [], q, nullExists) {
      assert [] + q == q;
      HitIsReached(env, c, doc, q, nullExists);
    }
    if v :| v in ValuesAt({doc}, segments) && TreeLeaf(env, c, v) {
      var n, q := WalkIsSound({doc}, segments, v);
      assert AlikeAt(env, c, q, v, nullExists);
      AlikeIsAlike(env, c, q, v, nullExists);
      assert [] + q == q;
      assert HitAt(env, c, doc, [], q, nullExists);
    }
  }

  lemma AlikeIsAlike(env: Env, c: Clause, q: Path, v: Json, nullExists: bool)
    requires AlikeAt(env, c, q, v, nullExists) && Compiles(c)
    ensures StreamLeaf(env, c, v, nullExists) <==> TreeLeaf(env, c, v)
  {
    LeavesAgree(env, c, v, nullExists);
  }

  lemma NullsNeedNoValue(env: Env, c: Clause)
    ensures TreeLeaf(env, c, Null) ==> ExistsOnly(c)
  {
  }

  // ----- whole selectors -----

  lemma {:induction false} EvalCongruent(sel: Selector, f: Clause -> bool, g: Clause -> bool)
    requires forall c :: Occurs(c, sel) ==> f(c) == g(c)
    ensures Eval(sel, f) <==> Eval(sel, g)
    decreases sel
  {
    if sel.negated.Some? {
      assert forall c :: Occurs(c, sel.negated.value) ==> Occurs(c, sel);
      EvalCongruent(sel.negated.value, f, g);
    }
    forall s | s in sel.all ensures Eval(s, f) <==> Eval(s, g) {
      assert forall c :: Occurs(c, s) ==> Occurs(c, sel);
      EvalCongruent(s, f, g);
    }
    forall s | s in sel.any ensures Eval(s, f) <==> Eval(s, g) {
      assert forall c :: Occurs(c, s) ==> Occurs(c, sel);
      EvalCongruent(s, f, g);
    }
    assert forall c :: c in sel.clauses ==> f(c) == g(c);
  }

  ghost function StreamLeaves(env: Env, d: Doc, nullExists: bool): Clause -> bool {
    c => Seen(env, c, d, [], nullExists)
  }

  /** The decision on an object is the selector evaluated on what was seen. */
  lemma VerdictMeaning(e: Engine, d: Doc)
    requires e.Ready() && e.Linked() && OwnKeys(e.selector)
    ensures MatchProgram(e.program, SeenHits(e, d)) <==> Eval(e.selector, StreamLeaves(e.env, d, RootNullCounts(e)))
  {
    var hits := SeenHits(e, d);
    ProgramMeaning(e.selector, e.ids, hits);
    forall c | Occurs(c, e.selector) ensures HitLeaves(e.ids, hits)(c) == StreamLeaves(e.env, d, RootNullCounts(e))(c) {
      OwnClause(e, c);
    }
    EvalCongruent(e.selector, HitLeaves(e.ids, hits), StreamLeaves(e.env, d, RootNullCounts(e)));
  }

  /** Every clause the engine evaluates is read alike on this document. */
  ghost predicate AllNeutral(e: Engine, doc: Json) {
    forall c :: Occurs(c, e.selector) ==> Neutral(e.env, c, doc, RootNullCounts(e))
  }

  /** Simplified selectors that look empty are empty, so they hold of every document. */
  lemma SimplifiedEmpty(sel: Selector)
    requires IsEmpty(Simplify(sel))
    ensures Simplify(sel) == EMPTY
  {
    SimplifyNodeMeaning(sel, c => true);
  }

  lemma {:induction false} SimplifyOccurs(sel: Selector, c: Clause)
    requires Occurs(c, Simplify(sel))
    ensures Occurs(c, sel)
  {
    ConstantsHaveNoClauses(c);
    if SimplifyNode(sel).truth.Expression? {
      SimplifyNodeOccurs(sel, c);
    }
  }

  lemma ConstantsHaveNoClauses(c: Clause)
    ensures !Occurs(c, EMPTY) && !Occurs(c, ALWAYS_FALSE)
  {
    EmptyHasNoClauses(EMPTY);
    assert !Occurs(c, ALWAYS_FALSE.all[0]);
  }

  lemma {:induction false} SimplifyNodeOccurs(sel: Selector, c: Clause)
    requires SimplifyNode(sel).truth.Expression? && Occurs(c, SimplifyNode(sel).sel)
    ensures Occurs(c, sel)
    decreases sel
  {
    var out := SimplifyNode(sel).sel;
    if sel.any != [] {
      ChildOccurs(sel.any, c, out.any);
    } else {
      KeptClausesAre(sel.clauses);
      if out.negated.Some? && Occurs(c, out.negated.value) {
        SimplifyNodeOccurs(sel.negated.value, c);
      }
      if s :| s in out.all && Occurs(c, s) {
        ChildOccurs(sel.all, c, out.all);
      }
    }
  }

  lemma {:induction false} ChildOccurs(children: seq<Selector>, c: Clause, kept: seq<Selector>)
    requires kept == Kept(SimplifyAll(children)) && exists s :: s in kept && Occurs(c, s)
    ensures exists s :: s in children && Occurs(c, s)
    decreases children
  {
    KeptAre(SimplifyAll(children));
    var s :| s in kept && Occurs(c, s);
    var i :| 0 <= i < |children| && SimplifyAll(children)[i] == Simplified(s, Expression);
    SimplifyNodeOccurs(children[i], c);
  }

  /** Selector by selector: evaluated on what a scan sees, a selector says what it says of the tree. */
  lemma SeenDecidesSelector(env: Env, sel: Selector, d: Doc, nullExists: bool)
    requires UniqueKeys(d) && forall c :: Occurs(c, sel) ==> Neutral(env, c, Decode(d), nullExists) && Compiles(c)
    ensures Eval(sel, StreamLeaves(env, d, nullExists)) <==> Satisfies(env, sel, Decode(d))
  {
    forall c | Occurs(c, sel) ensures StreamLeaves(env, d, nullExists)(c) == TreeLeaves(env, Decode(d))(c) {
      SeenIsStreamClause(env, c, d, [], nullExists);
      ClausesAgree(env, c, Decode(d), nullExists);
    }
    EvalCongruent(sel, StreamLeaves(env, d, nullExists), TreeLeaves(env, Decode(d)));
  }

  /** The streaming decision on an object document is the tree evaluator's. */
  lemma StreamIsTree(e: Engine, sel: Selector, d: Doc)
    requires e.Ready() && e.Linked() && e.selector == Simplify(sel)
    requires (OwnKeys(sel) || OwnKeys(e.selector)) && d.DObj? && UniqueKeys(d)
    requires AllNeutral(e, Decode(d))
    ensures Verdict(e, d) <==> Satisfies(e.env, Simplify(sel), Decode(d))
  {
    if OwnKeys(sel) {
      OwnKeysKept(sel);
    }
    VerdictMeaning(e, d);
    forall c | Occurs(c, e.selector)
      ensures Neutral(e.env, c, Decode(d), RootNullCounts(e)) && Compiles(c)
    {
      OwnClause(e, c);
    }
    SeenDecidesSelector(e.env, e.selector, d, RootNullCounts(e));
    if e.emptySelector {
      SimplifiedEmpty(sel);
    }
  }

  /** Simplification keeps the tree's answer wherever the tree agrees that the match-all clauses hold. */
  lemma SimplifyKeepsAnswer(env: Env, sel: Selector, doc: Json)
    requires forall c :: Occurs(c, sel) && ClauseMatchesAll(c) ==> TreeClause(env, c, doc)
    ensures Satisfies(env, Simplify(sel), doc) <==> Satisfies(env, sel, doc)
  {
    var leaf := TreeLeaves(env, doc);
    SimplifyMeaning(sel, leaf);
    EvalCongruent(sel, WithMatchAll(leaf), leaf);
  }

  /** The table entry found under a clause's key is that clause, and it compiled. */
  lemma OwnClause(e: Engine, c: Clause)
    requires e.Ready() && e.Linked() && OwnKeys(e.selector) && Occurs(c, e.selector)
    ensures var i := e.ids[KeyOf(c)]; 0 <= i < |e.clauses| && e.clauses[i].clause == c
    ensures Compiles(c)
  {
    hide StreamLeaf, TermOk, MatchProgram, Compile;
    var i := e.ids[KeyOf(c)];
    assert KeyOf(e.clauses[i].clause) == KeyOf(c);
    assert Occurs(e.clauses[i].clause, e.selector);
    assert CompiledOk(e.env, e.clauses[i]);
  }

  lemma OwnKeysKept(sel: Selector)
    requires OwnKeys(sel)
    ensures OwnKeys(Simplify(sel))
  {
    forall c | Occurs(c, Simplify(sel)) ensures Occurs(c, sel) {
      SimplifyOccurs(sel, c);
    }
  }

  // ----- the premises are needed -----

  function Single(c: Clause): Selector {
    Selector([c], None, [], [])
  }

  function OneMember(k: string, d: Doc): Doc {
    DObj([Member(k, d)])
  }

  lemma SingleOccurs(c: Clause, d: Clause)
    ensures Occurs(d, Single(c)) <==> d == c
  {
  }

  lemma SingleEval(c: Clause, f: Clause -> bool)
    ensures Eval(Single(c), f) <==> f(c)
  {
  }

  /** The verdict of a single clause is whether the scan sees it. */
  lemma SingleVerdict(e: Engine, c: Clause, d: Doc)
    requires e.Ready() && e.Linked() && e.selector == Single(c) && d.DObj? && UniqueKeys(d)
    ensures Verdict(e, d) <==> StreamClause(e.env, c, Decode(d), [], RootNullCounts(e))
  {
    SingleKeys(c);
    VerdictMeaning(e, d);
    SingleEval(c, StreamLeaves(e.env, d, RootNullCounts(e)));
    SeenIsStreamClause(e.env, c, d, [], RootNullCounts(e));
  }

  lemma OneMemberDecoded(k: string, x: Doc)
    requires UniqueKeys(x)
    ensures UniqueKeys(OneMember(k, x)) && Decode(OneMember(k, x)) == Obj(map[k := Decode(x)])
  {
    var members := [Member(k, x)];
    assert members[..0] == [];
    assert DecodeMembers(members) == DecodeMembers([])[k := Decode(x)];
  }

  predicate PlainKey(k: string) {
    CompileToken(k) == Literal(k, false, 0)
  }

  lemma NotANumber(s: string)
    requires s != "" && s[0] != '+' && s[0] != '-' && !Patterns.IsDigit(s[0])
    ensures Atoi(s) == None
  {
    assert !Patterns.IsDigit(s[0]) && !AllDigits(s);
  }

  lemma LettersArePlain()
    ensures PlainKey("a") && PlainKey("b")
  {
    assert "a"[0] == 'a' && "b"[0] == 'b';
    NotANumber("a");
    NotANumber("b");
    assert CompileToken("a") == Literal("a", false, 0);
  }

  lemma TwoKeysReach(q: Path)
    ensures Matches(Compile(["a", "b"]), q) <==> q == [Key("a"), Key("b")]
  {
    LettersArePlain();
    var pattern := Compile(["a", "b"]);
    assert pattern[0] == Literal("a", false, 0) && pattern[1..] == Compile(["b"]);
    if q != [] {
      PlainKeyReaches("b", q[1..]);
      assert q == [q[0]] + q[1..];
    }
  }

  lemma PlainKeyReaches(k: string, q: Path)
    requires PlainKey(k)
    ensures Matches(Compile([k]), q) <==> q == [Key(k)]
  {
    var pattern := Compile([k]);
    assert pattern[0] == Literal(k, false, 0) && pattern[1..] == [];
    if Matches(pattern, q) {
      assert Matches(pattern[1..], q[1..]);
      assert q == [q[0]];
    }
  }

  lemma PlainKeyValues(k: string, v: Json)
    requires PlainKey(k)
    ensures ValuesAt({Obj(map[k := v])}, [k]) == {v}
  {
    var doc := Obj(map[k := v]);
    assert Step(doc, k) == {v};
    assert StepAll({doc}, k) == {v};
    assert [k][1..] == [];
  }

  lemma PlainKeyStream(env: Env, c: Clause, k: string, v: Json, n: bool)
    requires FieldOf(c).segments == [k] && PlainKey(k)
    ensures StreamClause(env, c, Obj(map[k := v]), [], n) <==> StreamLeaf(env, c, v, n)
  {
    hide StreamLeaf, Matches, Compile, PlainKey;
    var doc, q := Obj(map[k := v]), [Key(k)];
    assert q[1..] == [] && At(doc, q) == Some(v);
    PlainKeyReaches(k, q);
    assert [] + q == q;
    if StreamLeaf(env, c, v, n) {
      assert HitAt(env, c, doc, [], q, n);
    }
    if p :| HitAt(env, c, doc, [], p, n) {
      assert [] + p == p;
      PlainKeyReaches(k, p);
    }
  }

  lemma SingleCompiles(e: Engine, c: Clause)
    requires e.Ready() && e.Linked() && e.selector == Single(c)
    ensures Compiles(c)
  {
    hide Engine.Ready, Engine.Linked;
    SingleOccurs(c, c);
    SingleKeys(c);
    OwnClause(e, c);
  }

  /**
   Whole path, any engine: on a document whose one member the clause reaches, the streaming
   decision is the tree evaluator's exactly if the member's value is read alike.
   */
  lemma DiffersExactlyWhereNotAlike(e: Engine, c: Clause, k: string, x: Doc)
    requires e.Ready() && e.Linked() && e.selector == Single(c)
    requires FieldOf(c).segments == [k] && PlainKey(k) && UniqueKeys(x)
    ensures var d := OneMember(k, x);
      (Verdict(e, d) <==> Satisfies(e.env, e.selector, Decode(d))) <==> Alike(e.env, c, Decode(x), RootNullCounts(e))
  {
    hide Engine.Ready, Engine.Linked, StreamLeaf, TreeLeaf, Alike, Decode, StreamClause, Verdict, UniqueKeys, PlainKey, Compiles;
    var d, v, n := OneMember(k, x), Decode(x), RootNullCounts(e);
    OneMemberDecoded(k, x);
    SingleVerdict(e, c, d);
    SingleEval(c, TreeLeaves(e.env, Decode(d)));
    PlainKeyValues(k, v);
    PlainKeyStream(e.env, c, k, v, n);
    SingleCompiles(e, c);
    LeavesAgree(e.env, c, v, n);
  }

  lemma DedupTwo(x: Text, y: Text)
    requires x != y
    ensures Dedup([x, y]) == [x, y]
  {
    var none: seq<Text> := [];
    assert Dedup(none) == [];
    assert [x, y][..1] == [x] && [x][..0] == none;
    assert Dedup([x]) == [x];
  }

  /** Values that are not read alike: a folded eq, an empty needle among others, a numeric string in range. */
  lemma NotAlike(env: Env, nullExists: bool)
    requires env.lower([65]) == [97] && env.lower([97]) == [97]
    requires env.parseFloat([49]) == Some(1.0)
    ensures var field := Field("/a", ["a"]);
      && !Alike(env, Eq(Term(0, field, [65], [], true, true)), Str([97]), nullExists)
      && !Alike(env, Contains(Term(0, field, [], [[], [65]], false, true), false), Str([]), nullExists)
      && !Alike(env, Range(0, field, Bounds(Some(1.0), None, None, None)), Str([49]), nullExists)
      && PlainKey("a")
  {
    hide PlainKey;
    var field := Field("/a", ["a"]);
    var needles := Needles(env, Term(0, field, [], [[], [65]], false, true), false);
    assert needles == [[], [65]] && needles[0] in needles;
    DedupTwo([], [65]);
    LettersArePlain();
  }

  lemma SingleKeys(c: Clause)
    ensures OwnKeys(Single(c))
  {
    forall x, y | Occurs(x, Single(c)) && Occurs(y, Single(c)) ensures x == y {
      SingleOccurs(c, x);
      SingleOccurs(c, y);
    }
  }

  lemma PairOccurs(x: Clause, y: Clause, c: Clause)
    ensures Occurs(c, Selector([x, y], None, [], [])) <==> c == x || c == y
  {
  }

  lemma PairEval(x: Clause, y: Clause, f: Clause -> bool)
    ensures Eval(Selector([x, y], None, [], []), f) <==> f(x) && f(y)
  {
    assert x in [x, y] && y in [x, y];
  }

  /** A deep term without a value keeps nulls counting. */
  lemma OmittedKeepsNulls(e: Engine, y: Clause)
    requires e.Ready() && e.Linked() && OwnKeys(e.selector) && Occurs(y, e.selector)
    requires ExistsOnly(y) && |FieldOf(y).segments| == 2
    ensures RootNullCounts(e)
  {
    hide TermOk, StreamLeaf, MatchProgram, OwnKeys, Occurs, Compile;
    OwnClause(e, y);
    var i := e.ids[KeyOf(y)];
    assert CompiledOk(e.env, e.clauses[i]) && e.clauses[i].existsOnly;
    CompileKeepsLength(FieldOf(y).segments);
    assert |e.clauses[i].pattern| == 2;
  }

  lemma CompileKeepsLength(segments: seq<string>)
    ensures |Compile(segments)| == |segments|
  {
  }

  lemma DeepNull(v: Json)
    ensures var doc := Obj(map["a" := Obj(map["b" := v])]);
      At(doc, [Key("a"), Key("b")]) == Some(v) && ValuesAt({doc}, ["a", "b"]) == {v}
  {
    var inner := Obj(map["b" := v]);
    var doc := Obj(map["a" := inner]);
    var q := [Key("a"), Key("b")];
    assert q[1..] == [Key("b")] && q[1..][1..] == [];
    assert Child(doc, q[0]) == Some(inner) && At(inner, [Key("b")]) == Some(v);
    LettersArePlain();
    assert Step(doc, "a") == {inner};
    assert StepAll({doc}, "a") == {inner};
    assert ["a", "b"][1..] == ["b"];
    PlainKeyValues("b", v);
  }

  /** Beside a term without a value, exists counts a null in the stream and not in the tree. */
  lemma NullCountsBesideOmitted(e: Engine, x: Clause, y: Clause)
    requires x == Exists(Field("/a/b", ["a", "b"]))
    requires y == Contains(Term(0, Field("/a/b", ["a", "b"]), [], [], false, false), false)
    requires e.Ready() && e.Linked() && e.selector == Selector([x, y], None, [], [])
    ensures var d := OneMember("a", OneMember("b", DNull)); Verdict(e, d) && !Satisfies(e.env, e.selector, Decode(d))
  {
    hide Engine.Ready, Engine.Linked, Verdict, ValuesAt, Eval, Decode, UniqueKeys, StreamClause, Seen;
    var d := OneMember("a", OneMember("b", DNull));
    NullDecodes();
    OneMemberDecoded("b", DNull);
    OneMemberDecoded("a", OneMember("b", DNull));
    var doc := Decode(d);
    PairKeys(x, y);
    PairOccurs(x, y, y);
    OmittedKeepsNulls(e, y);
    PairVerdict(e, x, y, d);
    PairEval(x, y, TreeLeaves(e.env, doc));
    DeepNull(Null);
    DeepNullHit(e.env, x, true);
    DeepNullHit(e.env, y, true);
    assert !TreeLeaves(e.env, doc)(x);
  }

  lemma PairKeys(x: Clause, y: Clause)
    requires KeyOf(x) != KeyOf(y)
    ensures OwnKeys(Selector([x, y], None, [], []))
  {
    var sel := Selector([x, y], None, [], []);
    forall c, c' | Occurs(c, sel) && Occurs(c', sel) && KeyOf(c) == KeyOf(c') ensures c == c' {
      PairOccurs(x, y, c);
      PairOccurs(x, y, c');
    }
  }

  lemma PairVerdict(e: Engine, x: Clause, y: Clause, d: Doc)
    requires e.Ready() && e.Linked() && e.selector == Selector([x, y], None, [], []) && KeyOf(x) != KeyOf(y)
    requires d.DObj? && UniqueKeys(d)
    ensures Verdict(e, d) <==>
      StreamClause(e.env, x, Decode(d), [], RootNullCounts(e)) && StreamClause(e.env, y, Decode(d), [], RootNullCounts(e))
  {
    hide Engine.Ready, StreamClause, Seen, Decode;
    var n := RootNullCounts(e);
    PairKeys(x, y);
    VerdictMeaning(e, d);
    PairEval(x, y, StreamLeaves(e.env, d, n));
    SeenIsStreamClause(e.env, x, d, [], n);
    SeenIsStreamClause(e.env, y, d, [], n);
  }

  lemma DeepNullHit(env: Env, c: Clause, n: bool)
    requires FieldOf(c).segments == ["a", "b"] && StreamLeaf(env, c, Null, n)
    ensures StreamClause(env, c, Obj(map["a" := Obj(map["b" := Null])]), [], n)
  {
    hide StreamLeaf, Compile, Matches, ValuesAt;
    var q := [Key("a"), Key("b")];
    DeepNull(Null);
    TwoKeysReach(q);
    assert [] + q == q;
    assert HitAt(env, c, Obj(map["a" := Obj(map["b" := Null])]), [], q, n);
  }

  /** A term without a value sees the null at which its trailing descent starts; the tree evaluator does not. */
  lemma DroppedNullMatters(e: Engine, c: Clause)
    requires c == Contains(Term(0, Field("/a/...", ["a", "..."]), [], [], false, false), false)
    requires e.Ready() && e.Linked() && e.selector == Single(c)
    ensures var d := OneMember("a", DNull); Verdict(e, d) && !Satisfies(e.env, e.selector, Decode(d))
  {
    hide Compile, Matches, ValuesAt, MatchProgram, Eval, Decode, UniqueKeys;
    var d, q := OneMember("a", DNull), [Key("a")];
    NullDecodes();
    OneMemberDecoded("a", DNull);
    SingleVerdict(e, c, d);
    SingleEval(c, TreeLeaves(e.env, Decode(d)));
    DescentDropsNullStart();
    assert [] + q == q;
    assert HitAt(e.env, c, Decode(d), [], q, RootNullCounts(e));
  }

  lemma NullDecodes()
    ensures UniqueKeys(DNull) && Decode(DNull) == Null
  {
  }

  lemma LastValueStays(k: string, x: Doc, y: Doc)
    ensures Decode(DObj([Member(k, x), Member(k, y)])) == Obj(map[k := Decode(y)])
  {
    var members := [Member(k, x), Member(k, y)];
    assert members[..1] == [members[0]] && members[..1][..0] == [];
    assert DecodeMembers(members) == DecodeMembers(members[..1])[k := Decode(y)];
    assert DecodeMembers(members[..1]) == DecodeMembers([])[k := Decode(x)];
    assert DecodeMembers(members) == map[k := Decode(y)];
  }

  lemma FirstIsSeen(env: Env, c: Clause, k: string, x: Doc, y: Doc, n: bool)
    requires FieldOf(c).segments == [k] && PlainKey(k) && StreamLeaf(env, c, Decode(x), n)
    ensures Seen(env, c, DObj([Member(k, x), Member(k, y)]), [], n)
  {
    hide StreamLeaf;
    var members := [Member(k, x), Member(k, y)];
    PlainKeyReaches(k, [Key(k)]);
    assert [] + [Key(k)] == [Key(k)];
    assert NodeHit(env, c, [Key(k)], x, n);
    assert Seen(env, c, members[0].value, [] + [Key(members[0].key)], n);
    assert SeenMembers(env, c, members, [], n, 2);
  }

  /** With a repeated key the stream sees both members, the tree only the last. */
  lemma RepeatedKeyMatters(e: Engine, c: Clause)
    requires c == Eq(Term(0, Field("/a", ["a"]), [49], [], false, true))
    requires e.Ready() && e.Linked() && e.selector == Single(c)
    ensures var d := DObj([Member("a", DNum([49])), Member("a", DNum([50]))]);
      Verdict(e, d) && !Satisfies(e.env, e.selector, Decode(d))
  {
    hide Seen, ValuesAt, MatchProgram, Eval, Compile, PlainKey;
    var x, y := DNum([49]), DNum([50]);
    var d := DObj([Member("a", x), Member("a", y)]);
    LettersArePlain();
    FirstIsSeen(e.env, c, "a", x, y, RootNullCounts(e));
    SingleKeys(c);
    VerdictMeaning(e, d);
    SingleEval(c, StreamLeaves(e.env, d, RootNullCounts(e)));
    SingleEval(c, TreeLeaves(e.env, Decode(d)));
    LastValueStays("a", x, y);
    PlainKeyValues("a", Num([50]));
  }

  /** The tree evaluator on one member: containing "b" without being "b". */
  lemma ContainsWithoutEqual(env: Env, t: Term)
    requires t == Term(0, Field("/k", ["k"]), [98], [], false, true)
    ensures Satisfies(env, Selector([Contains(t, false)], Some(Selector([Eq(t)], None, [], [])), [], []), Obj(map["k" := Str([97, 98])]))
  {
    var inner, v := Selector([Eq(t)], None, [], []), Str([97, 98]);
    var doc := Obj(map["k" := v]);
    assert !IsDigit("k"[0]);
    assert Step(doc, "k") == {v};
    assert StepAll({doc}, "k") == {v};
    assert ["k"][1..] == [];
    assert ValuesAt({doc}, ["k"]) == ValuesAt({v}, []) == {v};
    assert Needles(env, t, false) == [[98]];
    assert [97, 98][1..2] == [98];
    assert OccursAt([97, 98], [98], 1);
    assert [98] in Needles(env, t, false);
    assert TreeLeaves(env, doc)(Contains(t, false)) && !TreeLeaves(env, doc)(Eq(t));
    assert !Eval(inner, TreeLeaves(env, doc)) by {
      assert Eq(t) in inner.clauses;
    }
  }

  /** Two clauses that share one term are one entry of the hit vector: no hits at all give the tree's answer. */
  lemma SharedTermMisreads(env: Env, ids: Ids, hits: seq<bool>)
    ensures var t := Term(0, Field("/k", ["k"]), [98], [], false, true);
      var sel := Selector([Contains(t, false)], Some(Selector([Eq(t)], None, [], [])), [], []);
      Satisfies(env, sel, Obj(map["k" := Str([97, 98])])) &&
      (AllIdentified(sel, ids) ==> !MatchProgram(BuildProgram(sel, ids), hits))
  {
    var t := Term(0, Field("/k", ["k"]), [98], [], false, true);
    ContainsWithoutEqual(env, t);
    var inner := Selector([Eq(t)], None, [], []);
    var sel := Selector([Contains(t, false)], Some(inner), [], []);
    if AllIdentified(sel, ids) {
      ProgramMeaning(sel, ids, hits);
      var leaf := HitLeaves(ids, hits);
      assert leaf(Contains(t, false)) == leaf(Eq(t));
      assert Contains(t, false) in sel.clauses;
      assert Eval(inner, leaf) <==> leaf(Eq(t));
    }
  }
}
