/** Selectors, their evaluation on trees, and their simplification. */
module Selectors {
  import opened Bytes
  import opened Json
  import opened Patterns
  import opened TreeEval

  /** The library functions that stay uninterpreted: case folding and float parsing. */
  datatype Env = Env(lower: Text -> Text, parseFloat: Text -> Option<real>)

  /** A field as written, and the segments it splits into. */
  datatype Field = Field(raw: string, segments: seq<string>)

  /** The address is the term's identity: the engine keys its tables by pointer. */
  datatype Term = Term(address: nat, field: Field, value: Text, any: seq<Text>, ignoreCase: bool, valueSet: bool)

  datatype Bounds = Bounds(gte: Option<real>, gt: Option<real>, lte: Option<real>, lt: Option<real>)

  datatype Clause =
    | Eq(term: Term)
    | Contains(term: Term, forceIgnoreCase: bool)
    | Prefix(term: Term, forceIgnoreCase: bool)
    | Range(address: nat, field: Field, bounds: Bounds)
    | In(address: nat, field: Field, values: seq<Text>)
    | Exists(field: Field)

  /** The clauses of one node, its negated child, and its and/or children. */
  datatype Selector = Selector(clauses: seq<Clause>, negated: Option<Selector>, all: seq<Selector>, any: seq<Selector>)

  const EMPTY := Selector([], None, [], [])

  predicate IsEmpty(sel: Selector) {
    sel.clauses == [] && sel.all == [] && sel.any == [] && (sel.negated.None? || IsEmpty(sel.negated.value))
  }

  /** Evaluation over any interpretation of the clauses; or-children take precedence over everything else. */
  predicate Eval(sel: Selector, leaf: Clause -> bool) {
    if sel.any != [] then
      exists s | s in sel.any :: Eval(s, leaf)
    else
      && (sel.negated.Some? ==> !Eval(sel.negated.value, leaf))
      && (forall c | c in sel.clauses :: leaf(c))
      && (forall s | s in sel.all :: Eval(s, leaf))
  }

  // ----- clauses on trees -----

  function FieldOf(c: Clause): Field {
    match c
    case Eq(t) => t.field
    case Contains(t, _) => t.field
    case Prefix(t, _) => t.field
    case Range(_, f, _) => f
    case In(_, f, _) => f
    case Exists(f) => f
  }

  function ValueToString(v: Json): Option<Text> {
    match v
    case Str(t) => Some(t)
    case Num(l) => Some(l)
    case Bool(b) => Some(if b then TRUE_TEXT else FALSE_TEXT)
    case _ => None
  }

  function ValueToFloat(env: Env, v: Json): Option<real> {
    match v
    case Num(l) => env.parseFloat(l)
    case Str(t) => env.parseFloat(t)
    case _ => None
  }

  predicate HasBound(b: Bounds) {
    b.gte.Some? || b.gt.Some? || b.lte.Some? || b.lt.Some?
  }

  predicate InBounds(b: Bounds, x: real) {
    && (b.gte.Some? ==> x >= b.gte.value)
    && (b.gt.Some? ==> x > b.gt.value)
    && (b.lte.Some? ==> x <= b.lte.value)
    && (b.lt.Some? ==> x < b.lt.value)
  }

  function Fold(env: Env, ignoreCase: bool, t: Text): Text {
    if ignoreCase then env.lower(t) else t
  }

  /** A string term without a value only asserts that its path resolves. */
  predicate OmittedValue(t: Term) {
    t.any == [] && !t.valueSet && t.value == []
  }

  function Needles(env: Env, t: Term, ignoreCase: bool): seq<Text> {
    if t.any != [] then seq(|t.any|, i requires 0 <= i < |t.any| => Fold(env, ignoreCase, t.any[i]))
    else [Fold(env, ignoreCase, t.value)]
  }

  predicate StringTermHolds(env: Env, t: Term, ignoreCase: bool, v: Json, matcher: (Text, Text) -> bool) {
    OmittedValue(t) ||
    (ValueToString(v).Some? &&
     exists n | n in Needles(env, t, ignoreCase) :: matcher(Fold(env, ignoreCase, ValueToString(v).value), n))
  }

  /** One clause on one value, as the tree evaluator decides it. */
  predicate TreeLeaf(env: Env, c: Clause, v: Json) {
    match c
    case Eq(t) => ValueToString(v) == Some(t.value)
    case Contains(t, force) => StringTermHolds(env, t, force || t.ignoreCase, v, Bytes.Contains)
    case Prefix(t, force) => StringTermHolds(env, t, force || t.ignoreCase, v, Bytes.HasPrefix)
    case Range(_, _, b) => HasBound(b) && ValueToFloat(env, v).Some? && InBounds(b, ValueToFloat(env, v).value)
    case In(_, _, values) => ValueToString(v).Some? && ValueToString(v).value in values
    case Exists(_) => v != Null
  }

  predicate TreeClause(env: Env, c: Clause, doc: Json) {
    FieldOf(c).segments != [] && exists v | v in ValuesAt({doc}, FieldOf(c).segments) :: TreeLeaf(env, c, v)
  }

  function TreeLeaves(env: Env, doc: Json): Clause -> bool {
    c => TreeClause(env, c, doc)
  }

  /** Whether a document satisfies a selector, before any simplification. */
  predicate Satisfies(env: Env, sel: Selector, doc: Json) {
    Eval(sel, TreeLeaves(env, doc))
  }

  method MatchClause(env: Env, c: Clause, doc: Json) returns (matched: bool)
    ensures matched <==> TreeClause(env, c, doc)
  {
    var values, ok := ValuesAtPath(doc, FieldOf(c).segments);
    if !ok {
      return false;
    }
    for i := 0 to |values|
      invariant forall k :: 0 <= k < i ==> !TreeLeaf(env, c, values[k])
    {
      if TreeLeaf(env, c, values[i]) {
        assert values[i] in SetOf(values);
        return true;
      }
    }
    forall v | v in ValuesAt({doc}, FieldOf(c).segments) ensures !TreeLeaf(env, c, v) {
      assert v in SetOf(values);
    }
    return false;
  }

  method MatchSelector(env: Env, sel: Selector, doc: Json) returns (matched: bool)
    ensures matched <==> Satisfies(env, sel, doc)
    decreases sel
  {
    if |sel.any| > 0 {
      for i := 0 to |sel.any|
        invariant forall k :: 0 <= k < i ==> !Satisfies(env, sel.any[k], doc)
      {
        var branch := MatchSelector(env, sel.any[i], doc);
        if branch {
          return true;
        }
      }
      return false;
    }
    if sel.negated.Some? {
      var inner := MatchSelector(env, sel.negated.value, doc);
      if inner {
        assert Eval(sel.negated.value, TreeLeaves(env, doc));
        return false;
      }
    }
    for i := 0 to |sel.clauses|
      invariant forall k :: 0 <= k < i ==> TreeClause(env, sel.clauses[k], doc)
    {
      var holds := MatchClause(env, sel.clauses[i], doc);
      if !holds {
        assert sel.clauses[i] in sel.clauses && !TreeLeaves(env, doc)(sel.clauses[i]);
        return false;
      }
    }
    for i := 0 to |sel.all|
      invariant forall k :: 0 <= k < i ==> Satisfies(env, sel.all[k], doc)
    {
      var child := MatchSelector(env, sel.all[i], doc);
      if !child {
        return false;
      }
    }
    return true;
  }

  // ----- simplification -----

  datatype Truth = Expression | AlwaysTrue | AlwaysFalse

  datatype Simplified = Simplified(sel: Selector, truth: Truth)

  /** An empty string term over the root or over any child at all. */
  predicate TermMatchesAll(t: Term) {
    t.any == [] && t.value == [] &&
    (t.field.segments == [] || t.field.segments == ["*"] || t.field.segments == ["**"] || t.field.segments == ["..."])
  }

  predicate ClauseMatchesAll(c: Clause) {
    match c
    case Contains(t, _) => TermMatchesAll(t)
    case Prefix(t, _) => TermMatchesAll(t)
    case _ => false
  }

  function KeptClauses(clauses: seq<Clause>): seq<Clause> {
    if clauses == [] then []
    else
      var n := |clauses| - 1;
      KeptClauses(clauses[..n]) + (if ClauseMatchesAll(clauses[n]) then [] else [clauses[n]])
  }

  /** The simplified children that did not collapse to a constant. */
  function Kept(results: seq<Simplified>): seq<Selector> {
    if results == [] then []
    else
      var n := |results| - 1;
      Kept(results[..n]) + (if results[n].truth.Expression? then [results[n].sel] else [])
  }

  predicate SomeIs(results: seq<Simplified>, truth: Truth) {
    exists r | r in results :: r.truth == truth
  }

  function SimplifyAll(children: seq<Selector>): seq<Simplified> {
    seq(|children|, i requires 0 <= i < |children| => SimplifyNode(children[i]))
  }

  function SimplifyNode(sel: Selector): Simplified {
    if sel.any != [] then FinishAny(SimplifyAll(sel.any))
    else
      var inner := if sel.negated.Some? then SimplifyNode(sel.negated.value) else Simplified(EMPTY, AlwaysFalse);
      FinishAll(sel.clauses, inner, SimplifyAll(sel.all))
  }

  function FinishAny(results: seq<Simplified>): Simplified {
    if SomeIs(results, AlwaysTrue) then Simplified(EMPTY, AlwaysTrue)
    else if Kept(results) == [] then Simplified(EMPTY, AlwaysFalse)
    else Simplified(Selector([], None, [], Kept(results)), Expression)
  }

  function FinishAll(clauses: seq<Clause>, inner: Simplified, results: seq<Simplified>): Simplified {
    if inner.truth.AlwaysTrue? || SomeIs(results, AlwaysFalse) then Simplified(EMPTY, AlwaysFalse)
    else
      var out := Selector(KeptClauses(clauses), if inner.truth.Expression? then Some(inner.sel) else None, Kept(results), []);
      if IsEmpty(out) then Simplified(EMPTY, AlwaysTrue) else Simplified(out, Expression)
  }

  const ALWAYS_FALSE := Selector([], None, [Selector([], Some(EMPTY), [], [])], [])

  function Simplify(sel: Selector): Selector {
    match SimplifyNode(sel).truth
    case AlwaysTrue => EMPTY
    case AlwaysFalse => ALWAYS_FALSE
    case Expression => SimplifyNode(sel).sel
  }

  method SimplifySelectorNode(sel: Selector) returns (out: Simplified)
    ensures out == SimplifyNode(sel)
    decreases sel, 1
  {
    if |sel.any| > 0 {
      var branches, decided := SimplifyBranches(sel.any, AlwaysTrue);
      if decided {
        return Simplified(EMPTY, AlwaysTrue);
      }
      if |branches| == 0 {
        return Simplified(EMPTY, AlwaysFalse);
      }
      return Simplified(Selector([], None, [], branches), Expression);
    }
    var negated := None;
    if sel.negated.Some? {
      var inner := SimplifySelectorNode(sel.negated.value);
      match inner.truth {
        case AlwaysTrue => return Simplified(EMPTY, AlwaysFalse);
        case AlwaysFalse =>
        case Expression => negated := Some(inner.sel);
      }
    }
    var clauses := [];
    for i := 0 to |sel.clauses|
      invariant clauses == KeptClauses(sel.clauses[..i])
    {
      assert sel.clauses[..i + 1][..i] == sel.clauses[..i];
      if !ClauseMatchesAll(sel.clauses[i]) {
        clauses := clauses + [sel.clauses[i]];
      }
    }
    assert sel.clauses[..|sel.clauses|] == sel.clauses;
    var andClauses, decided := SimplifyBranches(sel.all, AlwaysFalse);
    if decided {
      return Simplified(EMPTY, AlwaysFalse);
    }
    var kept := Selector(clauses, negated, andClauses, []);
    if IsEmpty(kept) {
      return Simplified(EMPTY, AlwaysTrue);
    }
    return Simplified(kept, Expression);
  }

  /** The loop over children: stop at the first deciding one, otherwise keep the expressions. */
  method SimplifyBranches(children: seq<Selector>, stop: Truth) returns (kept: seq<Selector>, decided: bool)
    requires !stop.Expression?
    ensures decided <==> SomeIs(SimplifyAll(children), stop)
    ensures !decided ==> kept == Kept(SimplifyAll(children))
    decreases children, 0
  {
    kept := [];
    var results := SimplifyAll(children);
    for i := 0 to |children|
      invariant kept == Kept(results[..i])
      invariant !SomeIs(results[..i], stop)
    {
      assert results[..i + 1][..i] == results[..i] && results[i] == SimplifyNode(children[i]);
      var branch := SimplifySelectorNode(children[i]);
      if branch.truth == stop {
        assert results[i] in results;
        return [], true;
      }
      if branch.truth.Expression? {
        kept := kept + [branch.sel];
      }
    }
    assert results[..|children|] == results;
    return kept, false;
  }

  // ----- what simplification means -----

  function WithMatchAll(leaf: Clause -> bool): Clause -> bool {
    c => ClauseMatchesAll(c) || leaf(c)
  }

  lemma {:induction false} KeptClausesAre(clauses: seq<Clause>)
    ensures forall c :: c in KeptClauses(clauses) <==> c in clauses && !ClauseMatchesAll(c)
  {
    if clauses != [] {
      var n := |clauses| - 1;
      KeptClausesAre(clauses[..n]);
      assert clauses == clauses[..n] + [clauses[n]];
    }
  }

  lemma {:induction false} KeptAre(results: seq<Simplified>)
    ensures forall s :: s in Kept(results) <==> Simplified(s, Expression) in results
  {
    if results != [] {
      var n := |results| - 1;
      KeptAre(results[..n]);
      assert results == results[..n] + [results[n]];
    }
  }

  /** What a simplified node promises about the node it came from. */
  ghost predicate Faithful(sel: Selector, r: Simplified, leaf: Clause -> bool) {
    match r.truth
    case AlwaysTrue => Eval(sel, WithMatchAll(leaf))
    case AlwaysFalse => !Eval(sel, WithMatchAll(leaf))
    case Expression => (Eval(r.sel, leaf) <==> Eval(sel, WithMatchAll(leaf))) && !IsEmpty(r.sel)
  }

  ghost predicate AllFaithful(children: seq<Selector>, results: seq<Simplified>, leaf: Clause -> bool) {
    |children| == |results| && forall i :: 0 <= i < |children| ==> Faithful(children[i], results[i], leaf)
  }

  /**
   Simplification, exactly: the simplified node means, under any interpretation of the
   clauses, what the original means when match-all string clauses are taken as true.
   */
  lemma {:induction false} SimplifyNodeMeaning(sel: Selector, leaf: Clause -> bool)
    ensures Faithful(sel, SimplifyNode(sel), leaf)
    decreases sel
  {
    if sel.any != [] {
      SimplifyAllMeaning(sel.any, leaf);
      AnyMeaning(sel, SimplifyAll(sel.any), leaf);
    } else {
      SimplifyAllMeaning(sel.all, leaf);
      var inner := if sel.negated.Some? then SimplifyNode(sel.negated.value) else Simplified(EMPTY, AlwaysFalse);
      if sel.negated.Some? {
        SimplifyNodeMeaning(sel.negated.value, leaf);
      }
      AllMeaning(sel, inner, SimplifyAll(sel.all), leaf);
    }
  }

  lemma {:induction false} SimplifyAllMeaning(children: seq<Selector>, leaf: Clause -> bool)
    ensures AllFaithful(children, SimplifyAll(children), leaf)
    decreases children
  {
    forall i | 0 <= i < |children| ensures Faithful(children[i], SimplifyAll(children)[i], leaf) {
      SimplifyNodeMeaning(children[i], leaf);
    }
  }

  /** Children, results and kept expressions correspond. */
  lemma KeptCorrespond(children: seq<Selector>, results: seq<Simplified>, leaf: Clause -> bool)
    requires AllFaithful(children, results, leaf)
    ensures forall i :: 0 <= i < |children| ==> children[i] in children && Faithful(children[i], results[i], leaf)
    ensures forall i :: 0 <= i < |children| && results[i].truth.Expression? ==> results[i].sel in Kept(results)
    ensures forall s :: s in Kept(results) ==> exists i :: 0 <= i < |children| && results[i] == Simplified(s, Expression)
  {
    hide Faithful;
    KeptAre(results);
    forall i | 0 <= i < |children| && results[i].truth.Expression? ensures results[i].sel in Kept(results) {
      assert results[i] == Simplified(results[i].sel, Expression) && results[i] in results;
    }
  }

  /** The kept children hold somewhere when the children do. */
  lemma KeptSomewhere(children: seq<Selector>, results: seq<Simplified>, leaf: Clause -> bool)
    requires AllFaithful(children, results, leaf)
    ensures SomeIs(results, AlwaysTrue) ==> exists s :: s in children && Eval(s, WithMatchAll(leaf))
    ensures !SomeIs(results, AlwaysTrue) ==>
      ((exists s :: s in Kept(results) && Eval(s, leaf)) <==> (exists s :: s in children && Eval(s, WithMatchAll(leaf))))
  {
    hide Eval, Kept, WithMatchAll, IsEmpty;
    KeptCorrespond(children, results, leaf);
    if SomeIs(results, AlwaysTrue) {
      var i :| 0 <= i < |results| && results[i].truth.AlwaysTrue?;
      assert Faithful(children[i], results[i], leaf);
    }
    if s :| s in Kept(results) && Eval(s, leaf) {
      var i :| 0 <= i < |children| && results[i] == Simplified(s, Expression);
      assert Faithful(children[i], results[i], leaf) && Eval(children[i], WithMatchAll(leaf));
    }
    if s :| s in children && Eval(s, WithMatchAll(leaf)) {
      var i :| 0 <= i < |children| && children[i] == s;
      assert Faithful(children[i], results[i], leaf) && results[i] in results;
      assert results[i].truth.Expression? ==> results[i].sel in Kept(results) && Eval(results[i].sel, leaf);
    }
  }

  /** They hold everywhere when the children do. */
  lemma KeptEverywhere(children: seq<Selector>, results: seq<Simplified>, leaf: Clause -> bool)
    requires AllFaithful(children, results, leaf)
    ensures SomeIs(results, AlwaysFalse) ==> exists s :: s in children && !Eval(s, WithMatchAll(leaf))
    ensures !SomeIs(results, AlwaysFalse) ==>
      ((forall s :: s in Kept(results) ==> Eval(s, leaf)) <==> (forall s :: s in children ==> Eval(s, WithMatchAll(leaf))))
  {
    hide Eval, Kept, WithMatchAll, IsEmpty;
    KeptCorrespond(children, results, leaf);
    if SomeIs(results, AlwaysFalse) {
      var i :| 0 <= i < |results| && results[i].truth.AlwaysFalse?;
      assert Faithful(children[i], results[i], leaf);
    }
    if s :| s in Kept(results) && !Eval(s, leaf) {
      var i :| 0 <= i < |children| && results[i] == Simplified(s, Expression);
      assert Faithful(children[i], results[i], leaf) && !Eval(children[i], WithMatchAll(leaf));
    }
    if s :| s in children && !Eval(s, WithMatchAll(leaf)) {
      var i :| 0 <= i < |children| && children[i] == s;
      assert Faithful(children[i], results[i], leaf) && results[i] in results;
      assert results[i].truth.Expression? ==> results[i].sel in Kept(results) && !Eval(results[i].sel, leaf);
    }
  }

  lemma AnyMeaning(sel: Selector, results: seq<Simplified>, leaf: Clause -> bool)
    requires sel.any != [] && AllFaithful(sel.any, results, leaf)
    ensures Faithful(sel, FinishAny(results), leaf)
  {
    KeptSomewhere(sel.any, results, leaf);
  }

  lemma AllMeaning(sel: Selector, inner: Simplified, results: seq<Simplified>, leaf: Clause -> bool)
    requires sel.any == [] && AllFaithful(sel.all, results, leaf)
    requires if sel.negated.Some? then Faithful(sel.negated.value, inner, leaf) else inner == Simplified(EMPTY, AlwaysFalse)
    ensures Faithful(sel, FinishAll(sel.clauses, inner, results), leaf)
  {
    hide KeptClauses, Kept, ClauseMatchesAll;
    KeptEverywhere(sel.all, results, leaf);
    KeptClausesAre(sel.clauses);
    assert (forall c :: c in KeptClauses(sel.clauses) ==> leaf(c)) <==> (forall c :: c in sel.clauses ==> WithMatchAll(leaf)(c));
  }

  /** The meaning of the whole selector. */
  lemma SimplifyMeaning(sel: Selector, leaf: Clause -> bool)
    ensures Eval(Simplify(sel), leaf) <==> Eval(sel, WithMatchAll(leaf))
  {
    SimplifyNodeMeaning(sel, leaf);
    var never := ALWAYS_FALSE.all[0];
    assert Eval(EMPTY, leaf) && !Eval(never, leaf) && !Eval(ALWAYS_FALSE, leaf);
  }

  // ----- simplifying twice -----

  ghost predicate AllStable(results: seq<Simplified>) {
    forall r :: r in results && r.truth.Expression? ==> SimplifyNode(r.sel) == r
  }

  /** A node that simplifies to an expression is already simplified afterwards. */
  lemma {:induction false} SimplifyNodeIsStable(sel: Selector)
    ensures SimplifyNode(sel).truth.Expression? ==> SimplifyNode(SimplifyNode(sel).sel) == SimplifyNode(sel)
    decreases sel
  {
    if sel.any != [] {
      SimplifyAllIsStable(sel.any);
      FinishAnyIsStable(SimplifyAll(sel.any));
    } else {
      SimplifyAllIsStable(sel.all);
      var inner := if sel.negated.Some? then SimplifyNode(sel.negated.value) else Simplified(EMPTY, AlwaysFalse);
      if sel.negated.Some? {
        SimplifyNodeIsStable(sel.negated.value);
      }
      FinishAllIsStable(sel.clauses, inner, SimplifyAll(sel.all));
    }
  }

  lemma FinishAnyIsStable(results: seq<Simplified>)
    requires AllStable(results)
    ensures FinishAny(results).truth.Expression? ==> SimplifyNode(FinishAny(results).sel) == FinishAny(results)
  {
    KeptIsStable(results);
    var r := FinishAny(results);
    if r.truth.Expression? {
      assert SimplifyNode(r.sel) == FinishAny(SimplifyAll(Kept(results)));
    }
  }

  lemma FinishAllIsStable(clauses: seq<Clause>, inner: Simplified, results: seq<Simplified>)
    requires AllStable(results) && (inner.truth.Expression? ==> SimplifyNode(inner.sel) == inner)
    ensures FinishAll(clauses, inner, results).truth.Expression? ==>
      SimplifyNode(FinishAll(clauses, inner, results).sel) == FinishAll(clauses, inner, results)
  {
    KeptIsStable(results);
    KeptClausesIsStable(clauses);
    var r := FinishAll(clauses, inner, results);
    if r.truth.Expression? {
      var again := if inner.truth.Expression? then inner else Simplified(EMPTY, AlwaysFalse);
      assert SimplifyNode(r.sel) == FinishAll(KeptClauses(clauses), again, SimplifyAll(Kept(results)));
    }
  }

  lemma {:induction false} SimplifyAllIsStable(children: seq<Selector>)
    ensures AllStable(SimplifyAll(children))
    decreases children
  {
    forall i | 0 <= i < |children| && SimplifyNode(children[i]).truth.Expression?
      ensures SimplifyNode(SimplifyNode(children[i]).sel) == SimplifyNode(children[i])
    {
      SimplifyNodeIsStable(children[i]);
    }
  }

  lemma {:induction false} KeptClausesIsStable(clauses: seq<Clause>)
    ensures KeptClauses(KeptClauses(clauses)) == KeptClauses(clauses)
  {
    if clauses != [] {
      var n := |clauses| - 1;
      KeptClausesIsStable(clauses[..n]);
      var kept := KeptClauses(clauses);
      if ClauseMatchesAll(clauses[n]) {
        assert kept == KeptClauses(clauses[..n]);
      } else {
        assert kept == KeptClauses(clauses[..n]) + [clauses[n]];
        assert kept[..|kept| - 1] == KeptClauses(clauses[..n]);
        assert KeptClauses(kept) == KeptClauses(kept[..|kept| - 1]) + [clauses[n]];
      }
    }
  }

  lemma KeptIsStable(results: seq<Simplified>)
    requires AllStable(results)
    ensures Kept(SimplifyAll(Kept(results))) == Kept(results)
    ensures forall r :: r in SimplifyAll(Kept(results)) ==> r.truth.Expression?
  {
    KeptAre(results);
    var kept := Kept(results);
    forall i | 0 <= i < |kept| ensures SimplifyAll(kept)[i] == Simplified(kept[i], Expression) {
      assert kept[i] in kept;
    }
    AllKept(kept, SimplifyAll(kept));
  }

  lemma {:induction false} AllKept(sels: seq<Selector>, results: seq<Simplified>)
    requires |sels| == |results| && forall i :: 0 <= i < |sels| ==> results[i] == Simplified(sels[i], Expression)
    ensures Kept(results) == sels
  {
    if sels != [] {
      AllKept(sels[..|sels| - 1], results[..|sels| - 1]);
    }
  }

  lemma SimplifyIsIdempotent(sel: Selector)
    ensures Simplify(Simplify(sel)) == Simplify(sel)
  {
    SimplifyNodeIsStable(sel);
    assert SimplifyAll([]) == [];
    assert SimplifyNode(EMPTY) == Simplified(EMPTY, AlwaysTrue);
    var never := ALWAYS_FALSE.all[0];
    assert SimplifyNode(never) == Simplified(EMPTY, AlwaysFalse);
    assert SimplifyAll(ALWAYS_FALSE.all)[0] == SimplifyNode(never);
  }

  lemma OneStep(doc: Json, segment: string)
    ensures ValuesAt({doc}, [segment]) == Step(doc, segment)
  {
    assert StepAll({doc}, segment) == Step(doc, segment);
    assert [segment][1..] == [];
  }

  /**
   What the tree evaluator says of a match-all clause: it holds exactly where the field reaches a value,
   and, if the term was given an empty value and not none, one that reads as a string.
   */
  lemma MatchAllOnTree(env: Env, c: Clause, doc: Json)
    requires ClauseMatchesAll(c) && env.lower([]) == []
    ensures var segments := FieldOf(c).segments;
      TreeClause(env, c, doc) <==>
      segments != [] && exists v :: v in Step(doc, segments[0]) && (OmittedValue(c.term) || ValueToString(v).Some?)
  {
    var segments := FieldOf(c).segments;
    if segments != [] {
      assert segments == [segments[0]];
      OneStep(doc, segments[0]);
      forall v ensures TreeLeaf(env, c, v) <==> OmittedValue(c.term) || ValueToString(v).Some? {
        EmptyNeedleIsEverywhere(env, c, v);
      }
    }
  }

  lemma EmptyNeedleIsEverywhere(env: Env, c: Clause, v: Json)
    requires ClauseMatchesAll(c) && env.lower([]) == []
    ensures TreeLeaf(env, c, v) <==> OmittedValue(c.term) || ValueToString(v).Some?
  {
    var ignoreCase := c.forceIgnoreCase || c.term.ignoreCase;
    var needles := Needles(env, c.term, ignoreCase);
    assert needles == [[]] && needles[0] in needles;
    if ValueToString(v).Some? {
      var f := Fold(env, ignoreCase, ValueToString(v).value);
      assert OccursAt(f, [], 0) && HasPrefix(f, []);
    }
  }

  /** Documents on which it does not hold, although simplification takes it as true: no child, and no child that reads as a string. */
  lemma MatchAllDiffersFromTree(env: Env)
    ensures var c := Contains(Term(0, Field("/*", ["*"]), [], [], false, false), false);
      Simplify(Selector([c], None, [], [])) == EMPTY && !TreeClause(env, c, Obj(map[]))
    ensures var c := Contains(Term(0, Field("/*", ["*"]), [], [], false, true), false);
      env.lower([]) == [] ==> ClauseMatchesAll(c) && !TreeClause(env, c, Obj(map["a" := Obj(map[])]))
  {
    if env.lower([]) == [] {
      MatchAllOnTree(env, Contains(Term(0, Field("/*", ["*"]), [], [], false, true), false), Obj(map["a" := Obj(map[])]));
    }
    var c := Contains(Term(0, Field("/*", ["*"]), [], [], false, false), false);
    assert KeptClauses([c]) == KeptClauses([]) + [];
    assert SimplifyAll([]) == [];
    var step := StepAll({Obj(map[])}, "*");
    assert Step(Obj(map[]), "*") == {};
    assert step == {};
    assert ["*"][1..] == [];
    assert ValuesAt({Obj(map[])}, ["*"]) == step;
  }
}
