/** The streaming selector engine: clause table, hit vector, and observation of one node. */
module Engine {
  import opened Bytes
  import opened Json
  import opened Patterns
  import opened Dispatch
  import opened Selectors
  import opened StreamClauses
  import opened TermMatchers
  import opened Programs

  // ----- collecting the clauses -----

  /** Each key names one clause, and each clause is found under its key. */
  ghost predicate TableOk(env: Env, clauses: seq<Compiled>, ids: Ids) {
    && (forall i :: 0 <= i < |clauses| ==>
        CompiledOk(env, clauses[i]) && KeyOf(clauses[i].clause) in ids && ids[KeyOf(clauses[i].clause)] == i)
    && (forall k :: k in ids ==> 0 <= ids[k] < |clauses| && KeyOf(clauses[ids[k]].clause) == k)
  }

  class ClauseTable {
    const env: Env
    var clauses: seq<Compiled>
    var ids: Ids

    ghost predicate Valid()
      reads this
    {
      TableOk(env, clauses, ids)
    }

    constructor (env: Env)
      ensures Valid() && this.env == env && clauses == [] && ids == map[]
    {
      this.env := env;
      clauses, ids := [], map[];
    }

    /** Add one clause unless its key is already known; fails when it does not compile. */
    method AddClause(c: Clause) returns (ok: bool)
      requires Valid()
      modifies this
      ensures Valid()
      ensures old(clauses) <= clauses && old(ids.Keys) <= ids.Keys
      ensures ok ==> KeyOf(c) in ids
      ensures !ok ==> !Compiles(c)
      ensures forall i :: |old(clauses)| <= i < |clauses| ==> clauses[i].clause == c
    {
      hide CompiledOk, Compiles;
      if KeyOf(c) in ids {
        return true;
      }
      var compiled := CompileClause(env, c);
      if compiled.None? {
        return false;
      }
      ids := ids[KeyOf(c) := |clauses|];
      clauses := clauses + [compiled.value];
      return true;
    }

    /** Walk the selector: its own clauses, then the negated child, the and-children, the or-children. */
    method Collect(sel: Selector) returns (ok: bool)
      requires Valid()
      modifies this
      ensures Valid() && Extends(old(clauses), old(ids), clauses, ids, sel)
      ensures ok ==> AllIdentified(sel, ids)
      ensures !ok ==> SomeDoesNotCompile(sel)
      ensures old(clauses) == [] && OwnKeys(sel) ==> (ok <==> !SomeDoesNotCompile(sel))
      decreases sel
    {
      hide TableOk;
      ok := CollectOwn(sel.clauses, sel);
      if !ok {
        return;
      }
      if sel.negated.Some? {
        ok := Collect(sel.negated.value);
        if !ok {
          return;
        }
      }
      ok := CollectChildren(sel.all, sel);
      if !ok {
        return;
      }
      ok := CollectChildren(sel.any, sel);
      if ok && old(clauses) == [] && OwnKeys(sel) {
        TableCompiles(env, clauses, ids, sel);
      }
    }

    method CollectOwn(own: seq<Clause>, ghost parent: Selector) returns (ok: bool)
      requires Valid() && own == parent.clauses
      modifies this
      ensures Valid() && Extends(old(clauses), old(ids), clauses, ids, parent)
      ensures ok ==> forall c :: c in own ==> KeyOf(c) in ids
      ensures !ok ==> SomeDoesNotCompile(parent)
    {
      for i := 0 to |own|
        invariant Valid() && Extends(old(clauses), old(ids), clauses, ids, parent)
        invariant forall c :: c in own[..i] ==> KeyOf(c) in ids
      {
        assert own[..i + 1] == own[..i] + [own[i]];
        assert own[i] in parent.clauses;
        ok := AddClause(own[i]);
        if !ok {
          return;
        }
      }
      assert own[..|own|] == own;
      return true;
    }

    method CollectChildren(children: seq<Selector>, ghost parent: Selector) returns (ok: bool)
      requires Valid() && forall s :: s in children ==> s in parent.all || s in parent.any
      modifies this
      ensures Valid() && Extends(old(clauses), old(ids), clauses, ids, parent)
      ensures ok ==> forall s :: s in children ==> AllIdentified(s, ids)
      ensures !ok ==> SomeDoesNotCompile(parent)
      decreases children
    {
      for i := 0 to |children|
        invariant Valid() && Extends(old(clauses), old(ids), clauses, ids, parent)
        invariant forall s :: s in children[..i] ==> AllIdentified(s, ids)
      {
        assert children[..i + 1] == children[..i] + [children[i]];
        ok := Collect(children[i]);
        if !ok {
          return;
        }
      }
      assert children[..|children|] == children;
      return true;
    }
  }

  /** A step of the collection: what was there stays, what is new comes from the selector. */
  ghost predicate Extends(clauses0: seq<Compiled>, ids0: Ids, clauses: seq<Compiled>, ids: Ids, sel: Selector) {
    && clauses0 <= clauses && ids0.Keys <= ids.Keys
    && forall i :: |clauses0| <= i < |clauses| ==> Occurs(clauses[i].clause, sel)
  }

  ghost predicate SomeDoesNotCompile(sel: Selector) {
    exists c :: Occurs(c, sel) && !Compiles(c)
  }

  /** A table that holds every clause of the selector and nothing else has compiled them all, if no two share a key. */
  lemma TableCompiles(env: Env, clauses: seq<Compiled>, ids: Ids, sel: Selector)
    requires TableOk(env, clauses, ids) && AllIdentified(sel, ids) && AllOccur(clauses, sel) && OwnKeys(sel)
    ensures !SomeDoesNotCompile(sel)
  {
    hide TermOk, Compile;
    forall c | Occurs(c, sel) ensures Compiles(c) {
      var i := ids[KeyOf(c)];
      assert KeyOf(clauses[i].clause) == KeyOf(c) && Occurs(clauses[i].clause, sel);
      assert CompiledOk(env, clauses[i]);
    }
  }

  // ----- what a node contributes -----

  ghost predicate Reaches(c: Clause, path: Path) {
    Matches(Compile(FieldOf(c).segments), path)
  }

  ghost predicate NodeHit(env: Env, c: Clause, path: Path, d: Doc, nullExists: bool) {
    Reaches(c, path) && StreamLeaf(env, c, Decode(d), nullExists)
  }

  /** Observation sees no content of a string: those are matched while they are read. */
  ghost predicate ObservedHit(env: Env, c: Clause, path: Path, d: Doc, nullExists: bool) {
    Reaches(c, path) && (if d.DStr? then ExistsOnly(c) || c.Exists? else StreamLeaf(env, c, Decode(d), nullExists))
  }

  /** The text of a scalar that observation is handed. */
  function ObservedText(d: Doc): Option<Text> {
    match d
    case DBool(b) => Some(if b then TRUE_TEXT else FALSE_TEXT)
    case DNum(l) => Some(l)
    case _ => None
  }

  /** A term that was given neither a value nor alternatives. */
  predicate AsksNothing(c: Clause) {
    (c.Contains? || c.Prefix?) && c.term.any == [] && c.term.value == [] && !c.term.valueSet
  }

  predicate LiteralTokens(pattern: Pattern) {
    forall t | t in pattern :: t.Literal?
  }

  /** The key of a pattern that is one plain object key. */
  function TopLevelKey(pattern: Pattern): Option<string> {
    if |pattern| == 1 && pattern[0].Literal? && !pattern[0].arrayOnly then Some(pattern[0].raw) else None
  }

  /** The key of a pattern that is a descent to one plain object key. */
  function RecursiveKey(pattern: Pattern): Option<string> {
    if |pattern| == 2 && pattern[0].Recursive? && pattern[1].Literal? && !pattern[1].arrayOnly then Some(pattern[1].raw) else None
  }

  predicate SimpleSingleEq(sel: Selector) {
    |sel.clauses| == 1 && sel.clauses[0].Eq? && sel.negated.None? && sel.all == [] && sel.any == []
  }

  ghost predicate FieldsOk(fields: map<string, seq<int>>, clauses: seq<Compiled>) {
    FieldsUpTo(fields, clauses, |clauses|)
  }

  /** The first n clauses are plain top-level keys, filed under their keys. */
  ghost predicate FieldsUpTo(fields: map<string, seq<int>>, clauses: seq<Compiled>, n: nat)
    requires n <= |clauses|
  {
    && (forall i :: 0 <= i < n ==> TopLevelKey(clauses[i].pattern).Some?)
    && (forall k :: FieldOk(fields, clauses, n, k))
  }

  ghost predicate FieldOk(fields: map<string, seq<int>>, clauses: seq<Compiled>, n: nat, key: string)
    requires n <= |clauses|
  {
    var field := Lookup(fields, key);
    && (forall i :: i in field ==> 0 <= i < n && TopLevelKey(clauses[i].pattern) == Some(key))
    && (forall i :: 0 <= i < n && TopLevelKey(clauses[i].pattern) == Some(key) ==> i in field)
  }

  class Engine {
    const env: Env
    const selector: Selector
    const emptySelector: bool
    const clauses: seq<Compiled>
    const ids: Ids
    const program: Program
    const useDispatch: bool
    const dispatch: DispatchIndex
    const fastEq: bool
    const fastRecursiveEq: Option<string>
    const fastTopLevelEq: Option<string>
    const fastTopLevel: Option<map<string, seq<int>>>
    const hits: array<bool>

    /** Every clause is compiled, and the fast paths fit the clauses. */
    ghost predicate Ready() {
      && hits.Length == |clauses|
      && (forall i :: 0 <= i < |clauses| ==> CompiledOk(env, clauses[i]))
      && (emptySelector ==> clauses == [])
      && (fastEq || fastRecursiveEq.Some? || fastTopLevelEq.Some? ==> |clauses| == 1 && clauses[0].clause.Eq?)
      && (fastEq ==> LiteralTokens(clauses[0].pattern))
      && (fastRecursiveEq.Some? ==> clauses[0].pattern == [Recursive, Literal(fastRecursiveEq.value, false, 0)])
      && (fastTopLevelEq.Some? ==> clauses[0].pattern == [Literal(fastTopLevelEq.value, false, 0)])
      && (fastTopLevel.Some? ==> FieldsOk(fastTopLevel.value, clauses))
    }

    ghost predicate DispatchOk()
      reads dispatch
    {
      dispatch.Valid() && dispatch.filters == Tails(clauses)
    }

    /** The program and the clause table are those of the selector. */
    ghost predicate Linked() {
      && TableOk(env, clauses, ids) && AllIdentified(selector, ids)
      && program == BuildProgram(selector, ids) && emptySelector == IsEmpty(selector)
      && AllOccur(clauses, selector)
    }

    constructor (env: Env, selector: Selector, table: ClauseTable, dispatch: DispatchIndex, fastTopLevel: Option<map<string, seq<int>>>)
      requires table.Valid() && table.env == env && AllIdentified(selector, table.ids)
      requires IsEmpty(selector) ==> table.clauses == []
      requires AllOccur(table.clauses, selector)
      requires dispatch.Valid() && dispatch.filters == Tails(table.clauses)
      requires fastTopLevel.Some? ==> FieldsOk(fastTopLevel.value, table.clauses)
      ensures Ready() && DispatchOk() && Linked()
      ensures this.env == env && this.selector == selector && this.dispatch == dispatch && this.clauses == table.clauses
      ensures fresh(hits) && forall i :: 0 <= i < hits.Length ==> !hits[i]
    {
      this.env, this.selector, this.emptySelector := env, selector, IsEmpty(selector);
      this.clauses, this.ids, this.program := table.clauses, table.ids, BuildProgram(selector, table.ids);
      this.useDispatch := |table.clauses| > 4;
      this.dispatch := dispatch;
      var single := SimpleSingleEq(selector) && |table.clauses| == 1 && table.clauses[0].clause.Eq?;
      this.fastEq := single && LiteralTokens(table.clauses[0].pattern);
      this.fastRecursiveEq := if single then RecursiveKey(table.clauses[0].pattern) else None;
      this.fastTopLevelEq := if single then TopLevelKey(table.clauses[0].pattern) else None;
      this.fastTopLevel := fastTopLevel;
      this.hits := new bool[|table.clauses|](_ => false);
      new;
      if single {
        FastPatterns(clauses[0].clause);
      }
    }

    /** Whether a null counts for exists clauses: only when some omitted-value term keeps nulls observed. */
    predicate HasExistsLike() {
      exists i | 0 <= i < |clauses| :: clauses[i].existsOnly
    }

    /** In the terms of the clauses: some contains or prefix term was given no value at all. */
    lemma NullsCount()
      requires forall i :: 0 <= i < |clauses| ==> CompiledOk(env, clauses[i])
      ensures HasExistsLike() <==> exists i :: 0 <= i < |clauses| && AsksNothing(clauses[i].clause)
    {
      hide TermOk, Compile;
    }

    predicate HasTerms() {
      exists i | 0 <= i < |clauses| :: clauses[i].body.TermClause?
    }

    predicate HasRanges() {
      exists i | 0 <= i < |clauses| :: clauses[i].body.RangeClause?
    }

    predicate HasIns() {
      exists i | 0 <= i < |clauses| :: clauses[i].body.InClause?
    }

    predicate HasExists() {
      exists i | 0 <= i < |clauses| :: clauses[i].body.ExistsClause?
    }

    method Reset()
      modifies hits
      ensures forall i :: 0 <= i < hits.Length ==> !hits[i]
    {
      for i := 0 to hits.Length
        invariant forall k :: 0 <= k < i ==> !hits[k]
      {
        hits[i] := false;
      }
    }

    // ----- the verdict -----

    method Run(p: Program) returns (matched: bool)
      ensures matched <==> MatchProgram(p, hits[..])
      decreases p
    {
      if |p.any| > 0 {
        for i := 0 to |p.any|
          invariant forall b :: b in p.any[..i] ==> !MatchProgram(b, hits[..])
        {
          assert p.any[..i + 1] == p.any[..i] + [p.any[i]];
          var branch := Run(p.any[i]);
          if branch {
            return true;
          }
        }
        assert p.any[..|p.any|] == p.any;
        return false;
      }
      if p.negated.Some? {
        var inner := Run(p.negated.value);
        if inner {
          return false;
        }
      }
      for i := 0 to |p.required|
        invariant forall id :: id in p.required[..i] ==> IsHit(hits[..], id)
      {
        assert p.required[..i + 1] == p.required[..i] + [p.required[i]];
        var id := p.required[i];
        assert id in p.required;
        if id < 0 || id >= hits.Length || !hits[id] {
          return false;
        }
      }
      assert p.required[..|p.required|] == p.required;
      for i := 0 to |p.all|
        invariant forall c :: c in p.all[..i] ==> MatchProgram(c, hits[..])
      {
        assert p.all[..i + 1] == p.all[..i] + [p.all[i]];
        var child := Run(p.all[i]);
        if !child {
          assert p.all[i] in p.all;
          return false;
        }
      }
      assert p.all[..|p.all|] == p.all;
      return true;
    }

    method Forecast(p: Program) returns (f: Possibility)
      ensures f == FuturePossibility(p, hits[..])
      decreases p
    {
      if |p.any| > 0 {
        f := Possibility(false, true);
        for i := 0 to |p.any|
          invariant f == AnyPossibility(p.any[..i], hits[..])
        {
          assert p.any[..i + 1][..i] == p.any[..i];
          var branch := Forecast(p.any[i]);
          f := Possibility(f.canTrue || branch.canTrue, f.canFalse && branch.canFalse);
        }
        assert p.any[..|p.any|] == p.any;
        return;
      }
      var combined := Possibility(true, false);
      if p.negated.Some? {
        var inner := Forecast(p.negated.value);
        combined := CombineAnd(combined, Possibility(inner.canFalse, inner.canTrue));
      }
      ghost var start := combined;
      for i := 0 to |p.required|
        invariant combined == CombineAnd(start, RequiredPossibility(p.required[..i], hits[..]))
      {
        assert p.required[..i + 1][..i] == p.required[..i];
        var id := p.required[i];
        combined := CombineAnd(combined, ClausePossibility(id >= 0 && id < hits.Length && hits[id]));
      }
      assert p.required[..|p.required|] == p.required;
      start := combined;
      for i := 0 to |p.all|
        invariant combined == CombineAnd(start, AllPossibility(p.all[..i], hits[..]))
      {
        assert p.all[..i + 1][..i] == p.all[..i];
        var child := Forecast(p.all[i]);
        combined := CombineAnd(combined, child);
      }
      assert p.all[..|p.all|] == p.all;
      return combined;
    }

    method CanStillMatchObjectRoot() returns (possible: bool)
      requires Linked()
      ensures !possible ==> !FuturePossibility(program, hits[..]).canTrue
    {
      if emptySelector {
        return true;
      }
      var f := Forecast(program);
      return f.canTrue;
    }

    // ----- observing one node -----

    method Observe(path: Path, d: Doc)
      requires Ready() && DispatchOk()
      modifies hits
      ensures forall i :: 0 <= i < hits.Length ==>
        (hits[i] <==> old(hits[i]) || ObservedHit(env, clauses[i].clause, path, d, HasExistsLike()))
    {
      hide ObservedHit, NothingToSee, CompiledOk;
      if emptySelector {
        return;
      }
      if fastEq {
        ObserveFastEq(path, d);
        return;
      }
      if fastRecursiveEq.Some? {
        ObserveFastRecursiveEq(path, d, fastRecursiveEq.value);
        return;
      }
      if NothingToSee(d) {
        NothingIsSeen(path, d);
        return;
      }
      var todo := Candidates(path);
      UnreachedIsNotHit(path, d);
      for k := 0 to |todo|
        invariant forall i :: 0 <= i < hits.Length ==>
          (hits[i] <==> old(hits[i]) || (i in todo[..k] && ObservedHit(env, clauses[i].clause, path, d, HasExistsLike())))
      {
        assert todo[..k + 1] == todo[..k] + [todo[k]] && todo[k] in todo;
        ObserveClause(todo[k], path, d);
      }
      assert todo[..|todo|] == todo;
    }

    lemma UnreachedIsNotHit(path: Path, d: Doc)
      ensures forall i :: 0 <= i < |clauses| && !Reaches(clauses[i].clause, path) ==>
        !ObservedHit(env, clauses[i].clause, path, d, HasExistsLike())
    {
      hide StreamLeaf, Reaches;
    }

    /** The early exits by kind of value. */
    predicate NothingToSee(d: Doc) {
      match d
      case DObj(_) => !HasExists() && !HasExistsLike()
      case DArr(_) => !HasExists() && !HasExistsLike()
      case DNull => !HasExistsLike()
      case DBool(_) => !HasTerms() && !HasIns() && !HasExists()
      case _ => !HasTerms() && !HasIns() && !HasRanges() && !HasExists()
    }

    lemma NothingIsSeen(path: Path, d: Doc)
      requires Ready() && NothingToSee(d)
      ensures forall i :: 0 <= i < |clauses| ==> !ObservedHit(env, clauses[i].clause, path, d, HasExistsLike())
    {
      hide Ready, CompiledOk;
      forall i | 0 <= i < |clauses| ensures !ObservedHit(env, clauses[i].clause, path, d, HasExistsLike()) {
        ClauseIsNotSeen(i, path, d);
      }
    }

    lemma ClauseIsNotSeen(i: int, path: Path, d: Doc)
      requires Ready() && NothingToSee(d) && 0 <= i < |clauses|
      ensures !ObservedHit(env, clauses[i].clause, path, d, HasExistsLike())
    {
      hide TermOk, StreamString, Compile;
      assert CompiledOk(env, clauses[i]);
    }

    lemma ReachedTails(path: Path)
      requires Ready()
      ensures forall i :: 0 <= i < |clauses| && Reaches(clauses[i].clause, path) ==> TailMatches(clauses[i].tail, path)
    {
      forall i | 0 <= i < |clauses| && Reaches(clauses[i].clause, path) ensures TailMatches(clauses[i].tail, path) {
        assert CompiledOk(env, clauses[i]);
        TailFilterIsSound(clauses[i].pattern, path);
      }
    }

    /** The clauses whose tail filter accepts the path, found through the index or by a scan. */
    method Candidates(path: Path) returns (todo: seq<int>)
      requires Ready() && DispatchOk()
      ensures forall i :: i in todo ==> 0 <= i < |clauses|
      ensures forall i, j :: 0 <= i < j < |todo| ==> todo[i] != todo[j]
      ensures forall i :: 0 <= i < |clauses| && Reaches(clauses[i].clause, path) ==> i in todo
    {
      hide Engine.Ready, DispatchIndex.Valid;
      ReachedTails(path);
      if useDispatch {
        var specific, unfiltered := dispatch.Candidates(path);
        todo := specific + unfiltered;
      } else {
        todo := [];
        for i := 0 to |clauses|
          invariant forall k :: k in todo <==> 0 <= k < i && TailMatches(clauses[k].tail, path)
          invariant forall j, k :: 0 <= j < k < |todo| ==> todo[j] != todo[k]
        {
          if TailMatches(clauses[i].tail, path) {
            todo := todo + [i];
          }
        }
      }
    }

    method ClauseMatchesPath(i: int, path: Path) returns (matched: bool)
      requires Ready() && 0 <= i < |clauses|
      ensures matched <==> Reaches(clauses[i].clause, path)
    {
      matched := MatchesKnownRecursive(clauses[i].pattern, path, clauses[i].info);
    }

    lemma ClauseReady(i: int)
      requires Ready() && 0 <= i < |clauses|
      ensures hits.Length == |clauses| && CompiledOk(env, clauses[i])
    {
    }

    method ObserveClause(i: int, path: Path, d: Doc)
      requires Ready() && 0 <= i < |clauses| && !NothingToSee(d)
      modifies hits
      ensures hits[i] <==> old(hits[i]) || ObservedHit(env, clauses[i].clause, path, d, HasExistsLike())
      ensures forall k :: 0 <= k < hits.Length && k != i ==> hits[k] == old(hits[k])
    {
      hide Engine.Ready, Reaches;
      ClauseReady(i);
      if hits[i] {
        return;
      }
      var reaches := ClauseMatchesPath(i, path);
      if !reaches {
        return;
      }
      var cc := clauses[i];
      match cc.body {
        case ExistsClause => hits[i] := true;
        case RangeClause(bounds) =>
          if d.DNum? && env.parseFloat(d.literal).Some? {
            hits[i] := InBounds(bounds, env.parseFloat(d.literal).value);
          }
        case InClause(values) =>
          if ObservedText(d).Some? {
            hits[i] := ObservedText(d).value in values;
          }
        case TermClause(_) =>
          if cc.existsOnly {
            hits[i] := true;
          } else if ObservedText(d).Some? {
            var verdict := StreamClauses.MatchCandidate(env, cc, ObservedText(d).value);
            hits[i] := verdict;
          }
      }
    }

    /** The single-eq path: no general matching at all. */
    method ObserveFastEq(path: Path, d: Doc)
      requires Ready() && fastEq
      modifies hits
      ensures hits[0] <==> old(hits[0]) || ObservedHit(env, clauses[0].clause, path, d, HasExistsLike())
    {
      EqObserved(env, clauses[0], path, d, HasExistsLike());
      if hits[0] {
        return;
      }
      var matched := LiteralPathMatches(clauses[0].pattern, path);
      if matched {
        CompareEq(d);
      }
    }

    method ObserveFastRecursiveEq(path: Path, d: Doc, key: string)
      requires Ready() && fastRecursiveEq == Some(key)
      modifies hits
      ensures hits[0] <==> old(hits[0]) || ObservedHit(env, clauses[0].clause, path, d, HasExistsLike())
    {
      EqObserved(env, clauses[0], path, d, HasExistsLike());
      RecursiveKeyIsTail(key, path);
      if hits[0] || !TailMatches(ObjectKey(key), path) {
        return;
      }
      CompareEq(d);
    }

    method CompareEq(d: Doc)
      requires hits.Length == |clauses| == 1 && clauses[0].clause.Eq? && !hits[0]
      modifies hits
      ensures hits[0] <==> EqHolds(env, clauses[0], d)
    {
      if ObservedText(d).Some? {
        hits[0] := Fold(env, clauses[0].ignoreCase, ObservedText(d).value)
          == Fold(env, clauses[0].ignoreCase, clauses[0].clause.term.value);
      }
    }

    // ----- strings -----

    ghost predicate NeedsText(i: int)
      requires 0 <= i < |clauses|
    {
      (clauses[i].body.TermClause? && !clauses[i].existsOnly) || clauses[i].body.InClause?
    }

    /** Whether some pending clause has to see the string's content. */
    method StringValueNeeded(path: Path) returns (needed: bool)
      requires Ready() && DispatchOk()
      ensures needed <==> exists i :: 0 <= i < |clauses| && !hits[i] && NeedsText(i) && Reaches(clauses[i].clause, path)
    {
      hide TermOk, TailMatches, Matches;
      if emptySelector {
        return false;
      }
      if fastEq || fastRecursiveEq.Some? {
        needed := FastTextNeeded(path);
        return;
      }
      var todo := Candidates(path);
      needed := TextNeededAmong(todo, path);
    }

    /** The single eq clause of the fast paths. */
    method FastTextNeeded(path: Path) returns (needed: bool)
      requires Ready() && (fastEq || fastRecursiveEq.Some?)
      ensures |clauses| == 1 && (needed <==> !hits[0] && NeedsText(0) && Reaches(clauses[0].clause, path))
    {
      hide TermOk, TailMatches, Matches;
      assert CompiledOk(env, clauses[0]);
      if fastEq {
        if hits[0] {
          return false;
        }
        needed := LiteralPathMatches(clauses[0].pattern, path);
        return;
      }
      RecursiveKeyIsTail(fastRecursiveEq.value, path);
      return !hits[0] && TailMatches(ObjectKey(fastRecursiveEq.value), path);
    }

    method TextNeededAmong(todo: seq<int>, path: Path) returns (needed: bool)
      requires Ready() && forall i :: i in todo ==> 0 <= i < |clauses|
      ensures needed <==> exists i :: i in todo && !hits[i] && NeedsText(i) && Reaches(clauses[i].clause, path)
    {
      hide CompiledOk, Reaches;
      for k := 0 to |todo|
        invariant forall i :: i in todo[..k] && 0 <= i < |clauses| ==> hits[i] || !NeedsText(i) || !Reaches(clauses[i].clause, path)
      {
        assert todo[..k + 1] == todo[..k] + [todo[k]] && todo[k] in todo;
        var i := todo[k];
        if !hits[i] && ((clauses[i].body.TermClause? && !clauses[i].existsOnly) || clauses[i].body.InClause?) {
          var reaches := ClauseMatchesPath(i, path);
          if reaches {
            return true;
          }
        }
      }
      assert todo[..|todo|] == todo;
      return false;
    }

    /** The pending clauses at the path: those that read the text, and those that only note its presence. */
    method CollectStringClauses(path: Path) returns (reading: seq<int>, noting: seq<int>)
      requires Ready() && DispatchOk()
      ensures forall i :: i in reading <==>
        0 <= i < |clauses| && !hits[i] && (clauses[i].body.TermClause? || clauses[i].body.InClause?) && Reaches(clauses[i].clause, path)
      ensures forall i :: i in noting <==>
        0 <= i < |clauses| && !hits[i] && clauses[i].body.ExistsClause? && Reaches(clauses[i].clause, path)
    {
      reading, noting := [], [];
      if emptySelector {
        return;
      }
      var todo := Candidates(path);
      for k := 0 to |todo|
        invariant forall i :: i in reading <==>
          i in todo[..k] && 0 <= i < |clauses| && !hits[i] && (clauses[i].body.TermClause? || clauses[i].body.InClause?) && Reaches(clauses[i].clause, path)
        invariant forall i :: i in noting <==>
          i in todo[..k] && 0 <= i < |clauses| && !hits[i] && clauses[i].body.ExistsClause? && Reaches(clauses[i].clause, path)
      {
        assert todo[..k + 1] == todo[..k] + [todo[k]] && todo[k] in todo;
        var i := todo[k];
        if !hits[i] {
          var reaches := ClauseMatchesPath(i, path);
          if reaches {
            if clauses[i].body.TermClause? || clauses[i].body.InClause? {
              reading := reading + [i];
            } else if clauses[i].body.ExistsClause? {
              noting := noting + [i];
            }
          }
        }
      }
      assert todo[..|todo|] == todo;
    }

    /** Run the incremental matchers of the given clauses over one string. */
    method MatchStringClauses(reading: seq<int>, segments: seq<Text>)
      requires Ready() && CleanCuts(env, segments) && env.lower([]) == []
      requires forall i :: i in reading ==> 0 <= i < |clauses| && (clauses[i].body.TermClause? || clauses[i].body.InClause?)
      modifies hits
      ensures forall i :: 0 <= i < hits.Length ==>
        (hits[i] <==> old(hits[i]) || (i in reading && StreamLeaf(env, clauses[i].clause, Str(Flatten(segments)), HasExistsLike())))
    {
      hide CompiledOk, StreamLeaf;
      for k := 0 to |reading|
        invariant forall i :: 0 <= i < hits.Length ==>
          (hits[i] <==> old(hits[i]) || (i in reading[..k] && StreamLeaf(env, clauses[i].clause, Str(Flatten(segments)), HasExistsLike())))
      {
        assert reading[..k + 1] == reading[..k] + [reading[k]] && reading[k] in reading;
        MatchStringClause(reading[k], |reading| == 1, segments);
      }
      assert reading[..|reading|] == reading;
    }

    method MatchStringClause(i: int, alone: bool, segments: seq<Text>)
      requires Ready() && CleanCuts(env, segments) && env.lower([]) == []
      requires 0 <= i < |clauses| && (clauses[i].body.TermClause? || clauses[i].body.InClause?)
      modifies hits
      ensures hits[i] <==> old(hits[i]) || StreamLeaf(env, clauses[i].clause, Str(Flatten(segments)), HasExistsLike())
      ensures forall k :: 0 <= k < hits.Length && k != i ==> hits[k] == old(hits[k])
    {
      var cc := clauses[i];
      assert CompiledOk(env, cc);
      var matched;
      if cc.body.InClause? {
        matched := MatchSingleIn(cc.body.values, segments);
      } else {
        if alone {
          matched := MatchOneTerm(env, cc, segments);
        } else {
          matched := MatchTermByBytes(env, cc, segments);
        }
        if ExistsOnly(cc.clause) {
          ExistsOnlyAccepts(env, cc.clause, Flatten(segments));
        }
      }
      if matched {
        hits[i] := true;
      }
    }
  }

  predicate EqHolds(env: Env, cc: Compiled, d: Doc)
    requires cc.clause.Eq?
  {
    ObservedText(d).Some? && Fold(env, cc.ignoreCase, ObservedText(d).value) == Fold(env, cc.ignoreCase, cc.clause.term.value)
  }

  lemma EqObserved(env: Env, cc: Compiled, path: Path, d: Doc, nullExists: bool)
    requires CompiledOk(env, cc) && cc.clause.Eq?
    ensures ObservedHit(env, cc.clause, path, d, nullExists) <==> Matches(cc.pattern, path) && EqHolds(env, cc, d)
  {
  }

  // ----- building an engine -----

  method SimplifySelector(sel: Selector) returns (out: Selector)
    ensures out == Simplify(sel)
  {
    var r := SimplifySelectorNode(sel);
    match r.truth
    case AlwaysTrue => out := EMPTY;
    case AlwaysFalse => out := ALWAYS_FALSE;
    case Expression => out := r.sel;
  }

  method BuildDispatch(clauses: seq<Compiled>) returns (dispatch: DispatchIndex)
    ensures fresh(dispatch) && dispatch.Valid() && dispatch.filters == Tails(clauses)
  {
    dispatch := new DispatchIndex();
    for i := 0 to |clauses|
      invariant fresh(dispatch) && dispatch.Valid() && dispatch.filters == Tails(clauses)[..i]
    {
      assert Tails(clauses)[..i + 1] == Tails(clauses)[..i] + [clauses[i].tail];
      dispatch.Add(clauses[i].tail, i);
    }
  }

  lemma FieldAdd(table: map<string, seq<int>>, clauses: seq<Compiled>, i: nat, key: string)
    requires i < |clauses| && FieldsUpTo(table, clauses, i) && TopLevelKey(clauses[i].pattern) == Some(key)
    ensures FieldsUpTo(table[key := Lookup(table, key) + [i]], clauses, i + 1)
  {
    var updated, n := table[key := Lookup(table, key) + [i]], i + 1;
    forall k ensures FieldOk(updated, clauses, n, k) {
      assert FieldOk(table, clauses, i, k);
    }
  }

  /** The per-field program exists when every clause is one plain top-level key. */
  method BuildFastTopLevel(clauses: seq<Compiled>) returns (fields: Option<map<string, seq<int>>>)
    ensures fields.Some? ==> FieldsOk(fields.value, clauses)
    ensures fields.None? ==> clauses == [] || exists i :: 0 <= i < |clauses| && TopLevelKey(clauses[i].pattern).None?
  {
    if |clauses| == 0 {
      return None;
    }
    var table: map<string, seq<int>> := map[];
    for i := 0 to |clauses|
      invariant FieldsUpTo(table, clauses, i)
    {
      var key := TopLevelKey(clauses[i].pattern);
      if key.None? {
        return None;
      }
      FieldAdd(table, clauses, i, key.value);
      table := table[key.value := Lookup(table, key.value) + [i]];
    }
    return Some(table);
  }

  /** Compile a selector; refused only if some clause of its simplified form does not compile. */
  method NewEngine(env: Env, sel: Selector) returns (e: Option<Engine>)
    ensures e.Some? ==> e.value.Ready() && e.value.DispatchOk() && e.value.Linked()
    ensures e.Some? ==> e.value.env == env && e.value.selector == Simplify(sel) && fresh(e.value.hits)
    ensures e.None? ==> SomeDoesNotCompile(Simplify(sel))
    ensures OwnKeys(Simplify(sel)) ==> (e.None? <==> SomeDoesNotCompile(Simplify(sel)))
  {
    var selector := SimplifySelector(sel);
    var table := new ClauseTable(env);
    if IsEmpty(selector) {
      EmptyHasNoClauses(selector);
    } else {
      var ok := table.Collect(selector);
      if !ok {
        return None;
      }
    }
    var dispatch := BuildDispatch(table.clauses);
    var fields := BuildFastTopLevel(table.clauses);
    var engine := new Engine(env, selector, table, dispatch, fields);
    return Some(engine);
  }

  lemma {:induction false} EmptyHasNoClauses(sel: Selector)
    requires IsEmpty(sel)
    ensures forall c :: !Occurs(c, sel)
  {
    if sel.negated.Some? {
      EmptyHasNoClauses(sel.negated.value);
    }
  }

  /** Literal tokens only: the direct comparison of the single-eq path. */
  method LiteralPathMatches(pattern: Pattern, path: Path) returns (matched: bool)
    requires LiteralTokens(pattern)
    ensures matched <==> Matches(pattern, path)
  {
    forall i | 0 <= i < |pattern| ensures pattern[i].Literal? {
      assert pattern[i] in pattern;
    }
    matched := MatchesLinear(pattern, path);
  }

  function Tails(clauses: seq<Compiled>): seq<TailFilter> {
    seq(|clauses|, i requires 0 <= i < |clauses| => clauses[i].tail)
  }

  ghost predicate AllOccur(clauses: seq<Compiled>, sel: Selector) {
    forall i :: 0 <= i < |clauses| ==> Occurs(clauses[i].clause, sel)
  }

  /** A compiled literal that is not array-only carries index zero, so the fast keys determine their patterns. */
  lemma FastPatterns(c: Clause)
    ensures var p := Compile(FieldOf(c).segments);
      && (RecursiveKey(p).Some? ==> p == [Recursive, Literal(RecursiveKey(p).value, false, 0)])
      && (TopLevelKey(p).Some? ==> p == [Literal(TopLevelKey(p).value, false, 0)])
  {
    var p := Compile(FieldOf(c).segments);
    assert |p| == 1 ==> p == [p[0]];
    assert |p| == 2 ==> p == [p[0], p[1]];
  }
}
