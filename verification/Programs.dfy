/** The boolean program over the hit vector, and the forecast that lets payload capture stop early. */
module Programs {
  import opened Json
  import opened Selectors

  /** How the engine identifies a clause: terms of all five string kinds share one table keyed by pointer. */
  datatype ClauseKey = TermKey(address: nat) | RangeKey(address: nat) | InKey(address: nat) | ExistsKey(field: string)

  function KeyOf(c: Clause): ClauseKey {
    match c
    case Eq(t) => TermKey(t.address)
    case Contains(t, _) => TermKey(t.address)
    case Prefix(t, _) => TermKey(t.address)
    case Range(address, _, _) => RangeKey(address)
    case In(address, _, _) => InKey(address)
    case Exists(f) => ExistsKey(f.raw)
  }

  /** The table a clause is filed in: string terms, ranges, in clauses, and existence by field. */
  ghost predicate SameTable(c: Clause, d: Clause) {
    || ((c.Eq? || c.Contains? || c.Prefix?) && (d.Eq? || d.Contains? || d.Prefix?))
    || (c.Range? && d.Range?) || (c.In? && d.In?) || (c.Exists? && d.Exists?)
  }

  function AddressOf(c: Clause): nat
    requires !c.Exists?
  {
    if c.Range? || c.In? then c.address else c.term.address
  }

  /** Two clauses are taken for one exactly if they are the same object of one table, or ask for the existence of one field. */
  lemma KeysTellClausesApart(c: Clause, d: Clause)
    ensures KeyOf(c) == KeyOf(d) <==> SameTable(c, d) && if c.Exists? then c.field.raw == d.field.raw else AddressOf(c) == AddressOf(d)
  {
  }

  type Ids = map<ClauseKey, int>

  datatype Program = Program(required: seq<int>, negated: Option<Program>, all: seq<Program>, any: seq<Program>)

  function RequiredIds(clauses: seq<Clause>, ids: Ids): seq<int> {
    if clauses == [] then []
    else
      var n := |clauses| - 1;
      RequiredIds(clauses[..n], ids) + (if KeyOf(clauses[n]) in ids then [ids[KeyOf(clauses[n])]] else [])
  }

  function BuildAll(children: seq<Selector>, ids: Ids): seq<Program> {
    seq(|children|, i requires 0 <= i < |children| => BuildProgram(children[i], ids))
  }

  function BuildProgram(sel: Selector, ids: Ids): Program {
    Program(
      RequiredIds(sel.clauses, ids),
      if sel.negated.Some? then Some(BuildProgram(sel.negated.value, ids)) else None,
      BuildAll(sel.all, ids),
      BuildAll(sel.any, ids))
  }

  predicate IsHit(hits: seq<bool>, id: int) {
    0 <= id < |hits| && hits[id]
  }

  predicate MatchProgram(p: Program, hits: seq<bool>) {
    if p.any != [] then
      exists b | b in p.any :: MatchProgram(b, hits)
    else
      && (p.negated.Some? ==> !MatchProgram(p.negated.value, hits))
      && (forall id | id in p.required :: IsHit(hits, id))
      && (forall c | c in p.all :: MatchProgram(c, hits))
  }

  /** Every clause of the selector, at any depth. */
  ghost predicate Occurs(c: Clause, sel: Selector) {
    || c in sel.clauses
    || (sel.negated.Some? && Occurs(c, sel.negated.value))
    || (exists s | s in sel.all :: Occurs(c, s))
    || (exists s | s in sel.any :: Occurs(c, s))
  }

  /** No two different clauses share the pointer the engine knows them by. */
  ghost predicate OwnKeys(sel: Selector) {
    forall c, d :: Occurs(c, sel) && Occurs(d, sel) && KeyOf(c) == KeyOf(d) ==> c == d
  }

  /** The clauses as the hit vector sees them. */
  function HitLeaves(ids: Ids, hits: seq<bool>): Clause -> bool {
    c => KeyOf(c) in ids && IsHit(hits, ids[KeyOf(c)])
  }

  ghost predicate AllIdentified(sel: Selector, ids: Ids) {
    forall c :: Occurs(c, sel) ==> KeyOf(c) in ids
  }

  lemma {:induction false} RequiredAre(clauses: seq<Clause>, ids: Ids)
    requires forall c :: c in clauses ==> KeyOf(c) in ids
    ensures forall id :: id in RequiredIds(clauses, ids) <==> exists c :: c in clauses && ids[KeyOf(c)] == id
  {
    if clauses != [] {
      var n := |clauses| - 1;
      RequiredAre(clauses[..n], ids);
      assert clauses == clauses[..n] + [clauses[n]];
    }
  }

  /** The compiled program decides what the selector says of the clauses' hits. */
  lemma {:induction false} ProgramMeaning(sel: Selector, ids: Ids, hits: seq<bool>)
    requires AllIdentified(sel, ids)
    ensures MatchProgram(BuildProgram(sel, ids), hits) <==> Eval(sel, HitLeaves(ids, hits))
    decreases sel
  {
    var p := BuildProgram(sel, ids);
    RequiredAre(sel.clauses, ids);
    if sel.negated.Some? {
      assert AllIdentified(sel.negated.value, ids);
      ProgramMeaning(sel.negated.value, ids, hits);
    }
    ChildrenMeaning(sel.all, ids, hits);
    ChildrenMeaning(sel.any, ids, hits);
    assert (forall id :: id in p.required ==> IsHit(hits, id)) <==> (forall c :: c in sel.clauses ==> HitLeaves(ids, hits)(c));
  }

  lemma {:induction false} ChildrenMeaning(children: seq<Selector>, ids: Ids, hits: seq<bool>)
    requires forall s :: s in children ==> AllIdentified(s, ids)
    ensures (exists b :: b in BuildAll(children, ids) && MatchProgram(b, hits)) <==> (exists s :: s in children && Eval(s, HitLeaves(ids, hits)))
    ensures (forall b :: b in BuildAll(children, ids) ==> MatchProgram(b, hits)) <==> (forall s :: s in children ==> Eval(s, HitLeaves(ids, hits)))
    decreases children
  {
    var programs := BuildAll(children, ids);
    forall i | 0 <= i < |children|
      ensures MatchProgram(programs[i], hits) <==> Eval(children[i], HitLeaves(ids, hits))
      ensures children[i] in children && programs[i] in programs
    {
      ProgramMeaning(children[i], ids, hits);
    }
  }

  // ----- the forecast -----

  datatype Possibility = Possibility(canTrue: bool, canFalse: bool)

  function CombineAnd(left: Possibility, right: Possibility): Possibility {
    Possibility(left.canTrue && right.canTrue, left.canFalse || right.canFalse)
  }

  function ClausePossibility(hit: bool): Possibility {
    if hit then Possibility(true, false) else Possibility(true, true)
  }

  function RequiredPossibility(required: seq<int>, hits: seq<bool>): Possibility {
    if required == [] then Possibility(true, false)
    else
      var n := |required| - 1;
      CombineAnd(RequiredPossibility(required[..n], hits), ClausePossibility(IsHit(hits, required[n])))
  }

  function AllPossibility(children: seq<Program>, hits: seq<bool>): Possibility {
    if children == [] then Possibility(true, false)
    else
      var n := |children| - 1;
      CombineAnd(AllPossibility(children[..n], hits), FuturePossibility(children[n], hits))
  }

  function AnyPossibility(children: seq<Program>, hits: seq<bool>): Possibility {
    if children == [] then Possibility(false, true)
    else
      var n := |children| - 1;
      var front, last := AnyPossibility(children[..n], hits), FuturePossibility(children[n], hits);
      Possibility(front.canTrue || last.canTrue, front.canFalse && last.canFalse)
  }

  /** Which verdicts can still come out if hits only ever turn on. */
  function FuturePossibility(p: Program, hits: seq<bool>): Possibility {
    if p.any != [] then AnyPossibility(p.any, hits)
    else
      var start := Possibility(true, false);
      var negated :=
        if p.negated.Some? then
          var inner := FuturePossibility(p.negated.value, hits);
          CombineAnd(start, Possibility(inner.canFalse, inner.canTrue))
        else start;
      CombineAnd(CombineAnd(negated, RequiredPossibility(p.required, hits)), AllPossibility(p.all, hits))
  }

  /** Hits only ever turn on. */
  ghost predicate Grows(hits: seq<bool>, later: seq<bool>) {
    |hits| == |later| && forall i :: 0 <= i < |hits| && hits[i] ==> later[i]
  }

  /** A verdict that a grown hit vector gives was forecast as possible. */
  ghost predicate Covers(f: Possibility, verdict: bool) {
    if verdict then f.canTrue else f.canFalse
  }

  lemma {:induction false} RequiredCovered(required: seq<int>, hits: seq<bool>, later: seq<bool>)
    requires Grows(hits, later)
    ensures Covers(RequiredPossibility(required, hits), forall id :: id in required ==> IsHit(later, id))
  {
    if required != [] {
      var n := |required| - 1;
      RequiredCovered(required[..n], hits, later);
      assert required == required[..n] + [required[n]];
    }
  }

  lemma {:induction false} AllCovered(children: seq<Program>, hits: seq<bool>, later: seq<bool>)
    requires Grows(hits, later)
    ensures Covers(AllPossibility(children, hits), forall c :: c in children ==> MatchProgram(c, later))
    decreases children
  {
    if children != [] {
      var n := |children| - 1;
      AllCovered(children[..n], hits, later);
      FutureCovers(children[n], hits, later);
      assert children == children[..n] + [children[n]];
    }
  }

  lemma {:induction false} AnyCovered(children: seq<Program>, hits: seq<bool>, later: seq<bool>)
    requires Grows(hits, later)
    ensures Covers(AnyPossibility(children, hits), exists c :: c in children && MatchProgram(c, later))
    decreases children
  {
    if children != [] {
      var n := |children| - 1;
      AnyCovered(children[..n], hits, later);
      FutureCovers(children[n], hits, later);
      assert children == children[..n] + [children[n]];
    }
  }

  /** The forecast is sound for every hit vector the run can still reach. */
  lemma {:induction false} FutureCovers(p: Program, hits: seq<bool>, later: seq<bool>)
    requires Grows(hits, later)
    ensures Covers(FuturePossibility(p, hits), MatchProgram(p, later))
    decreases p
  {
    if p.any != [] {
      AnyCovered(p.any, hits, later);
    } else {
      if p.negated.Some? {
        FutureCovers(p.negated.value, hits, later);
      }
      RequiredCovered(p.required, hits, later);
      AllCovered(p.all, hits, later);
    }
  }

  /** Once no match is possible, no later hit vector matches. */
  lemma NoLateMatch(p: Program, hits: seq<bool>, later: seq<bool>)
    requires Grows(hits, later) && !FuturePossibility(p, hits).canTrue
    ensures !MatchProgram(p, later)
  {
    FutureCovers(p, hits, later);
  }

  // ----- when the forecast is exact -----

  /** The hits the program's verdict reads. */
  function ReadIds(p: Program): set<int> {
    if p.any != [] then ChildIds(p.any)
    else
      (set id | id in p.required) + (if p.negated.Some? then ReadIds(p.negated.value) else {}) + ChildIds(p.all)
  }

  function ChildIds(children: seq<Program>): set<int> {
    if children == [] then {}
    else ChildIds(children[..|children| - 1]) + ReadIds(children[|children| - 1])
  }

  /** Every hit it reads exists, and no two of its parts read the same one. */
  predicate ReadOnce(p: Program, n: nat) {
    if p.any != [] then ChildrenReadOnce(p.any, n)
    else
      && (forall id | id in p.required :: 0 <= id < n)
      && (p.negated.Some? ==>
            ReadOnce(p.negated.value, n) && ReadIds(p.negated.value) !! (set id | id in p.required) + ChildIds(p.all))
      && (set id | id in p.required) !! ChildIds(p.all)
      && ChildrenReadOnce(p.all, n)
  }

  predicate ChildrenReadOnce(children: seq<Program>, n: nat) {
    children == [] ||
    var m := |children| - 1;
    ChildrenReadOnce(children[..m], n) && ReadOnce(children[m], n) && ChildIds(children[..m]) !! ReadIds(children[m])
  }

  /** The vectors agree on these hits. */
  ghost predicate SameAt(a: seq<bool>, b: seq<bool>, ids: set<int>) {
    |a| == |b| && forall i :: 0 <= i < |a| && i in ids ==> a[i] == b[i]
  }

  /** A vector that is the second one at these hits and the first elsewhere. */
  function Merge(a: seq<bool>, b: seq<bool>, ids: set<int>): (m: seq<bool>)
    requires |a| == |b|
    ensures |m| == |a| && SameAt(m, b, ids) && forall i :: 0 <= i < |a| && i !in ids ==> m[i] == a[i]
  {
    seq(|a|, i requires 0 <= i < |a| => if i in ids then b[i] else a[i])
  }

  lemma {:induction false} MatchReads(p: Program, a: seq<bool>, b: seq<bool>)
    requires SameAt(a, b, ReadIds(p))
    ensures MatchProgram(p, a) == MatchProgram(p, b)
    decreases p
  {
    if p.any != [] {
      ChildrenRead(p.any, a, b);
    } else {
      if p.negated.Some? {
        MatchReads(p.negated.value, a, b);
      }
      ChildrenRead(p.all, a, b);
      forall id | id in p.required ensures IsHit(a, id) == IsHit(b, id) {
        assert id in ReadIds(p);
      }
    }
  }

  lemma {:induction false} ChildrenRead(children: seq<Program>, a: seq<bool>, b: seq<bool>)
    requires SameAt(a, b, ChildIds(children))
    ensures forall c :: c in children ==> MatchProgram(c, a) == MatchProgram(c, b)
    decreases children
  {
    if children != [] {
      var n := |children| - 1;
      ChildrenRead(children[..n], a, b);
      MatchReads(children[n], a, b);
      assert children == children[..n] + [children[n]];
    }
  }

  /** A forecast verdict comes out of some vector that only turns on hits read there. */
  ghost predicate Turns(hits: seq<bool>, later: seq<bool>, ids: set<int>) {
    Grows(hits, later) && forall i :: 0 <= i < |hits| && i !in ids ==> later[i] == hits[i]
  }

  lemma {:induction false} RequiredReached(required: seq<int>, hits: seq<bool>, verdict: bool) returns (later: seq<bool>)
    requires forall id :: id in required ==> 0 <= id < |hits|
    requires Covers(RequiredPossibility(required, hits), verdict)
    ensures Turns(hits, later, set id | id in required) && (forall id :: id in required ==> IsHit(later, id)) == verdict
  {
    if verdict {
      return Merge(hits, seq(|hits|, _ => true), set id | id in required);
    }
    var id := RequiredUnhit(required, hits);
    assert !IsHit(hits, id);
    return hits;
  }

  lemma {:induction false} RequiredUnhit(required: seq<int>, hits: seq<bool>) returns (id: int)
    requires RequiredPossibility(required, hits).canFalse
    ensures id in required && !IsHit(hits, id)
  {
    var n := |required| - 1;
    if !IsHit(hits, required[n]) {
      return required[n];
    }
    id := RequiredUnhit(required[..n], hits);
  }

  lemma {:induction false} AllReached(children: seq<Program>, hits: seq<bool>, verdict: bool) returns (later: seq<bool>)
    requires ChildrenReadOnce(children, |hits|) && Covers(AllPossibility(children, hits), verdict)
    ensures Turns(hits, later, ChildIds(children)) && (forall c :: c in children ==> MatchProgram(c, later)) == verdict
    decreases children
  {
    if children == [] {
      return hits;
    }
    var n := |children| - 1;
    var front, last := children[..n], children[n];
    assert children == front + [last];
    if verdict {
      var x := AllReached(front, hits, true);
      var y := ForecastReached(last, hits, true);
      later := Merge(x, y, ReadIds(last));
      ChildrenRead(front, x, later);
      MatchReads(last, y, later);
    } else if FuturePossibility(last, hits).canFalse {
      later := ForecastReached(last, hits, false);
    } else {
      later := AllReached(front, hits, false);
    }
  }

  lemma {:induction false} AnyReached(children: seq<Program>, hits: seq<bool>, verdict: bool) returns (later: seq<bool>)
    requires ChildrenReadOnce(children, |hits|) && Covers(AnyPossibility(children, hits), verdict)
    ensures Turns(hits, later, ChildIds(children)) && (exists c :: c in children && MatchProgram(c, later)) == verdict
    decreases children
  {
    if children == [] {
      return hits;
    }
    var n := |children| - 1;
    var front, last := children[..n], children[n];
    assert children == front + [last];
    if !verdict {
      var x := AnyReached(front, hits, false);
      var y := ForecastReached(last, hits, false);
      later := Merge(x, y, ReadIds(last));
      ChildrenRead(front, x, later);
      MatchReads(last, y, later);
    } else if FuturePossibility(last, hits).canTrue {
      later := ForecastReached(last, hits, true);
    } else {
      later := AnyReached(front, hits, true);
    }
  }

  /** Negation first: the two parts are reached apart and merged. */
  lemma {:induction false} NodeReached(p: Program, hits: seq<bool>, verdict: bool) returns (later: seq<bool>)
    requires p.any == [] && ReadOnce(p, |hits|) && Covers(FuturePossibility(p, hits), verdict)
    ensures Turns(hits, later, ReadIds(p)) && MatchProgram(p, later) == verdict
    decreases p, 0
  {
    var ids := set id | id in p.required;
    if verdict {
      var x := RequiredReached(p.required, hits, true);
      var y := AllReached(p.all, hits, true);
      later := Merge(x, y, ChildIds(p.all));
      ChildrenRead(p.all, y, later);
      if p.negated.Some? {
        var without := later;
        var z := ForecastReached(p.negated.value, hits, false);
        later := Merge(without, z, ReadIds(p.negated.value));
        MatchReads(p.negated.value, z, later);
        ChildrenRead(p.all, without, later);
      }
      forall id | id in p.required ensures IsHit(later, id) {
        assert id in ids && IsHit(x, id);
      }
    } else if RequiredPossibility(p.required, hits).canFalse {
      later := RequiredReached(p.required, hits, false);
    } else if AllPossibility(p.all, hits).canFalse {
      later := AllReached(p.all, hits, false);
    } else {
      later := ForecastReached(p.negated.value, hits, true);
    }
  }

  lemma {:induction false} ForecastReached(p: Program, hits: seq<bool>, verdict: bool) returns (later: seq<bool>)
    requires ReadOnce(p, |hits|) && Covers(FuturePossibility(p, hits), verdict)
    ensures Turns(hits, later, ReadIds(p)) && MatchProgram(p, later) == verdict
    decreases p, 1
  {
    if p.any != [] {
      later := AnyReached(p.any, hits, verdict);
    } else {
      later := NodeReached(p, hits, verdict);
    }
  }

  /** For a program whose parts read different hits the forecast is exact: possible means reachable. */
  lemma ForecastIsExact(p: Program, hits: seq<bool>, verdict: bool)
    requires ReadOnce(p, |hits|)
    ensures Covers(FuturePossibility(p, hits), verdict) <==> exists later :: Grows(hits, later) && MatchProgram(p, later) == verdict
  {
    if Covers(FuturePossibility(p, hits), verdict) {
      var later := ForecastReached(p, hits, verdict);
      assert Grows(hits, later);
    }
    if later :| Grows(hits, later) && MatchProgram(p, later) == verdict {
      FutureCovers(p, hits, later);
    }
  }

  /** A program that reads a hit twice: a contradiction is still held possible. */
  lemma ForecastIsNotExact()
    ensures var p := Program([0], Some(Program([0], None, [], [])), [], []);
      FuturePossibility(p, [false]).canTrue && !MatchProgram(p, [false]) && !MatchProgram(p, [true])
  {
    var inner := Program([0], None, [], []);
    assert RequiredPossibility([0], [false]) == CombineAnd(RequiredPossibility([], [false]), Possibility(true, true));
    assert AllPossibility([], [false]) == Possibility(true, false);
    assert FuturePossibility(inner, [false]) == Possibility(true, true);
    assert 0 in [0];
    assert MatchProgram(inner, [true]) && !MatchProgram(inner, [false]);
  }
}
