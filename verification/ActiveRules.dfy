/**
 All mutations in one pass: every node carries the rules still active at it, and
 direct, pending and missing parts are settled node by node.
 */
module ActiveRules {
  import opened Bytes
  import opened Json
  import opened Patterns
  import opened Mutations
  import opened Reference

  /** A mutation and the position of its path reached at a node. */
  datatype Rule = Rule(idx: nat, pos: nat)

  function RuleSets(rules: seq<Rule>, n: nat): Positions {
    seq(n, i requires 0 <= i < n => set r | r in rules && r.idx == i :: r.pos)
  }

  /** Rules of the program, in its order. */
  ghost predicate RulesOk(prog: seq<Compiled>, rules: seq<Rule>) {
    && (forall r :: r in rules ==> r.idx < |prog|)
    && (forall i, j :: 0 <= i < j < |rules| ==> rules[i].idx <= rules[j].idx)
    && AllPositionsOk(prog, RuleSets(rules, |prog|))
  }

  // ----- positions -----

  lemma AdvanceBounded(tokens: Pattern, pos: nat, s: Segment)
    ensures forall q :: q in Advance(tokens, pos, s) ==> q <= |tokens|
    decreases |tokens| - pos
  {
    if pos < |tokens| && tokens[pos].Recursive? && pos < |tokens| - 1 {
      AdvanceBounded(tokens, pos + 1, s);
    }
  }

  /** Advancing keeps positions in range, and literal paths at one position. */
  lemma AdvancedOk(c: Compiled, positions: set<nat>, s: Segment)
    requires WellFormed(c) && PositionsOk(c, positions)
    ensures PositionsOk(c, AdvanceAll(c.tokens, positions, s))
  {
    forall p | p in positions ensures forall q :: q in Advance(c.tokens, p, s) ==> q <= |c.tokens| {
      AdvanceBounded(c.tokens, p, s);
    }
    if !c.wildcard && positions != {} {
      var p :| p in positions;
      assert positions == {p};
      if p < |c.path| {
        LiteralToken(c, p);
      }
    }
  }

  // ----- facts about meanings -----

  lemma {:induction false} MeaningLocal(ar: Arith, prog: seq<Compiled>, v: Node, at: Positions, bt: Positions, n: nat)
    requires ProgramOk(prog) && n <= |prog| == |at| == |bt| && forall i :: 0 <= i < n ==> at[i] == bt[i]
    ensures Meaning(ar, prog, v, at, n) == Meaning(ar, prog, v, bt, n)
  {
    if n > 0 {
      MeaningLocal(ar, prog, v, at, bt, n - 1);
    }
  }

  lemma MeaningStep(ar: Arith, prog: seq<Compiled>, v: Node, at: Positions, n: nat)
    requires ProgramOk(prog) && n < |prog| == |at|
    ensures var before := Meaning(ar, prog, v, at, n);
      prog[n] in prog && (prog[n].kind.Remove? ==> prog[n].wildcard) &&
      Meaning(ar, prog, v, at, n + 1) == if before.Fail? then Fail else Step(ar, prog[n], before.value, at[n])
  {
    assert prog[n] in prog;
  }

  lemma IdleStep(ar: Arith, c: Compiled, v: Node)
    requires !c.kind.Remove? || c.wildcard
    ensures Step(ar, c, v, {}) == Ok(v)
  {
    if v.Some? {
      NoPositionsNoChange(ar, c.tokens, c.kind, v.value);
    }
  }

  lemma {:induction false} MeaningBeyond(ar: Arith, prog: seq<Compiled>, v: Node, at: Positions, n: nat, later: nat)
    requires ProgramOk(prog) && n <= later <= |prog| == |at| && forall i :: n <= i < later ==> at[i] == {}
    ensures Meaning(ar, prog, v, at, later) == Meaning(ar, prog, v, at, n)
  {
    if n < later {
      MeaningBeyond(ar, prog, v, at, n, later - 1);
      assert prog[later - 1] in prog;
      if Meaning(ar, prog, v, at, n).Ok? {
        IdleStep(ar, prog[later - 1], Meaning(ar, prog, v, at, n).value);
      }
    }
  }

  lemma {:induction false} FailureRemains(ar: Arith, prog: seq<Compiled>, v: Node, at: Positions, n: nat, later: nat)
    requires ProgramOk(prog) && n <= later <= |prog| == |at| && Meaning(ar, prog, v, at, n).Fail?
    ensures Meaning(ar, prog, v, at, later).Fail?
  {
    if n < later {
      FailureRemains(ar, prog, v, at, n, later - 1);
    }
  }

  // ----- what fails on nothing fails on anything -----

  /** a was made from nothing, b from some document, by the same creating mutations. */
  ghost predicate Under(ar: Arith, a: Json, b: Json)
    decreases a
  {
    if a.Obj? then b.Obj? && forall k | k in a.members :: k in b.members && Under(ar, a.members[k], b.members[k])
    else !b.Obj? && (ToFloat(ar, a).None? ==> ToFloat(ar, b).None?)
  }

  ghost predicate NodeUnder(ar: Arith, a: Node, b: Node) {
    a.Some? ==> b.Some? && Under(ar, a.value, b.value)
  }

  lemma {:induction false} CreateUnder(ar: Arith, kind: Kind, a: Node, b: Node, path: seq<string>)
    requires Prints(ar) && !kind.Remove? && (kind.SetTo? ==> IsScalar(kind.value)) && NodeUnder(ar, a, b)
    ensures Create(ar, kind, a, path).Fail? ==> Create(ar, kind, b, path).Fail?
    ensures Create(ar, kind, a, path).Ok? && Create(ar, kind, b, path).Ok? ==>
      NodeUnder(ar, Create(ar, kind, a, path).value, Create(ar, kind, b, path).value)
    decreases path
  {
    if path == [] {
      if kind.Increment? {
        assert ToFloat(ar, Number(ar, ar.normalize(kind.delta))).Some?;
        if a.Some? && ToFloat(ar, a.value).Some? {
          assert ToFloat(ar, Number(ar, ar.normalize(ar.add(ToFloat(ar, a.value).value, kind.delta)))).Some?;
        }
      }
    } else {
      CreateUnder(ar, kind, Get(MembersOf(a), path[0]), Get(MembersOf(b), path[0]), path[1..]);
    }
  }

  lemma LiteralStep(ar: Arith, c: Compiled, v: Node, positions: set<nat>, p: nat)
    requires WellFormed(c) && !c.wildcard && !c.kind.Remove? && PositionsOk(c, positions) && p in positions
    ensures p <= |c.path| && Step(ar, c, v, positions) == Create(ar, c.kind, v, c.path[p..])
  {
    assert positions == {p};
  }

  lemma {:induction false} MeaningUnder(ar: Arith, prog: seq<Compiled>, a: Node, b: Node, at: Positions, n: nat)
    requires Prints(ar) && LiteralProgram(prog) && n <= |prog| && AllPositionsOk(prog, at) && NodeUnder(ar, a, b)
    ensures Meaning(ar, prog, a, at, n).Fail? ==> Meaning(ar, prog, b, at, n).Fail?
    ensures Meaning(ar, prog, a, at, n).Ok? && Meaning(ar, prog, b, at, n).Ok? ==>
      NodeUnder(ar, Meaning(ar, prog, a, at, n).value, Meaning(ar, prog, b, at, n).value)
  {
    if n > 0 {
      MeaningUnder(ar, prog, a, b, at, n - 1);
      var c := prog[n - 1];
      assert c in prog;
      var x, y := Meaning(ar, prog, a, at, n - 1), Meaning(ar, prog, b, at, n - 1);
      if x.Ok? && y.Ok? && at[n - 1] != {} {
        var p :| p in at[n - 1];
        LiteralStep(ar, c, x.value, at[n - 1], p);
        LiteralStep(ar, c, y.value, at[n - 1], p);
        CreateUnder(ar, c.kind, x.value, y.value, c.path[p..]);
      }
    }
  }

  // ----- whether a node is still there -----

  predicate StillThere(prog: seq<Compiled>, at: Positions, n: nat)
    requires n <= |prog| == |at|
  {
    n == 0 || (if Finished(prog[n - 1], at[n - 1]) then !prog[n - 1].kind.Remove? else StillThere(prog, at, n - 1))
  }

  lemma {:induction false} RemovedOrThere(ar: Arith, prog: seq<Compiled>, j: Json, at: Positions, n: nat)
    requires ProgramOk(prog) && n <= |prog| == |at|
    ensures var r := Meaning(ar, prog, Some(j), at, n); r.Ok? ==> (r.value.Some? <==> StillThere(prog, at, n))
  {
    if n > 0 {
      RemovedOrThere(ar, prog, j, at, n - 1);
      assert prog[n - 1] in prog;
      var before := Meaning(ar, prog, Some(j), at, n - 1);
      if before.Ok? {
        if before.value.None? {
          RemoveComesLast(ar, prog, j, at, n - 1);
        } else if Step(ar, prog[n - 1], before.value, at[n - 1]) == Ok(None) {
          OnlyRemovesRemove(ar, prog[n - 1].tokens, prog[n - 1].kind, before.value.value, at[n - 1]);
        }
      }
    }
  }

  lemma RemoveComesLast(ar: Arith, prog: seq<Compiled>, j: Json, at: Positions, n: nat)
    requires ProgramOk(prog) && n < |prog| == |at| && Meaning(ar, prog, Some(j), at, n) == Ok(None)
    ensures WildcardProgram(prog) && prog[n].kind.Remove?
  {
    if LiteralProgram(prog) {
      CreatingKeeps(ar, prog, j, at, n);
    }
    RemovedByRemove(ar, prog, j, at, n);
  }

  lemma {:induction false} CreatingKeeps(ar: Arith, prog: seq<Compiled>, j: Json, at: Positions, n: nat)
    requires LiteralProgram(prog) && n <= |prog| == |at|
    ensures Meaning(ar, prog, Some(j), at, n) != Ok(None)
  {
    if n > 0 {
      CreatingKeeps(ar, prog, j, at, n - 1);
      assert prog[n - 1] in prog;
    }
  }
}
