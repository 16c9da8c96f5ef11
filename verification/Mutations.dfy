/**
 What mutations do to a value: one mutation given by the pattern positions it has
 reached at a node, and a whole program as the mutations applied one after another.
 */
module Mutations {
  import opened Bytes
  import opened Json
  import opened Patterns

  /** A double by its bits, infinities and not-a-number included; its arithmetic stays uninterpreted. */
  newtype Float = x: int | 0 <= x < 0x1_0000_0000_0000_0000

  datatype Arith = Arith(add: (Float, Float) -> Float, normalize: Float -> Float, format: Float -> Text, parse: Text -> Option<Float>,
                         finite: Float -> bool)

  /** A printed number is parsed as itself, an infinity too; but the text of an infinity is not JSON. */
  ghost predicate Prints(ar: Arith) {
    forall f :: ar.parse(ar.format(ar.normalize(f))) == Some(ar.normalize(f))
  }

  datatype Kind = SetTo(value: Json) | Increment(delta: Float) | Remove

  datatype Mutation = Mutation(path: seq<string>, kind: Kind)

  datatype Result<+T> = Fail | Ok(value: T)

  /** A value that is there, or one that is missing. */
  type Node = Option<Json>

  type Outcome = Result<Node>

  predicate IsScalar(j: Json) {
    !j.Arr? && !j.Obj?
  }

  function Number(ar: Arith, f: Float): Json {
    Num(ar.format(f))
  }

  function ToFloat(ar: Arith, j: Json): Option<Float> {
    if j.Num? then ar.parse(j.literal) else None
  }

  /** No number of the tree has left the finite range. */
  predicate AllFinite(ar: Arith, j: Json) {
    match j
    case Num(l) => ar.parse(l).Some? ==> ar.finite(ar.parse(l).value)
    case Arr(items) => forall i | 0 <= i < |items| :: AllFinite(ar, items[i])
    case Obj(m) => forall k | k in m :: AllFinite(ar, m[k])
    case _ => true
  }

  /** The mutation at its target. */
  function Here(ar: Arith, kind: Kind, v: Node): Outcome {
    match kind
    case SetTo(x) => Ok(Some(x))
    case Remove => Ok(None)
    case Increment(delta) =>
      if v.None? then Ok(Some(Number(ar, ar.normalize(delta))))
      else match ToFloat(ar, v.value)
        case Some(f) => Ok(Some(Number(ar, ar.normalize(ar.add(f, delta)))))
        case None => Fail
  }

  // ----- one wildcard mutation, by positions -----

  /** Where one step down leads from a position; a trailing descent is over after its first step. */
  function Advance(tokens: Pattern, pos: nat, s: Segment): set<nat>
    decreases |tokens| - pos
  {
    if pos >= |tokens| then {}
    else if tokens[pos].Recursive? then
      {pos} + (if pos == |tokens| - 1 then {|tokens|} else Advance(tokens, pos + 1, s))
    else if TokenMatches(tokens[pos], s) then {pos + 1}
    else {}
  }

  function AdvanceAll(tokens: Pattern, positions: set<nat>, s: Segment): set<nat> {
    set p, q | p in positions && q in Advance(tokens, p, s) :: q
  }

  /** An array keeps the place of a removed element. */
  function Kept(v: Node): Json {
    if v.Some? then v.value else Null
  }

  /** One mutation on one node, at the positions it has there: its target if one is finished, else its children. */
  function Apply(ar: Arith, tokens: Pattern, kind: Kind, j: Json, positions: set<nat>): Outcome
    decreases j
  {
    if |tokens| in positions then Here(ar, kind, Some(j))
    else match j
      case Obj(m) =>
        if exists k | k in m :: Apply(ar, tokens, kind, m[k], AdvanceAll(tokens, positions, Key(k))).Fail? then Fail
        else Ok(Some(Obj(map k | k in m && Apply(ar, tokens, kind, m[k], AdvanceAll(tokens, positions, Key(k))).value.Some?
                           :: Apply(ar, tokens, kind, m[k], AdvanceAll(tokens, positions, Key(k))).value.value)))
      case Arr(items) =>
        if exists i | 0 <= i < |items| :: Apply(ar, tokens, kind, items[i], AdvanceAll(tokens, positions, Index(i))).Fail? then Fail
        else Ok(Some(Arr(seq(|items|, i requires 0 <= i < |items| =>
          Kept(Apply(ar, tokens, kind, items[i], AdvanceAll(tokens, positions, Index(i))).value)))))
      case _ => Ok(Some(j))
  }

  /** The same on a node that may be missing: wildcards create nothing. */
  function ApplyNode(ar: Arith, tokens: Pattern, kind: Kind, v: Node, positions: set<nat>): Outcome {
    if v.None? then Ok(None) else Apply(ar, tokens, kind, v.value, positions)
  }

  lemma {:induction false} NoPositionsNoChange(ar: Arith, tokens: Pattern, kind: Kind, j: Json)
    ensures Apply(ar, tokens, kind, j, {}) == Ok(Some(j))
    decreases j
  {
    assert forall s :: AdvanceAll(tokens, {}, s) == {};
    match j
    case Obj(m) =>
      forall k | k in m ensures Apply(ar, tokens, kind, m[k], AdvanceAll(tokens, {}, Key(k))) == Ok(Some(m[k])) {
        NoPositionsNoChange(ar, tokens, kind, m[k]);
      }
      assert Apply(ar, tokens, kind, j, {}).value.value.members == m;
    case Arr(items) =>
      forall i | 0 <= i < |items| ensures Apply(ar, tokens, kind, items[i], AdvanceAll(tokens, {}, Index(i))) == Ok(Some(items[i])) {
        NoPositionsNoChange(ar, tokens, kind, items[i]);
      }
      assert Apply(ar, tokens, kind, j, {}).value.value.items == items;
    case _ =>
  }

  // ----- one creating mutation along a literal path -----

  function Get(m: map<string, Json>, k: string): Node {
    if k in m then Some(m[k]) else None
  }

  /** The object at a node; anything else, arrays included, is replaced by an empty one. */
  function MembersOf(v: Node): map<string, Json> {
    if v.Some? && v.value.Obj? then v.value.members else map[]
  }

  function Create(ar: Arith, kind: Kind, v: Node, path: seq<string>): (r: Outcome)
    requires !kind.Remove?
    ensures r.Ok? ==> r.value.Some?
    ensures r.Ok? && path != [] ==> r.value.value.Obj?
    decreases path
  {
    if path == [] then Here(ar, kind, v)
    else
      var below := Create(ar, kind, Get(MembersOf(v), path[0]), path[1..]);
      if below.Fail? then Fail else Ok(Some(Obj(MembersOf(v)[path[0] := below.value.value])))
  }

  // ----- a program -----

  datatype Compiled = Compiled(tokens: Pattern, path: seq<string>, kind: Kind, wildcard: bool)

  predicate IsWildcard(segment: string) {
    segment == "*" || segment == "[]" || segment == "**" || segment == "..."
  }

  function CompileMutation(m: Mutation): Compiled {
    Compiled(Compile(m.path), m.path, m.kind, exists s | s in m.path :: IsWildcard(s))
  }

  /** Every mutation has a path, and what a set assigns is a scalar. */
  predicate WellFormed(c: Compiled) {
    && c.path != [] && c.tokens == Compile(c.path) && (c.wildcard <==> exists s | s in c.path :: IsWildcard(s))
    && (c.kind.SetTo? ==> IsScalar(c.kind.value))
  }

  /** Sets and increments along literal paths. */
  predicate LiteralProgram(prog: seq<Compiled>) {
    forall c | c in prog :: WellFormed(c) && !c.wildcard && !c.kind.Remove?
  }

  /** Wildcard paths throughout; once something is removed, nothing is set any more. */
  predicate WildcardProgram(prog: seq<Compiled>) {
    && (forall c | c in prog :: WellFormed(c) && c.wildcard)
    && (forall i, j | 0 <= i < j < |prog| :: prog[i].kind.Remove? ==> prog[j].kind.Remove?)
  }

  /** One mutation of the program at a node; a literal one is at one position at most. */
  ghost function Step(ar: Arith, c: Compiled, v: Node, positions: set<nat>): Outcome
    requires !c.kind.Remove? || c.wildcard
  {
    if c.wildcard then ApplyNode(ar, c.tokens, c.kind, v, positions)
    else if positions == {} then Ok(v)
    else
      var p :| p in positions;
      if p <= |c.path| then Create(ar, c.kind, v, c.path[p..]) else Ok(v)
  }

  ghost predicate PositionsOk(c: Compiled, positions: set<nat>) {
    && (forall p :: p in positions ==> p <= |c.tokens|)
    && (!c.wildcard ==> forall p, q :: p in positions && q in positions ==> p == q)
  }

  predicate Finished(c: Compiled, positions: set<nat>) {
    |c.tokens| in positions
  }

  // ----- the order of mutation and of descent can be exchanged -----

  /** A step on an object, none of it at the object itself, is a step on each member, missing ones included. */
  ghost predicate StepSpreads(ar: Arith, c: Compiled, m: map<string, Json>, positions: set<nat>, whole: Outcome)
    requires !c.kind.Remove? || c.wildcard
  {
    if whole.Fail? then exists k :: Step(ar, c, Get(m, k), AdvanceAll(c.tokens, positions, Key(k))).Fail?
    else
      && whole.value.Some? && whole.value.value.Obj?
      && forall k :: Step(ar, c, Get(m, k), AdvanceAll(c.tokens, positions, Key(k))) == Ok(Get(whole.value.value.members, k))
  }

  lemma WildcardSpreads(ar: Arith, c: Compiled, m: map<string, Json>, positions: set<nat>)
    requires c.wildcard && !Finished(c, positions)
    ensures StepSpreads(ar, c, m, positions, Step(ar, c, Some(Obj(m)), positions))
  {
    var whole := Step(ar, c, Some(Obj(m)), positions);
    if whole.Fail? {
      var k :| k in m && Apply(ar, c.tokens, c.kind, m[k], AdvanceAll(c.tokens, positions, Key(k))).Fail?;
      assert Step(ar, c, Get(m, k), AdvanceAll(c.tokens, positions, Key(k))).Fail?;
    }
  }

  lemma LiteralToken(c: Compiled, p: nat)
    requires WellFormed(c) && !c.wildcard && p < |c.path|
    ensures c.tokens[p].Literal? && c.tokens[p].raw == c.path[p]
    ensures forall k :: Advance(c.tokens, p, Key(k)) == if k == c.path[p] then {p + 1} else {}
  {
    assert c.path[p] in c.path && !IsWildcard(c.path[p]);
  }

  lemma LiteralSpreads(ar: Arith, c: Compiled, m: map<string, Json>, positions: set<nat>)
    requires WellFormed(c) && !c.wildcard && !c.kind.Remove? && PositionsOk(c, positions) && !Finished(c, positions)
    ensures StepSpreads(ar, c, m, positions, Step(ar, c, Some(Obj(m)), positions))
  {
    if positions == {} {
      assert forall k :: AdvanceAll(c.tokens, positions, Key(k)) == {};
    } else {
      hide WellFormed, Compile;
      var p :| p in positions;
      assert positions == {p};
      LiteralAdvances(c, p);
      var k0 := c.path[p];
      assert c.path[p..][1..] == c.path[p + 1..];
      assert Step(ar, c, Get(m, k0), {p + 1}) == Create(ar, c.kind, Get(m, k0), c.path[p + 1..]);
      assert Step(ar, c, Get(m, k0), AdvanceAll(c.tokens, positions, Key(k0))) == Create(ar, c.kind, Get(m, k0), c.path[p + 1..]);
    }
  }

  lemma LiteralAdvances(c: Compiled, p: nat)
    requires WellFormed(c) && !c.wildcard && p < |c.tokens|
    ensures p < |c.path| == |c.tokens|
    ensures forall k :: AdvanceAll(c.tokens, {p}, Key(k)) == if k == c.path[p] then {p + 1} else {}
  {
    LiteralToken(c, p);
    forall k ensures AdvanceAll(c.tokens, {p}, Key(k)) == if k == c.path[p] then {p + 1} else {} {
      assert AdvanceAll(c.tokens, {p}, Key(k)) == Advance(c.tokens, p, Key(k));
    }
  }

  /** A program of one of the two kinds the two forms agree on. */
  predicate ProgramOk(prog: seq<Compiled>) {
    LiteralProgram(prog) || WildcardProgram(prog)
  }

  type Positions = seq<set<nat>>

  ghost predicate AllPositionsOk(prog: seq<Compiled>, at: Positions) {
    |prog| == |at| && forall i :: 0 <= i < |prog| ==> PositionsOk(prog[i], at[i])
  }

  /** No mutation has its target here. */
  predicate NoneFinished(prog: seq<Compiled>, at: Positions) {
    |prog| == |at| && forall i | 0 <= i < |prog| :: !Finished(prog[i], at[i])
  }

  /** The program's first n mutations one after another, each from its own positions. */
  ghost function Meaning(ar: Arith, prog: seq<Compiled>, v: Node, at: Positions, n: nat): Outcome
    requires ProgramOk(prog) && n <= |prog| == |at|
  {
    if n == 0 then Ok(v)
    else
      var before := Meaning(ar, prog, v, at, n - 1);
      if before.Fail? then Fail else Step(ar, prog[n - 1], before.value, at[n - 1])
  }

  function AdvanceEach(prog: seq<Compiled>, at: Positions, s: Segment): Positions
    requires |prog| == |at|
  {
    seq(|prog|, i requires 0 <= i < |prog| => AdvanceAll(prog[i].tokens, at[i], s))
  }

  ghost predicate MeaningSpreads(ar: Arith, prog: seq<Compiled>, m: map<string, Json>, at: Positions, n: nat, whole: Outcome)
    requires ProgramOk(prog) && n <= |prog| == |at|
  {
    if whole.Fail? then exists k :: Meaning(ar, prog, Get(m, k), AdvanceEach(prog, at, Key(k)), n).Fail?
    else
      && whole.value.Some? && whole.value.value.Obj?
      && forall k :: Meaning(ar, prog, Get(m, k), AdvanceEach(prog, at, Key(k)), n) == Ok(Get(whole.value.value.members, k))
  }

  /** On an object, mutating in program order is mutating member by member, created members included. */
  lemma {:induction false} MembersCommute(ar: Arith, prog: seq<Compiled>, m: map<string, Json>, at: Positions, n: nat)
    requires ProgramOk(prog) && n <= |prog| && AllPositionsOk(prog, at) && NoneFinished(prog, at)
    ensures MeaningSpreads(ar, prog, m, at, n, Meaning(ar, prog, Some(Obj(m)), at, n))
  {
    if n > 0 {
      MembersCommute(ar, prog, m, at, n - 1);
      var before := Meaning(ar, prog, Some(Obj(m)), at, n - 1);
      if before.Fail? {
        var k :| Meaning(ar, prog, Get(m, k), AdvanceEach(prog, at, Key(k)), n - 1).Fail?;
        assert Meaning(ar, prog, Get(m, k), AdvanceEach(prog, at, Key(k)), n).Fail?;
      } else {
        MembersCommuteStep(ar, prog, m, at, n, before.value.value.members);
      }
    }
  }

  lemma MemberOk(prog: seq<Compiled>, at: Positions, i: nat)
    requires ProgramOk(prog) && i < |prog| && AllPositionsOk(prog, at)
    ensures WellFormed(prog[i]) && PositionsOk(prog[i], at[i])
    ensures prog[i].kind.Remove? ==> prog[i].wildcard
  {
    assert prog[i] in prog;
  }

  lemma MembersCommuteStep(ar: Arith, prog: seq<Compiled>, m: map<string, Json>, at: Positions, n: nat, between: map<string, Json>)
    requires ProgramOk(prog) && 0 < n <= |prog| && AllPositionsOk(prog, at) && NoneFinished(prog, at)
    requires Meaning(ar, prog, Some(Obj(m)), at, n - 1) == Ok(Some(Obj(between)))
    requires MeaningSpreads(ar, prog, m, at, n - 1, Ok(Some(Obj(between))))
    ensures MeaningSpreads(ar, prog, m, at, n, Meaning(ar, prog, Some(Obj(m)), at, n))
  {
    hide Step, WellFormed, PositionsOk;
    var c, positions := prog[n - 1], at[n - 1];
    MemberOk(prog, at, n - 1);
    if c.wildcard {
      WildcardSpreads(ar, c, between, positions);
    } else {
      LiteralSpreads(ar, c, between, positions);
    }
    forall k
      ensures Meaning(ar, prog, Get(m, k), AdvanceEach(prog, at, Key(k)), n)
        == Step(ar, c, Get(between, k), AdvanceAll(c.tokens, positions, Key(k)))
    {
      assert Meaning(ar, prog, Get(m, k), AdvanceEach(prog, at, Key(k)), n - 1) == Ok(Get(between, k));
    }
    var whole := Meaning(ar, prog, Some(Obj(m)), at, n);
    if whole.Fail? {
      var k :| Step(ar, c, Get(between, k), AdvanceAll(c.tokens, positions, Key(k))).Fail?;
      assert Meaning(ar, prog, Get(m, k), AdvanceEach(prog, at, Key(k)), n).Fail?;
    }
  }

  // ----- arrays: only wildcard programs look inside -----

  lemma {:induction false} RemovedByRemove(ar: Arith, prog: seq<Compiled>, j: Json, at: Positions, n: nat)
    requires WildcardProgram(prog) && n < |prog| == |at|
    requires Meaning(ar, prog, Some(j), at, n) == Ok(None)
    ensures prog[n].kind.Remove?
  {
    if n > 0 {
      var before := Meaning(ar, prog, Some(j), at, n - 1);
      if before == Ok(None) {
        RemovedByRemove(ar, prog, j, at, n - 1);
      } else {
        assert prog[n - 1] in prog;
        OnlyRemovesRemove(ar, prog[n - 1].tokens, prog[n - 1].kind, before.value.value, at[n - 1]);
      }
    }
  }

  ghost predicate ItemsSpread(ar: Arith, prog: seq<Compiled>, items: seq<Json>, at: Positions, n: nat, whole: Outcome)
    requires ProgramOk(prog) && n <= |prog| == |at|
  {
    if whole.Fail? then exists i :: 0 <= i < |items| && Meaning(ar, prog, Some(items[i]), AdvanceEach(prog, at, Index(i)), n).Fail?
    else
      && whole.value.Some? && whole.value.value.Arr? && |whole.value.value.items| == |items|
      && forall i :: 0 <= i < |items| ==>
        var below := Meaning(ar, prog, Some(items[i]), AdvanceEach(prog, at, Index(i)), n);
        below.Ok? && whole.value.value.items[i] == Kept(below.value)
  }

  /** On an array, mutating in program order is mutating element by element. */
  lemma {:induction false} ItemsCommute(ar: Arith, prog: seq<Compiled>, items: seq<Json>, at: Positions, n: nat)
    requires WildcardProgram(prog) && n <= |prog| && AllPositionsOk(prog, at) && NoneFinished(prog, at)
    ensures ItemsSpread(ar, prog, items, at, n, Meaning(ar, prog, Some(Arr(items)), at, n))
  {
    if n > 0 {
      ItemsCommute(ar, prog, items, at, n - 1);
      var before := Meaning(ar, prog, Some(Arr(items)), at, n - 1);
      if before.Fail? {
        var i :| 0 <= i < |items| && Meaning(ar, prog, Some(items[i]), AdvanceEach(prog, at, Index(i)), n - 1).Fail?;
        assert Meaning(ar, prog, Some(items[i]), AdvanceEach(prog, at, Index(i)), n).Fail?;
      } else {
        ItemsCommuteStep(ar, prog, items, at, n, before.value.value.items);
      }
    }
  }

  lemma ItemsCommuteStep(ar: Arith, prog: seq<Compiled>, items: seq<Json>, at: Positions, n: nat, between: seq<Json>)
    requires WildcardProgram(prog) && 0 < n <= |prog| && AllPositionsOk(prog, at) && NoneFinished(prog, at)
    requires Meaning(ar, prog, Some(Arr(items)), at, n - 1) == Ok(Some(Arr(between)))
    requires ItemsSpread(ar, prog, items, at, n - 1, Ok(Some(Arr(between))))
    ensures ItemsSpread(ar, prog, items, at, n, Meaning(ar, prog, Some(Arr(items)), at, n))
  {
    hide Apply;
    var c, positions := prog[n - 1], at[n - 1];
    assert c in prog;
    ItemOutcomes(ar, c.tokens, c.kind, between, positions);
    forall i | 0 <= i < |items|
      ensures SameKept(Meaning(ar, prog, Some(items[i]), AdvanceEach(prog, at, Index(i)), n),
                       Apply(ar, c.tokens, c.kind, between[i], AdvanceAll(c.tokens, positions, Index(i))))
    {
      var below := Meaning(ar, prog, Some(items[i]), AdvanceEach(prog, at, Index(i)), n - 1);
      assert between[i] == Kept(below.value);
      if below.value.None? {
        RemovedByRemove(ar, prog, items[i], AdvanceEach(prog, at, Index(i)), n - 1);
        RemoveOnNull(ar, c.tokens, AdvanceAll(c.tokens, positions, Index(i)));
      }
    }
  }

  lemma RemoveOnNull(ar: Arith, tokens: Pattern, positions: set<nat>)
    ensures Apply(ar, tokens, Remove, Null, positions).Ok? && Kept(Apply(ar, tokens, Remove, Null, positions).value) == Null
  {
  }

  lemma ItemOutcomes(ar: Arith, tokens: Pattern, kind: Kind, items: seq<Json>, positions: set<nat>)
    requires |tokens| !in positions
    ensures var whole := Apply(ar, tokens, kind, Arr(items), positions);
      && (whole.Fail? ==> exists i :: 0 <= i < |items| && Apply(ar, tokens, kind, items[i], AdvanceAll(tokens, positions, Index(i))).Fail?)
      && (whole.Ok? ==> whole.value.Some? && whole.value.value.Arr? && |whole.value.value.items| == |items|)
      && (whole.Ok? ==> forall i :: 0 <= i < |items| ==>
          Apply(ar, tokens, kind, items[i], AdvanceAll(tokens, positions, Index(i))).Ok? &&
          whole.value.value.items[i] == Kept(Apply(ar, tokens, kind, items[i], AdvanceAll(tokens, positions, Index(i))).value))
  {
  }

  /** Both fail, or both leave the same element in the array. */
  ghost predicate SameKept(a: Outcome, b: Outcome) {
    if a.Fail? then b.Fail? else b.Ok? && Kept(a.value) == Kept(b.value)
  }

  // ----- everything else -----

  lemma {:induction false} MissingStaysMissing(ar: Arith, prog: seq<Compiled>, at: Positions, n: nat)
    requires WildcardProgram(prog) && n <= |prog| == |at|
    ensures Meaning(ar, prog, None, at, n) == Ok(None)
  {
    if n > 0 {
      MissingStaysMissing(ar, prog, at, n - 1);
    }
  }

  /** Wildcards leave a scalar alone unless it is a target itself. */
  lemma {:induction false} ScalarIsLeft(ar: Arith, prog: seq<Compiled>, j: Json, at: Positions, n: nat)
    requires WildcardProgram(prog) && n <= |prog| && IsScalar(j) && NoneFinished(prog, at)
    ensures Meaning(ar, prog, Some(j), at, n) == Ok(Some(j))
  {
    if n > 0 {
      ScalarIsLeft(ar, prog, j, at, n - 1);
    }
  }

  /** A creating mutation below a non-object starts from an empty object. */
  lemma {:induction false} NonObjectIsReplaced(ar: Arith, prog: seq<Compiled>, v: Node, at: Positions, n: nat)
    requires LiteralProgram(prog) && n <= |prog| && AllPositionsOk(prog, at) && NoneFinished(prog, at)
    requires v.None? || !v.value.Obj?
    requires exists i :: 0 <= i < n && at[i] != {}
    ensures Meaning(ar, prog, v, at, n) == Meaning(ar, prog, Some(Obj(map[])), at, n)
  {
    if exists i :: 0 <= i < n - 1 && at[i] != {} {
      NonObjectIsReplaced(ar, prog, v, at, n - 1);
    } else {
      NothingAt(ar, prog, v, at, n - 1);
      NothingAt(ar, prog, Some(Obj(map[])), at, n - 1);
      assert prog[n - 1] in prog;
    }
  }

  /** Mutations with no position here do nothing here. */
  lemma {:induction false} NothingAt(ar: Arith, prog: seq<Compiled>, v: Node, at: Positions, n: nat)
    requires ProgramOk(prog) && n <= |prog| == |at| && forall i :: 0 <= i < n ==> at[i] == {}
    ensures Meaning(ar, prog, v, at, n) == Ok(v)
  {
    if n > 0 {
      NothingAt(ar, prog, v, at, n - 1);
      if v.Some? {
        NoPositionsNoChange(ar, prog[n - 1].tokens, prog[n - 1].kind, v.value);
      }
    }
  }

  // ----- paths to targets -----

  function AdvancePath(tokens: Pattern, positions: set<nat>, path: Path): set<nat>
    decreases path
  {
    if path == [] then positions else AdvancePath(tokens, AdvanceAll(tokens, positions, path[0]), path[1..])
  }

  /** The node at the relative path is a target. */
  predicate Reached(tokens: Pattern, positions: set<nat>, path: Path) {
    |tokens| in AdvancePath(tokens, positions, path)
  }

  lemma {:induction false} AdvancePathUnion(tokens: Pattern, a: set<nat>, b: set<nat>, path: Path)
    ensures AdvancePath(tokens, a + b, path) == AdvancePath(tokens, a, path) + AdvancePath(tokens, b, path)
    decreases path
  {
    if path != [] {
      assert AdvanceAll(tokens, a + b, path[0]) == AdvanceAll(tokens, a, path[0]) + AdvanceAll(tokens, b, path[0]);
      AdvancePathUnion(tokens, AdvanceAll(tokens, a, path[0]), AdvanceAll(tokens, b, path[0]), path[1..]);
    }
  }

  lemma {:induction false} NothingAdvances(tokens: Pattern, path: Path)
    ensures AdvancePath(tokens, {}, path) == {}
    decreases path
  {
    if path != [] {
      assert AdvanceAll(tokens, {}, path[0]) == {};
      NothingAdvances(tokens, path[1..]);
    }
  }

  lemma FinishedIsOver(tokens: Pattern, path: Path)
    ensures Reached(tokens, {|tokens|}, path) <==> path == []
  {
    if path != [] {
      assert AdvanceAll(tokens, {|tokens|}, path[0]) == {};
      NothingAdvances(tokens, path[1..]);
    }
  }

  /** What one position leads to. */
  lemma OneStep(tokens: Pattern, pos: nat, s: Segment)
    requires pos < |tokens|
    ensures AdvanceAll(tokens, {pos}, s) == Advance(tokens, pos, s)
    ensures tokens[pos].Recursive? && pos + 1 < |tokens| ==> AdvanceAll(tokens, {pos}, s) == {pos} + AdvanceAll(tokens, {pos + 1}, s)
  {
  }

  /** A node carries a finished rule exactly if its path is one the mutation hits. */
  lemma {:induction false} FinishedMeansHit(tokens: Pattern, pos: nat, path: Path)
    requires pos <= |tokens|
    ensures Reached(tokens, {pos}, path) <==> Hits(tokens[pos..], path)
    decreases |tokens| - pos + |path|
  {
    if pos == |tokens| {
      FinishedIsOver(tokens, path);
    } else if path != [] {
      OneStep(tokens, pos, path[0]);
      assert tokens[pos..][1..] == tokens[pos + 1..];
      if !tokens[pos].Recursive? {
        if TokenMatches(tokens[pos], path[0]) {
          FinishedMeansHit(tokens, pos + 1, path[1..]);
        } else {
          NothingAdvances(tokens, path[1..]);
        }
      } else {
        DescentStep(tokens, pos, path);
      }
    } else {
      EmptyPathHits(tokens, pos);
    }
  }

  lemma {:induction false} EmptyPathHits(tokens: Pattern, pos: nat)
    requires pos < |tokens|
    ensures !Hits(tokens[pos..], [])
    decreases |tokens| - pos
  {
    assert tokens[pos..][1..] == tokens[pos + 1..];
    if tokens[pos].Recursive? && pos + 1 < |tokens| {
      EmptyPathHits(tokens, pos + 1);
    }
  }

  lemma {:induction false} DescentStep(tokens: Pattern, pos: nat, path: Path)
    requires pos < |tokens| && tokens[pos].Recursive? && path != []
    ensures Reached(tokens, {pos}, path) <==> Hits(tokens[pos..], path)
    decreases |tokens| - pos + |path|, 0
  {
    OneStep(tokens, pos, path[0]);
    var rest := path[1..];
    FinishedMeansHit(tokens, pos, rest);
    assert tokens[pos..][1..] == tokens[pos + 1..];
    if pos + 1 < |tokens| {
      FinishedMeansHit(tokens, pos + 1, path);
      AdvancePathUnion(tokens, {pos}, AdvanceAll(tokens, {pos + 1}, path[0]), rest);
    } else {
      AdvancePathUnion(tokens, {pos}, {|tokens|}, rest);
      FinishedIsOver(tokens, rest);
      assert tokens[pos..] == [tokens[pos]];
    }
  }

  // ----- one mutation applied from two sets of positions, one after the other -----

  /** Increments must not hit a node from both sets. */
  ghost predicate Independent(tokens: Pattern, kind: Kind, a: set<nat>, b: set<nat>) {
    && (kind.SetTo? ==> IsScalar(kind.value))
    && (kind.Increment? ==> forall p :: !(Reached(tokens, a, p) && Reached(tokens, b, p)))
  }

  lemma IndependentBelow(tokens: Pattern, kind: Kind, a: set<nat>, b: set<nat>, s: Segment)
    requires Independent(tokens, kind, a, b)
    ensures Independent(tokens, kind, AdvanceAll(tokens, a, s), AdvanceAll(tokens, b, s))
  {
    forall p | kind.Increment? ensures !(Reached(tokens, AdvanceAll(tokens, a, s), p) && Reached(tokens, AdvanceAll(tokens, b, s), p)) {
      assert ([s] + p)[0] == s && ([s] + p)[1..] == p;
      assert Reached(tokens, a, [s] + p) <==> Reached(tokens, AdvanceAll(tokens, a, s), p);
      assert Reached(tokens, b, [s] + p) <==> Reached(tokens, AdvanceAll(tokens, b, s), p);
    }
  }

  /** First from a, then from b on what came out. */
  function Twice(ar: Arith, tokens: Pattern, kind: Kind, j: Json, a: set<nat>, b: set<nat>): Outcome {
    var first := Apply(ar, tokens, kind, j, a);
    if first.Fail? then Fail else ApplyNode(ar, tokens, kind, first.value, b)
  }

  /** Sets and removals never fail. */
  lemma {:induction false} OnlyIncrementsFail(ar: Arith, tokens: Pattern, kind: Kind, j: Json, positions: set<nat>)
    requires !kind.Increment?
    ensures Apply(ar, tokens, kind, j, positions).Ok?
    decreases j
  {
    match j
    case Obj(m) =>
      forall k | k in m ensures Apply(ar, tokens, kind, m[k], AdvanceAll(tokens, positions, Key(k))).Ok? {
        OnlyIncrementsFail(ar, tokens, kind, m[k], AdvanceAll(tokens, positions, Key(k)));
      }
    case Arr(items) =>
      forall i | 0 <= i < |items| ensures Apply(ar, tokens, kind, items[i], AdvanceAll(tokens, positions, Index(i))).Ok? {
        OnlyIncrementsFail(ar, tokens, kind, items[i], AdvanceAll(tokens, positions, Index(i)));
      }
    case _ =>
  }

  /** Applying a mutation from two sets of positions in turn is applying it from their union. */
  lemma {:induction false} TwiceIsUnion(ar: Arith, tokens: Pattern, kind: Kind, j: Json, a: set<nat>, b: set<nat>)
    requires Independent(tokens, kind, a, b)
    ensures Twice(ar, tokens, kind, j, a, b) == Apply(ar, tokens, kind, j, a + b)
    decreases j
  {
    if |tokens| in a {
      assert |tokens| in a + b;
      if kind.Increment? {
        assert AdvancePath(tokens, a, []) == a && AdvancePath(tokens, b, []) == b;
        assert Reached(tokens, a, []) && !Reached(tokens, b, []);
      }
    } else if |tokens| in b {
      if !kind.Increment? {
        OnlyIncrementsFail(ar, tokens, kind, j, a);
      }
    } else {
      match j
      case Obj(m) => TwiceMembers(ar, tokens, kind, m, a, b);
      case Arr(items) => TwiceItems(ar, tokens, kind, items, a, b);
      case _ =>
    }
  }

  /** What becomes of a member, or of a missing one. */
  function MemberOutcome(ar: Arith, tokens: Pattern, kind: Kind, m: map<string, Json>, positions: set<nat>, k: string): Outcome {
    ApplyNode(ar, tokens, kind, Get(m, k), AdvanceAll(tokens, positions, Key(k)))
  }

  lemma MemberOutcomes(ar: Arith, tokens: Pattern, kind: Kind, m: map<string, Json>, positions: set<nat>)
    requires |tokens| !in positions
    ensures var whole := Apply(ar, tokens, kind, Obj(m), positions);
      && (whole.Fail? ==> exists k :: MemberOutcome(ar, tokens, kind, m, positions, k).Fail?)
      && (whole.Ok? ==> whole.value.Some? && whole.value.value.Obj?)
      && (whole.Ok? ==> forall k :: MemberOutcome(ar, tokens, kind, m, positions, k) == Ok(Get(whole.value.value.members, k)))
  {
    var whole := Apply(ar, tokens, kind, Obj(m), positions);
    if whole.Fail? {
      var k :| k in m && Apply(ar, tokens, kind, m[k], AdvanceAll(tokens, positions, Key(k))).Fail?;
      assert MemberOutcome(ar, tokens, kind, m, positions, k).Fail?;
    }
  }

  lemma {:induction false} TwiceMembers(ar: Arith, tokens: Pattern, kind: Kind, m: map<string, Json>, a: set<nat>, b: set<nat>)
    requires Independent(tokens, kind, a, b) && |tokens| !in a && |tokens| !in b
    ensures Twice(ar, tokens, kind, Obj(m), a, b) == Apply(ar, tokens, kind, Obj(m), a + b)
    decreases Obj(m), 0
  {
    forall k ensures TwiceMember(ar, tokens, kind, m, a, b, k) {
      if k in m {
        IndependentBelow(tokens, kind, a, b, Key(k));
        TwiceIsUnion(ar, tokens, kind, m[k], AdvanceAll(tokens, a, Key(k)), AdvanceAll(tokens, b, Key(k)));
        assert AdvanceAll(tokens, a + b, Key(k)) == AdvanceAll(tokens, a, Key(k)) + AdvanceAll(tokens, b, Key(k));
      }
    }
    TwiceMembersMeet(ar, tokens, kind, m, a, b);
  }

  ghost predicate TwiceMember(ar: Arith, tokens: Pattern, kind: Kind, m: map<string, Json>, a: set<nat>, b: set<nat>, k: string) {
    var first := MemberOutcome(ar, tokens, kind, m, a, k);
    var second := if first.Fail? then Fail else ApplyNode(ar, tokens, kind, first.value, AdvanceAll(tokens, b, Key(k)));
    MemberOutcome(ar, tokens, kind, m, a + b, k) == second
  }

  lemma TwiceMembersMeet(ar: Arith, tokens: Pattern, kind: Kind, m: map<string, Json>, a: set<nat>, b: set<nat>)
    requires |tokens| !in a && |tokens| !in b && forall k :: TwiceMember(ar, tokens, kind, m, a, b, k)
    ensures Twice(ar, tokens, kind, Obj(m), a, b) == Apply(ar, tokens, kind, Obj(m), a + b)
  {
    hide Apply, AdvanceAll, ApplyNode;
    var first, union := Apply(ar, tokens, kind, Obj(m), a), Apply(ar, tokens, kind, Obj(m), a + b);
    MemberOutcomes(ar, tokens, kind, m, a);
    MemberOutcomes(ar, tokens, kind, m, a + b);
    if first.Fail? {
      var k :| MemberOutcome(ar, tokens, kind, m, a, k).Fail?;
      assert TwiceMember(ar, tokens, kind, m, a, b, k);
    } else {
      var between := first.value.value.members;
      MemberOutcomes(ar, tokens, kind, between, b);
      forall k ensures MemberOutcome(ar, tokens, kind, between, b, k) == MemberOutcome(ar, tokens, kind, m, a + b, k) {
        assert TwiceMember(ar, tokens, kind, m, a, b, k);
      }
      var both := Apply(ar, tokens, kind, Obj(between), b);
      assert both.Fail? <==> union.Fail?;
      if both.Ok? {
        SameMembers(both.value.value.members, union.value.value.members);
      }
      SomeIsApplied(ar, tokens, kind, Obj(between), b);
    }
  }

  lemma SomeIsApplied(ar: Arith, tokens: Pattern, kind: Kind, j: Json, positions: set<nat>)
    ensures ApplyNode(ar, tokens, kind, Some(j), positions) == Apply(ar, tokens, kind, j, positions)
  {
  }

  lemma SameMembers(a: map<string, Json>, b: map<string, Json>)
    requires forall k :: Get(a, k) == Get(b, k)
    ensures a == b
  {
    assert forall k :: k in a <==> Get(a, k).Some?;
    assert forall k :: k in b <==> Get(b, k).Some?;
    assert forall k :: k in a ==> Get(a, k) == Some(a[k]);
  }

  lemma {:induction false} TwiceItems(ar: Arith, tokens: Pattern, kind: Kind, items: seq<Json>, a: set<nat>, b: set<nat>)
    requires Independent(tokens, kind, a, b) && |tokens| !in a && |tokens| !in b
    ensures Twice(ar, tokens, kind, Arr(items), a, b) == Apply(ar, tokens, kind, Arr(items), a + b)
    decreases Arr(items), 0
  {
    forall i | 0 <= i < |items|
      ensures Twice(ar, tokens, kind, items[i], AdvanceAll(tokens, a, Index(i)), AdvanceAll(tokens, b, Index(i)))
        == Apply(ar, tokens, kind, items[i], AdvanceAll(tokens, a + b, Index(i)))
    {
      IndependentBelow(tokens, kind, a, b, Index(i));
      TwiceIsUnion(ar, tokens, kind, items[i], AdvanceAll(tokens, a, Index(i)), AdvanceAll(tokens, b, Index(i)));
      assert AdvanceAll(tokens, a + b, Index(i)) == AdvanceAll(tokens, a, Index(i)) + AdvanceAll(tokens, b, Index(i));
    }
    var first := Apply(ar, tokens, kind, Arr(items), a);
    if first.Ok? {
      var between := first.value.value.items;
      forall i | 0 <= i < |items|
        ensures SameKept(Apply(ar, tokens, kind, between[i], AdvanceAll(tokens, b, Index(i))),
                         Apply(ar, tokens, kind, items[i], AdvanceAll(tokens, a + b, Index(i))))
      {
        if Apply(ar, tokens, kind, items[i], AdvanceAll(tokens, a, Index(i))) == Ok(None) {
          OnlyRemovesRemove(ar, tokens, kind, items[i], AdvanceAll(tokens, a, Index(i)));
        }
      }
      var both, union := Twice(ar, tokens, kind, Arr(items), a, b), Apply(ar, tokens, kind, Arr(items), a + b);
      if both.Ok? && union.Ok? {
        assert both.value.value.items == union.value.value.items;
      }
    }
  }

  lemma OnlyRemovesRemove(ar: Arith, tokens: Pattern, kind: Kind, j: Json, positions: set<nat>)
    requires Apply(ar, tokens, kind, j, positions) == Ok(None)
    ensures kind.Remove?
  {
  }

  // ----- what changes, path by path -----

  /** The mutation's effect in plain terms: set, removed, or counted up from a number or from nothing. */
  predicate Becomes(ar: Arith, kind: Kind, before: Node, after: Node) {
    && (kind.SetTo? ==> after == Some(kind.value))
    && (kind.Remove? ==> after == None)
    && (kind.Increment? && before.None? ==> after == Some(Num(ar.format(ar.normalize(kind.delta)))))
    && (kind.Increment? && before.Some? ==>
      && before.value.Num? && ar.parse(before.value.literal).Some?
      && after == Some(Num(ar.format(ar.normalize(ar.add(ar.parse(before.value.literal).value, kind.delta))))))
  }

  /** Only counting up what is there without being a number fails. */
  predicate Countless(ar: Arith, kind: Kind, before: Node) {
    kind.Increment? && before.Some? && !(before.value.Num? && ar.parse(before.value.literal).Some?)
  }

  /** No node on the way to the path is a target. */
  predicate NoneAbove(tokens: Pattern, positions: set<nat>, path: Path)
    decreases path
  {
    path == [] || (|tokens| !in positions && NoneAbove(tokens, AdvanceAll(tokens, positions, path[0]), path[1..]))
  }

  /** One step down: the child in the outcome is the child's outcome. */
  lemma ChildOutcome(ar: Arith, tokens: Pattern, kind: Kind, j: Json, positions: set<nat>, s: Segment)
    requires |tokens| !in positions && Child(j, s).Some? && Apply(ar, tokens, kind, j, positions).Ok?
    ensures var r := Apply(ar, tokens, kind, j, positions);
      var below := Apply(ar, tokens, kind, Child(j, s).value, AdvanceAll(tokens, positions, s));
      r.value.Some? && below.Ok? &&
      Child(r.value.value, s) == if s.Index? then Some(Kept(below.value)) else below.value
  {
  }

  /** A target that no other target covers becomes what the mutation makes of it; a removed array element leaves a null. */
  lemma {:induction false} TargetChanges(ar: Arith, tokens: Pattern, kind: Kind, j: Json, positions: set<nat>, path: Path)
    requires path != [] && NoneAbove(tokens, positions, path) && Reached(tokens, positions, path)
    requires At(j, path).Some? && Apply(ar, tokens, kind, j, positions).Ok?
    ensures var r := Apply(ar, tokens, kind, j, positions).value;
      && r.Some?
      && (if kind.Remove? && path[|path| - 1].Index? then At(r.value, path) == Some(Null)
          else Becomes(ar, kind, At(j, path), At(r.value, path)))
    decreases path
  {
    var s, next := path[0], AdvanceAll(tokens, positions, path[0]);
    ChildOutcome(ar, tokens, kind, j, positions, s);
    var child := Child(j, s).value;
    if |path| == 1 {
      assert path[1..] == [] && Reached(tokens, next, []) && |tokens| in next;
    } else {
      TargetChanges(ar, tokens, kind, child, next, path[1..]);
    }
  }

  /** What is not there is not there afterwards. */
  lemma NoChildAppears(ar: Arith, tokens: Pattern, kind: Kind, j: Json, positions: set<nat>, s: Segment)
    requires |tokens| !in positions && Child(j, s).None? && Apply(ar, tokens, kind, j, positions).Ok?
    ensures var r := Apply(ar, tokens, kind, j, positions); r.value.Some? && Child(r.value.value, s).None?
  {
  }

  /** Neither a target nor under one: a scalar stays as it is, an object an object, an array an array as long; and nothing appears. */
  lemma {:induction false} OthersStay(ar: Arith, tokens: Pattern, kind: Kind, j: Json, positions: set<nat>, path: Path)
    requires NoneAbove(tokens, positions, path) && (At(j, path).Some? ==> !Reached(tokens, positions, path))
    requires Apply(ar, tokens, kind, j, positions).Ok?
    ensures var r := Apply(ar, tokens, kind, j, positions).value; r.Some? && SameNode(At(j, path), At(r.value, path))
    decreases path
  {
    if path != [] {
      if Child(j, path[0]).Some? {
        ChildOutcome(ar, tokens, kind, j, positions, path[0]);
        OthersStay(ar, tokens, kind, Child(j, path[0]).value, AdvanceAll(tokens, positions, path[0]), path[1..]);
      } else {
        NoChildAppears(ar, tokens, kind, j, positions, path[0]);
      }
    }
  }

  /** The same scalar, containers of the same kind, or nothing in both. */
  predicate SameNode(v: Node, w: Node) {
    if v.None? || w.None? then v == w
    else match (v.value, w.value)
      case (Obj(_), Obj(_)) => true
      case (Arr(xs), Arr(ys)) => |xs| == |ys|
      case (x, y) => x == y
  }

  function Keys(path: seq<string>): Path {
    seq(|path|, i requires 0 <= i < |path| => Key(path[i]))
  }

  /** A literal set or increment puts its result at its path, creating what is missing on the way. */
  lemma {:induction false} CreateReaches(ar: Arith, kind: Kind, v: Node, path: seq<string>)
    requires !kind.Remove? && path != []
    ensures var before := if v.None? then None else At(v.value, Keys(path));
      && (Create(ar, kind, v, path).Fail? <==> Countless(ar, kind, before))
      && (Create(ar, kind, v, path).Ok? ==> Becomes(ar, kind, before, At(Create(ar, kind, v, path).value.value, Keys(path))))
    decreases path
  {
    var below := Get(MembersOf(v), path[0]);
    assert Keys(path)[0] == Key(path[0]) && Keys(path)[1..] == Keys(path[1..]);
    if |path| > 1 {
      CreateReaches(ar, kind, below, path[1..]);
    } else {
      assert path[1..] == [] && Keys(path[1..]) == [];
    }
  }

  /** Neither path leads to the other. */
  predicate Diverge(p: Path, q: Path) {
    p != [] && q != [] && (p[0] != q[0] || Diverge(p[1..], q[1..]))
  }

  /** The first step of q that p does not take is to a key. */
  predicate PartsByKey(p: Path, q: Path)
    requires Diverge(p, q)
  {
    if p[0] != q[0] then q[0].Key? else PartsByKey(p[1..], q[1..])
  }

  function AtNode(v: Node, path: Path): Node {
    if v.None? then None else At(v.value, path)
  }

  /**
   Away from its path a literal set or increment changes nothing, but for arrays and scalars on the
   way, which are gone: a path that parts from it by a key leads to what it led to, one that parts
   by an index leads nowhere.
   */
  lemma {:induction false} CreateKeeps(ar: Arith, kind: Kind, v: Node, path: seq<string>, q: Path)
    requires !kind.Remove? && Diverge(Keys(path), q) && Create(ar, kind, v, path).Ok?
    ensures At(Create(ar, kind, v, path).value.value, q) == if PartsByKey(Keys(path), q) then AtNode(v, q) else None
    decreases path
  {
    assert Keys(path)[0] == Key(path[0]) && Keys(path)[1..] == Keys(path[1..]);
    if q[0] == Key(path[0]) {
      CreateKeeps(ar, kind, Get(MembersOf(v), path[0]), path[1..], q[1..]);
    }
  }

  /** Every step of the path but the last leads to an object afterwards. */
  lemma {:induction false} CreateOpens(ar: Arith, kind: Kind, v: Node, path: seq<string>, n: nat)
    requires !kind.Remove? && n < |path| && Create(ar, kind, v, path).Ok?
    ensures var there := At(Create(ar, kind, v, path).value.value, Keys(path)[..n]); there.Some? && there.value.Obj?
    decreases path
  {
    if n > 0 {
      var front := Keys(path)[..n];
      assert front[0] == Key(path[0]) && front[1..] == Keys(path[1..])[..n - 1];
      CreateOpens(ar, kind, Get(MembersOf(v), path[0]), path[1..], n - 1);
    }
  }

  /** The segments that make a path a wildcard path are those that do not name a child. */
  lemma WildcardsNameNoChild(segment: string)
    ensures IsWildcard(segment) <==> !CompileToken(segment).Literal?
  {
  }

  predicate FiniteNumber(ar: Arith, j: Json) {
    j.Num? && ar.parse(j.literal).Some? ==> ar.finite(ar.parse(j.literal).value)
  }

  lemma FiniteByChildren(ar: Arith, j: Json)
    ensures AllFinite(ar, j) <==> FiniteNumber(ar, j) && forall s :: Child(j, s).Some? ==> AllFinite(ar, Child(j, s).value)
  {
    match j
    case Obj(m) =>
      assert forall k :: k in m ==> Child(j, Key(k)) == Some(m[k]);
    case Arr(items) =>
      assert forall i: nat :: i < |items| ==> Child(j, Index(i)) == Some(items[i]);
    case _ =>
  }

  lemma {:induction false} FiniteAlong(ar: Arith, j: Json, path: Path)
    requires AllFinite(ar, j) && At(j, path).Some?
    ensures FiniteNumber(ar, At(j, path).value)
    decreases path
  {
    if path != [] {
      FiniteByChildren(ar, j);
      FiniteAlong(ar, Child(j, path[0]).value, path[1..]);
    }
  }

  lemma {:induction false} InfiniteSomewhere(ar: Arith, j: Json) returns (path: Path)
    requires !AllFinite(ar, j)
    ensures At(j, path).Some? && !FiniteNumber(ar, At(j, path).value)
    decreases j
  {
    FiniteByChildren(ar, j);
    if !FiniteNumber(ar, j) {
      return [];
    }
    var s :| Child(j, s).Some? && !AllFinite(ar, Child(j, s).value);
    var below := InfiniteSomewhere(ar, Child(j, s).value);
    path := [s] + below;
  }

  /** A tree is finite exactly if no number at any path has left the finite range. */
  lemma FiniteEverywhere(ar: Arith, j: Json)
    ensures AllFinite(ar, j) <==> forall path :: At(j, path).Some? ==> FiniteNumber(ar, At(j, path).value)
  {
    forall path | AllFinite(ar, j) && At(j, path).Some? ensures FiniteNumber(ar, At(j, path).value) {
      FiniteAlong(ar, j, path);
    }
    if !AllFinite(ar, j) {
      var path := InfiniteSomewhere(ar, j);
    }
  }

  // ----- when a wildcard mutation fails -----

  /** A target that no other covers and that cannot be counted up. */
  predicate FailsAt(ar: Arith, tokens: Pattern, kind: Kind, j: Json, positions: set<nat>, path: Path) {
    NoneAbove(tokens, positions, path) && Reached(tokens, positions, path) && At(j, path).Some? && Countless(ar, kind, At(j, path))
  }

  lemma {:induction false} TargetFails(ar: Arith, tokens: Pattern, kind: Kind, j: Json, positions: set<nat>, path: Path)
    requires FailsAt(ar, tokens, kind, j, positions, path)
    ensures Apply(ar, tokens, kind, j, positions).Fail?
    decreases path
  {
    if path != [] {
      var s := path[0];
      TargetFails(ar, tokens, kind, Child(j, s).value, AdvanceAll(tokens, positions, s), path[1..]);
    }
  }

  lemma {:induction false} FailureHasTarget(ar: Arith, tokens: Pattern, kind: Kind, j: Json, positions: set<nat>) returns (path: Path)
    requires Apply(ar, tokens, kind, j, positions).Fail?
    ensures FailsAt(ar, tokens, kind, j, positions, path)
    decreases j
  {
    if |tokens| in positions {
      return [];
    }
    var s := FailingChild(ar, tokens, kind, j, positions);
    var below := FailureHasTarget(ar, tokens, kind, Child(j, s).value, AdvanceAll(tokens, positions, s));
    path := [s] + below;
  }

  lemma FailingChild(ar: Arith, tokens: Pattern, kind: Kind, j: Json, positions: set<nat>) returns (s: Segment)
    requires |tokens| !in positions && Apply(ar, tokens, kind, j, positions).Fail?
    ensures Child(j, s).Some? && Apply(ar, tokens, kind, Child(j, s).value, AdvanceAll(tokens, positions, s)).Fail?
  {
    match j
    case Obj(m) =>
      var k :| k in m && Apply(ar, tokens, kind, m[k], AdvanceAll(tokens, positions, Key(k))).Fail?;
      return Key(k);
    case Arr(items) =>
      var i :| 0 <= i < |items| && Apply(ar, tokens, kind, items[i], AdvanceAll(tokens, positions, Index(i))).Fail?;
      return Index(i);
  }

  /** A wildcard mutation fails exactly at an uncovered target that is there and cannot be counted up. */
  lemma FailsExactlyAtTargets(ar: Arith, tokens: Pattern, kind: Kind, j: Json, positions: set<nat>)
    ensures Apply(ar, tokens, kind, j, positions).Fail? <==> exists path :: FailsAt(ar, tokens, kind, j, positions, path)
  {
    if Apply(ar, tokens, kind, j, positions).Fail? {
      var path := FailureHasTarget(ar, tokens, kind, j, positions);
    }
    if path :| FailsAt(ar, tokens, kind, j, positions, path) {
      TargetFails(ar, tokens, kind, j, positions, path);
    }
  }
}
