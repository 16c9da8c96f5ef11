/** Mutations the simple way: one after another, each walking the document and changing it in place. */
module Reference {
  import opened Bytes
  import opened Json
  import opened Patterns
  import opened Mutations

  // ----- what the descents rely on -----

  /** An increment descends at most once: with two descents the walk would count a node once per way to reach it. */
  predicate DescendsOnce(c: Compiled) {
    c.kind.Increment? ==> forall i, j | 0 <= i < j < |c.tokens| :: !(c.tokens[i].Recursive? && c.tokens[j].Recursive?)
  }

  lemma {:induction false} PlainHitLength(tokens: Pattern, path: Path)
    requires NoRecursive(tokens) && Hits(tokens, path)
    ensures |path| == |tokens|
    decreases tokens
  {
    if tokens != [] {
      PlainHitLength(tokens[1..], path[1..]);
    }
  }

  lemma {:induction false} DescentHitLength(tokens: Pattern, path: Path)
    requires |tokens| > 1 && tokens[0].Recursive? && NoRecursive(tokens[1..]) && Hits(tokens, path)
    ensures |path| >= |tokens| - 1
    decreases path
  {
    if Hits(tokens[1..], path) {
      PlainHitLength(tokens[1..], path);
    } else {
      DescentHitLength(tokens, path[1..]);
    }
  }

  /** What a descent does at a child first: its continuation, or the target itself when it trails. */
  function Continuation(tokens: Pattern, pos: nat, s: Segment): set<nat>
    requires pos < |tokens|
  {
    if pos + 1 == |tokens| then {|tokens|} else AdvanceAll(tokens, {pos + 1}, s)
  }

  lemma DescentSplits(tokens: Pattern, pos: nat, s: Segment)
    requires pos < |tokens| && tokens[pos].Recursive?
    ensures AdvanceAll(tokens, {pos}, s) == Continuation(tokens, pos, s) + {pos}
  {
    OneStep(tokens, pos, s);
  }

  /** The continuation of a descent and the descent itself never hit the same node. */
  lemma DescentIsIndependent(c: Compiled, pos: nat, s: Segment)
    requires WellFormed(c) && DescendsOnce(c) && pos < |c.tokens| && c.tokens[pos].Recursive?
    ensures Independent(c.tokens, c.kind, Continuation(c.tokens, pos, s), {pos})
  {
    forall p | c.kind.Increment?
      ensures !(Reached(c.tokens, Continuation(c.tokens, pos, s), p) && Reached(c.tokens, {pos}, p))
    {
      FinishedMeansHit(c.tokens, pos, p);
      if pos + 1 == |c.tokens| {
        FinishedIsOver(c.tokens, p);
        EmptyPathHits(c.tokens, pos);
      } else {
        ContinuationLength(c, pos, s, p);
      }
    }
  }

  lemma ContinuationLength(c: Compiled, pos: nat, s: Segment, p: Path)
    requires WellFormed(c) && DescendsOnce(c) && c.kind.Increment? && pos + 1 < |c.tokens| && c.tokens[pos].Recursive?
    ensures !(Reached(c.tokens, AdvanceAll(c.tokens, {pos + 1}, s), p) && Hits(c.tokens[pos..], p))
  {
    var tail := c.tokens[pos..];
    assert tail[1..] == c.tokens[pos + 1..];
    assert NoRecursive(tail[1..]);
    assert ([s] + p)[1..] == p;
    assert Reached(c.tokens, {pos + 1}, [s] + p) <==> Reached(c.tokens, AdvanceAll(c.tokens, {pos + 1}, s), p);
    FinishedMeansHit(c.tokens, pos + 1, [s] + p);
    if Hits(tail[1..], [s] + p) {
      PlainHitLength(tail[1..], [s] + p);
    }
    if Hits(tail, p) {
      DescentHitLength(tail, p);
    }
  }

  /** A value that a mutation has been over still fits into the shape it had. */
  ghost predicate Fits(a: Json, b: Json)
    decreases a
  {
    match a
    case Obj(m) => b.Obj? && forall k | k in m :: k in b.members && Fits(m[k], b.members[k])
    case Arr(items) => b.Arr? && |items| == |b.items| && forall i | 0 <= i < |items| :: Fits(items[i], b.items[i])
    case _ => true
  }

  lemma {:induction false} FitsItself(j: Json)
    ensures Fits(j, j)
    decreases j
  {
    match j
    case Obj(m) =>
      forall k | k in m ensures Fits(m[k], m[k]) {
        FitsItself(m[k]);
      }
    case Arr(items) =>
      forall i | 0 <= i < |items| ensures Fits(items[i], items[i]) {
        FitsItself(items[i]);
      }
    case _ =>
  }

  lemma {:induction false} MutatedFits(ar: Arith, tokens: Pattern, kind: Kind, j: Json, shape: Json, positions: set<nat>)
    requires Fits(j, shape) && (kind.SetTo? ==> IsScalar(kind.value))
    ensures var r := Apply(ar, tokens, kind, j, positions); r.Ok? && r.value.Some? ==> Fits(r.value.value, shape)
    decreases j
  {
    if |tokens| !in positions && Apply(ar, tokens, kind, j, positions).Ok? {
      match j
      case Obj(m) =>
        forall k | k in m
          ensures var r := Apply(ar, tokens, kind, m[k], AdvanceAll(tokens, positions, Key(k)));
            r.Ok? && r.value.Some? ==> Fits(r.value.value, shape.members[k])
        {
          MutatedFits(ar, tokens, kind, m[k], shape.members[k], AdvanceAll(tokens, positions, Key(k)));
        }
      case Arr(items) =>
        forall i | 0 <= i < |items|
          ensures var r := Apply(ar, tokens, kind, items[i], AdvanceAll(tokens, positions, Index(i)));
            r.Ok? && r.value.Some? ==> Fits(r.value.value, shape.items[i])
        {
          MutatedFits(ar, tokens, kind, items[i], shape.items[i], AdvanceAll(tokens, positions, Index(i)));
        }
      case _ =>
    }
  }

  // ----- from the children to the node -----

  /** The members decide the object. */
  ghost predicate MembersAre(ar: Arith, c: Compiled, m: map<string, Json>, positions: set<nat>, r: Result<map<string, Json>>) {
    if r.Fail? then exists k :: MemberOutcome(ar, c.tokens, c.kind, m, positions, k).Fail?
    else forall k :: MemberOutcome(ar, c.tokens, c.kind, m, positions, k) == Ok(Get(r.value, k))
  }

  lemma FromMembers(ar: Arith, c: Compiled, m: map<string, Json>, positions: set<nat>, r: Result<map<string, Json>>)
    requires |c.tokens| !in positions && MembersAre(ar, c, m, positions, r)
    ensures Apply(ar, c.tokens, c.kind, Obj(m), positions) == if r.Fail? then Fail else Ok(Some(Obj(r.value)))
  {
    hide Apply, MemberOutcome;
    MemberOutcomes(ar, c.tokens, c.kind, m, positions);
    var whole := Apply(ar, c.tokens, c.kind, Obj(m), positions);
    if r.Fail? {
      var k :| MemberOutcome(ar, c.tokens, c.kind, m, positions, k).Fail?;
    } else if whole.Ok? {
      forall k ensures Get(whole.value.value.members, k) == Get(r.value, k) {
        assert MemberOutcome(ar, c.tokens, c.kind, m, positions, k) == Ok(Get(r.value, k));
      }
      SameMembers(whole.value.value.members, r.value);
    }
  }

  function ItemOutcome(ar: Arith, c: Compiled, items: seq<Json>, positions: set<nat>, i: nat): Outcome
    requires i < |items|
  {
    Apply(ar, c.tokens, c.kind, items[i], AdvanceAll(c.tokens, positions, Index(i)))
  }

  ghost predicate ItemsAre(ar: Arith, c: Compiled, items: seq<Json>, positions: set<nat>, r: Result<seq<Json>>) {
    if r.Fail? then exists i :: 0 <= i < |items| && ItemOutcome(ar, c, items, positions, i).Fail?
    else |r.value| == |items| && forall i :: 0 <= i < |items| ==> ItemIs(ItemOutcome(ar, c, items, positions, i), r.value[i])
  }

  predicate ItemIs(r: Outcome, item: Json) {
    r.Ok? && Kept(r.value) == item
  }

  lemma FromItems(ar: Arith, c: Compiled, items: seq<Json>, positions: set<nat>, r: Result<seq<Json>>)
    requires |c.tokens| !in positions && ItemsAre(ar, c, items, positions, r)
    ensures Apply(ar, c.tokens, c.kind, Arr(items), positions) == if r.Fail? then Fail else Ok(Some(Arr(r.value)))
  {
    var whole := Apply(ar, c.tokens, c.kind, Arr(items), positions);
    forall i | 0 <= i < |items|
      ensures ItemOutcome(ar, c, items, positions, i) == Apply(ar, c.tokens, c.kind, items[i], AdvanceAll(c.tokens, positions, Index(i)))
    {
    }
    if r.Ok? {
      forall i | 0 <= i < |items|
        ensures ItemIs(Apply(ar, c.tokens, c.kind, items[i], AdvanceAll(c.tokens, positions, Index(i))), r.value[i])
      {
        assert ItemIs(ItemOutcome(ar, c, items, positions, i), r.value[i]);
      }
      assert whole.Ok? && whole.value.value.items == r.value;
    }
  }

  // ----- the walk -----

  /** What a loop over children does to each: mutate it, walk on along the path, or keep descending. */
  datatype Visit = Target | Onward(pos: nat) | Descend(pos: nat)

  predicate VisitOk(c: Compiled, visit: Visit) {
    match visit
    case Target => true
    case Onward(pos) => pos < |c.tokens|
    case Descend(pos) => pos < |c.tokens| && c.tokens[pos].Recursive?
  }

  function VisitAt(c: Compiled, visit: Visit): set<nat> {
    match visit
    case Target => {|c.tokens|}
    case Onward(pos) => {pos}
    case Descend(pos) => {pos}
  }

  ghost predicate EachMember(ar: Arith, c: Compiled, m: map<string, Json>, positions: set<nat>, r: Result<map<string, Json>>) {
    if r.Fail? then exists k :: ApplyNode(ar, c.tokens, c.kind, Get(m, k), positions).Fail?
    else forall k :: ApplyNode(ar, c.tokens, c.kind, Get(m, k), positions) == Ok(Get(r.value, k))
  }

  ghost predicate EachItem(ar: Arith, c: Compiled, items: seq<Json>, positions: set<nat>, r: Result<seq<Json>>) {
    if r.Fail? then exists i :: 0 <= i < |items| && Apply(ar, c.tokens, c.kind, items[i], positions).Fail?
    else |r.value| == |items| && forall i :: 0 <= i < |items| ==> ItemIs(Apply(ar, c.tokens, c.kind, items[i], positions), r.value[i])
  }

  /** Which children one plain segment leads to. */
  lemma PlainStep(c: Compiled, pos: nat, s: Segment)
    requires WellFormed(c) && pos < |c.path| && c.path[pos] != "..."
    ensures AdvanceAll(c.tokens, {pos}, s) == if TokenMatches(CompileToken(c.path[pos]), s) then {pos + 1} else {}
  {
    hide TokenMatches;
    assert c.tokens[pos] == CompileToken(c.path[pos]);
    OneStep(c.tokens, pos, s);
  }

  lemma OnwardMembers(ar: Arith, c: Compiled, m: map<string, Json>, pos: nat, r: Result<map<string, Json>>)
    requires WellFormed(c) && pos < |c.path| && (c.path[pos] == "*" || c.path[pos] == "**")
    requires EachMember(ar, c, m, {pos + 1}, r)
    ensures MembersAre(ar, c, m, {pos}, r)
  {
    forall k ensures MemberOutcome(ar, c.tokens, c.kind, m, {pos}, k) == ApplyNode(ar, c.tokens, c.kind, Get(m, k), {pos + 1}) {
      PlainStep(c, pos, Key(k));
    }
    if r.Fail? {
      var k :| ApplyNode(ar, c.tokens, c.kind, Get(m, k), {pos + 1}).Fail?;
      assert MemberOutcome(ar, c.tokens, c.kind, m, {pos}, k).Fail?;
    }
  }

  lemma OnwardItems(ar: Arith, c: Compiled, items: seq<Json>, pos: nat, r: Result<seq<Json>>)
    requires WellFormed(c) && pos < |c.path| && (c.path[pos] == "[]" || c.path[pos] == "**")
    requires EachItem(ar, c, items, {pos + 1}, r)
    ensures ItemsAre(ar, c, items, {pos}, r)
  {
    forall i | 0 <= i < |items|
      ensures ItemOutcome(ar, c, items, {pos}, i) == Apply(ar, c.tokens, c.kind, items[i], {pos + 1})
    {
      PlainStep(c, pos, Index(i));
    }
    if r.Fail? {
      var i :| 0 <= i < |items| && Apply(ar, c.tokens, c.kind, items[i], {pos + 1}).Fail?;
      assert ItemOutcome(ar, c, items, {pos}, i).Fail?;
    }
  }

  /** One child at most: every other child is left alone. */
  lemma OnlyMember(ar: Arith, c: Compiled, m: map<string, Json>, pos: nat, k: string, v: Outcome)
    requires WellFormed(c) && pos < |c.path| && c.path[pos] !in ["...", "*", "**"]
    requires k == c.path[pos] && v == if k == "[]" then Ok(Get(m, k)) else ApplyNode(ar, c.tokens, c.kind, Get(m, k), {pos + 1})
    ensures MembersAre(ar, c, m, {pos}, if v.Fail? then Fail else Ok(Put(m, k, v.value)))
  {
    forall other ensures MemberOutcome(ar, c.tokens, c.kind, m, {pos}, other) == if other == k then v else Ok(Get(m, other)) {
      PlainStep(c, pos, Key(other));
      if other in m {
        NoPositionsNoChange(ar, c.tokens, c.kind, m[other]);
      }
    }
    if v.Ok? {
      forall other ensures Get(Put(m, k, v.value), other) == if other == k then v.value else Get(m, other) {
      }
    }
  }

  function Put(m: map<string, Json>, k: string, v: Node): map<string, Json> {
    if v.Some? then m[k := v.value] else m - {k}
  }

  /** One element at most, if the segment is one of its indices. */
  lemma OnlyItem(ar: Arith, c: Compiled, items: seq<Json>, pos: nat, v: Outcome)
    requires WellFormed(c) && pos < |c.path| && c.path[pos] !in ["...", "[]", "**"]
    requires var index := Atoi(c.path[pos]);
      c.path[pos] != "*" && index.Some? && 0 <= index.value < |items| && v == Apply(ar, c.tokens, c.kind, items[index.value], {pos + 1})
    ensures ItemsAre(ar, c, items, {pos}, if v.Fail? then Fail else Ok(items[Atoi(c.path[pos]).value := Kept(v.value)]))
  {
    var index := Atoi(c.path[pos]).value;
    forall i | 0 <= i < |items|
      ensures ItemOutcome(ar, c, items, {pos}, i) == if i == index then v else Ok(Some(items[i]))
    {
      PlainStep(c, pos, Index(i));
      NoPositionsNoChange(ar, c.tokens, c.kind, items[i]);
    }
    if v.Fail? {
      assert ItemOutcome(ar, c, items, {pos}, index).Fail?;
    }
  }

  lemma NoItem(ar: Arith, c: Compiled, items: seq<Json>, pos: nat)
    requires WellFormed(c) && pos < |c.path| && c.path[pos] !in ["...", "[]", "**"]
    requires c.path[pos] == "*" || Atoi(c.path[pos]).None? || !(0 <= Atoi(c.path[pos]).value < |items|)
    ensures ItemsAre(ar, c, items, {pos}, Ok(items))
  {
    forall i | 0 <= i < |items| ensures ItemIs(ItemOutcome(ar, c, items, {pos}, i), items[i]) {
      PlainStep(c, pos, Index(i));
      NoPositionsNoChange(ar, c.tokens, c.kind, items[i]);
    }
  }

  /** Every member in any order. */
  method MutateMembers(ar: Arith, m: map<string, Json>, c: Compiled, visit: Visit, ghost shape: Json) returns (r: Result<map<string, Json>>)
    requires WellFormed(c) && c.wildcard && DescendsOnce(c) && VisitOk(c, visit) && Fits(Obj(m), shape)
    ensures EachMember(ar, c, m, VisitAt(c, visit), r)
    decreases if visit.Target? then 0 else |c.tokens| - visit.pos, shape, 0
  {
    var members, keys := m, m.Keys;
    while keys != {}
      invariant keys <= m.Keys && forall k :: k in keys ==> k in members && members[k] == m[k]
      invariant forall k :: k !in keys ==> ApplyNode(ar, c.tokens, c.kind, Get(m, k), VisitAt(c, visit)) == Ok(Get(members, k))
      decreases keys
    {
      var k :| k in keys;
      var v := MutateChild(ar, members[k], c, visit, shape.members[k]);
      if v.Fail? {
        assert ApplyNode(ar, c.tokens, c.kind, Get(m, k), VisitAt(c, visit)).Fail?;
        return Fail;
      }
      members := if v.value.Some? then members[k := v.value.value] else members - {k};
      keys := keys - {k};
    }
    return Ok(members);
  }

  /** Every element in order; a removed one becomes null. */
  method MutateItems(ar: Arith, items: seq<Json>, c: Compiled, visit: Visit, ghost shape: Json) returns (r: Result<seq<Json>>)
    requires WellFormed(c) && c.wildcard && DescendsOnce(c) && VisitOk(c, visit) && Fits(Arr(items), shape)
    ensures EachItem(ar, c, items, VisitAt(c, visit), r)
    decreases if visit.Target? then 0 else |c.tokens| - visit.pos, shape, 0
  {
    var out := items;
    for i := 0 to |items|
      invariant |out| == |items| && forall k :: i <= k < |items| ==> out[k] == items[k]
      invariant forall k :: 0 <= k < i ==> ItemIs(Apply(ar, c.tokens, c.kind, items[k], VisitAt(c, visit)), out[k])
    {
      var v := MutateChild(ar, out[i], c, visit, shape.items[i]);
      if v.Fail? {
        return Fail;
      }
      out := out[i := Kept(v.value)];
    }
    return Ok(out);
  }

  method MutateChild(ar: Arith, child: Json, c: Compiled, visit: Visit, ghost shape: Json) returns (r: Outcome)
    requires WellFormed(c) && c.wildcard && DescendsOnce(c) && VisitOk(c, visit) && Fits(child, shape)
    ensures r == Apply(ar, c.tokens, c.kind, child, VisitAt(c, visit))
    decreases if visit.Target? then 0 else |c.tokens| - visit.pos, shape, 3
  {
    match visit
    case Target => r := Here(ar, c.kind, Some(child));
    case Onward(pos) => r := ApplyAtPath(ar, child, c, pos, shape);
    case Descend(pos) => r := ApplyRecursive(ar, child, c, pos, shape);
  }

  /** Walk the rest of the path from a node. */
  method ApplyAtPath(ar: Arith, node: Json, c: Compiled, pos: nat, ghost shape: Json) returns (r: Outcome)
    requires WellFormed(c) && c.wildcard && DescendsOnce(c) && pos < |c.tokens| && Fits(node, shape)
    ensures r == Apply(ar, c.tokens, c.kind, node, {pos})
    decreases |c.tokens| - pos, shape, 2
  {
    var next := if pos + 1 == |c.tokens| then Target else Onward(pos + 1);
    var segment := c.path[pos];
    if segment == "..." {
      r := ApplyRecursive(ar, node, c, pos, shape);
      return;
    }
    match node
    case Obj(m) =>
      if segment == "*" || segment == "**" {
        var all := MutateMembers(ar, m, c, next, shape);
        OnwardMembers(ar, c, m, pos, all);
        FromMembers(ar, c, m, {pos}, all);
        return if all.Fail? then Fail else Ok(Some(Obj(all.value)));
      }
      var v := Ok(Get(m, segment));
      if segment != "[]" && segment in m {
        v := MutateChild(ar, m[segment], c, next, shape.members[segment]);
      }
      OnlyMember(ar, c, m, pos, segment, v);
      FromMembers(ar, c, m, {pos}, if v.Fail? then Fail else Ok(Put(m, segment, v.value)));
      r := if v.Fail? then Fail else Ok(Some(Obj(Put(m, segment, v.value))));
    case Arr(items) =>
      if segment == "[]" || segment == "**" {
        var all := MutateItems(ar, items, c, next, shape);
        OnwardItems(ar, c, items, pos, all);
        FromItems(ar, c, items, {pos}, all);
        return if all.Fail? then Fail else Ok(Some(Arr(all.value)));
      }
      var index := Atoi(segment);
      if segment == "*" || index.None? || index.value < 0 || index.value >= |items| {
        NoItem(ar, c, items, pos);
        FromItems(ar, c, items, {pos}, Ok(items));
        return Ok(Some(node));
      }
      var v := MutateChild(ar, items[index.value], c, next, shape.items[index.value]);
      var out := if v.Fail? then Fail else Ok(items[index.value := Kept(v.value)]);
      OnlyItem(ar, c, items, pos, v);
      FromItems(ar, c, items, {pos}, out);
      r := if out.Fail? then Fail else Ok(Some(Arr(out.value)));
    case _ =>
      r := Ok(Some(node));
  }

  // ----- descents -----

  function ContinuedMember(ar: Arith, c: Compiled, m: map<string, Json>, pos: nat, k: string): Outcome
    requires pos < |c.tokens|
  {
    ApplyNode(ar, c.tokens, c.kind, Get(m, k), Continuation(c.tokens, pos, Key(k)))
  }

  /** The descent's continuation has been over every member. */
  ghost predicate Continued(ar: Arith, c: Compiled, m: map<string, Json>, pos: nat, r: Result<map<string, Json>>)
    requires pos < |c.tokens|
  {
    if r.Fail? then exists k :: ContinuedMember(ar, c, m, pos, k).Fail?
    else forall k :: ContinuedMember(ar, c, m, pos, k) == Ok(Get(r.value, k))
  }

  lemma ContinuedFits(ar: Arith, c: Compiled, m: map<string, Json>, pos: nat, between: map<string, Json>, shape: Json)
    requires WellFormed(c) && pos < |c.tokens| && Fits(Obj(m), shape) && Continued(ar, c, m, pos, Ok(between))
    ensures Fits(Obj(between), shape)
  {
    forall k | k in between ensures k in shape.members && Fits(between[k], shape.members[k]) {
      assert ContinuedMember(ar, c, m, pos, k) == Ok(Get(between, k));
      MutatedFits(ar, c.tokens, c.kind, m[k], shape.members[k], Continuation(c.tokens, pos, Key(k)));
    }
  }

  /** Continuation first and descent afterwards are together one step of the descent. */
  lemma DescendMembers(ar: Arith, c: Compiled, m: map<string, Json>, pos: nat, between: Result<map<string, Json>>, r: Result<map<string, Json>>)
    requires WellFormed(c) && DescendsOnce(c) && pos < |c.tokens| && c.tokens[pos].Recursive?
    requires Continued(ar, c, m, pos, between)
    requires if between.Fail? then r.Fail? else EachMember(ar, c, between.value, {pos}, r)
    ensures MembersAre(ar, c, m, {pos}, r)
  {
    forall k
      ensures between.Fail? && ContinuedMember(ar, c, m, pos, k).Fail? ==> MemberOutcome(ar, c.tokens, c.kind, m, {pos}, k).Fail?
      ensures between.Ok? ==>
        MemberOutcome(ar, c.tokens, c.kind, m, {pos}, k) == ApplyNode(ar, c.tokens, c.kind, Get(between.value, k), {pos})
    {
      if k in m {
        DescentSplits(c.tokens, pos, Key(k));
        DescentIsIndependent(c, pos, Key(k));
        TwiceIsUnion(ar, c.tokens, c.kind, m[k], Continuation(c.tokens, pos, Key(k)), {pos});
      }
      assert between.Ok? ==> ContinuedMember(ar, c, m, pos, k) == Ok(Get(between.value, k));
    }
    if between.Fail? {
      var k :| ContinuedMember(ar, c, m, pos, k).Fail?;
    } else if r.Fail? {
      var k :| ApplyNode(ar, c.tokens, c.kind, Get(between.value, k), {pos}).Fail?;
      assert MemberOutcome(ar, c.tokens, c.kind, m, {pos}, k).Fail?;
    }
  }

  function ContinuedItem(ar: Arith, c: Compiled, items: seq<Json>, pos: nat, i: nat): Outcome
    requires pos < |c.tokens| && i < |items|
  {
    Apply(ar, c.tokens, c.kind, items[i], Continuation(c.tokens, pos, Index(i)))
  }

  ghost predicate ContinuedItems(ar: Arith, c: Compiled, items: seq<Json>, pos: nat, r: Result<seq<Json>>)
    requires pos < |c.tokens|
  {
    if r.Fail? then exists i :: 0 <= i < |items| && ContinuedItem(ar, c, items, pos, i).Fail?
    else |r.value| == |items| && forall i :: 0 <= i < |items| ==> ItemIs(ContinuedItem(ar, c, items, pos, i), r.value[i])
  }

  lemma ContinuedItemsFit(ar: Arith, c: Compiled, items: seq<Json>, pos: nat, between: seq<Json>, shape: Json)
    requires WellFormed(c) && pos < |c.tokens| && Fits(Arr(items), shape) && ContinuedItems(ar, c, items, pos, Ok(between))
    ensures Fits(Arr(between), shape)
  {
    forall i | 0 <= i < |between| ensures Fits(between[i], shape.items[i]) {
      assert ItemIs(ContinuedItem(ar, c, items, pos, i), between[i]);
      MutatedFits(ar, c.tokens, c.kind, items[i], shape.items[i], Continuation(c.tokens, pos, Index(i)));
    }
  }

  lemma DescendItems(ar: Arith, c: Compiled, items: seq<Json>, pos: nat, between: Result<seq<Json>>, r: Result<seq<Json>>)
    requires WellFormed(c) && DescendsOnce(c) && pos < |c.tokens| && c.tokens[pos].Recursive?
    requires ContinuedItems(ar, c, items, pos, between)
    requires if between.Fail? then r.Fail? else EachItem(ar, c, between.value, {pos}, r)
    ensures ItemsAre(ar, c, items, {pos}, r)
  {
    forall i | 0 <= i < |items|
      ensures ContinuedItem(ar, c, items, pos, i).Fail? ==> ItemOutcome(ar, c, items, {pos}, i).Fail?
      ensures between.Ok? ==>
        SameKept(ItemOutcome(ar, c, items, {pos}, i), Apply(ar, c.tokens, c.kind, between.value[i], {pos}))
    {
      DescentSplits(c.tokens, pos, Index(i));
      DescentIsIndependent(c, pos, Index(i));
      TwiceIsUnion(ar, c.tokens, c.kind, items[i], Continuation(c.tokens, pos, Index(i)), {pos});
      if between.Ok? {
        assert ItemIs(ContinuedItem(ar, c, items, pos, i), between.value[i]);
      }
    }
    if between.Fail? {
      var i :| 0 <= i < |items| && ContinuedItem(ar, c, items, pos, i).Fail?;
    } else if r.Fail? {
      var i :| 0 <= i < |items| && Apply(ar, c.tokens, c.kind, between.value[i], {pos}).Fail?;
      assert ItemOutcome(ar, c, items, {pos}, i).Fail?;
    } else {
      forall i | 0 <= i < |items| ensures ItemIs(ItemOutcome(ar, c, items, {pos}, i), r.value[i]) {
        assert ItemIs(Apply(ar, c.tokens, c.kind, between.value[i], {pos}), r.value[i]);
      }
    }
  }

  /** The continuation at the members: targets when the descent trails, the rest of the path otherwise. */
  method ContinueMembers(ar: Arith, m: map<string, Json>, c: Compiled, pos: nat, ghost shape: Json) returns (r: Result<map<string, Json>>)
    requires WellFormed(c) && c.wildcard && DescendsOnce(c) && pos < |c.tokens| && c.tokens[pos].Recursive? && Fits(Obj(m), shape)
    ensures Continued(ar, c, m, pos, r) && (r.Ok? ==> Fits(Obj(r.value), shape))
    decreases |c.tokens| - pos, shape, 0
  {
    if pos + 1 == |c.tokens| {
      r := MutateMembers(ar, m, c, Target, shape);
      forall k ensures ContinuedMember(ar, c, m, pos, k) == ApplyNode(ar, c.tokens, c.kind, Get(m, k), {|c.tokens|}) {
      }
      if r.Fail? {
        var k :| ApplyNode(ar, c.tokens, c.kind, Get(m, k), {|c.tokens|}).Fail?;
        assert ContinuedMember(ar, c, m, pos, k).Fail?;
      }
    } else {
      var whole := ApplyAtPath(ar, Obj(m), c, pos + 1, shape);
      MemberOutcomes(ar, c.tokens, c.kind, m, {pos + 1});
      forall k ensures ContinuedMember(ar, c, m, pos, k) == MemberOutcome(ar, c.tokens, c.kind, m, {pos + 1}, k) {
      }
      r := if whole.Fail? then Fail else Ok(whole.value.value.members);
      if r.Fail? {
        var k :| MemberOutcome(ar, c.tokens, c.kind, m, {pos + 1}, k).Fail?;
        assert ContinuedMember(ar, c, m, pos, k).Fail?;
      }
    }
    if r.Ok? {
      ContinuedFits(ar, c, m, pos, r.value, shape);
    }
  }

  method ContinueItems(ar: Arith, items: seq<Json>, c: Compiled, pos: nat, ghost shape: Json) returns (r: Result<seq<Json>>)
    requires WellFormed(c) && c.wildcard && DescendsOnce(c) && pos < |c.tokens| && c.tokens[pos].Recursive? && Fits(Arr(items), shape)
    ensures ContinuedItems(ar, c, items, pos, r) && (r.Ok? ==> Fits(Arr(r.value), shape))
    decreases |c.tokens| - pos, shape, 0
  {
    if pos + 1 == |c.tokens| {
      r := MutateItems(ar, items, c, Target, shape);
      forall i | 0 <= i < |items|
        ensures ContinuedItem(ar, c, items, pos, i) == Apply(ar, c.tokens, c.kind, items[i], {|c.tokens|})
      {
      }
    } else {
      var whole := ApplyAtPath(ar, Arr(items), c, pos + 1, shape);
      forall i | 0 <= i < |items|
        ensures ContinuedItem(ar, c, items, pos, i) == Apply(ar, c.tokens, c.kind, items[i], AdvanceAll(c.tokens, {pos + 1}, Index(i)))
      {
      }
      r := if whole.Fail? then Fail else Ok(whole.value.value.items);
    }
    if r.Ok? {
      ContinuedItemsFit(ar, c, items, pos, r.value, shape);
    }
  }

  /** A descent: first its continuation at this node's children, then the descent in each child as it is now. */
  method ApplyRecursive(ar: Arith, node: Json, c: Compiled, pos: nat, ghost shape: Json) returns (r: Outcome)
    requires WellFormed(c) && c.wildcard && DescendsOnce(c) && pos < |c.tokens| && c.tokens[pos].Recursive? && Fits(node, shape)
    ensures r == Apply(ar, c.tokens, c.kind, node, {pos})
    decreases |c.tokens| - pos, shape, 1
  {
    match node
    case Obj(m) =>
      var between := ContinueMembers(ar, m, c, pos, shape);
      var all := Fail;
      if between.Ok? {
        all := MutateMembers(ar, between.value, c, Descend(pos), shape);
      }
      DescendMembers(ar, c, m, pos, between, all);
      FromMembers(ar, c, m, {pos}, all);
      r := if all.Fail? then Fail else Ok(Some(Obj(all.value)));
    case Arr(items) =>
      var between := ContinueItems(ar, items, c, pos, shape);
      var all := Fail;
      if between.Ok? {
        all := MutateItems(ar, between.value, c, Descend(pos), shape);
      }
      DescendItems(ar, c, items, pos, between, all);
      FromItems(ar, c, items, {pos}, all);
      r := if all.Fail? then Fail else Ok(Some(Arr(all.value)));
    case _ =>
      r := Ok(Some(node));
  }

  // ----- literal paths -----

  /** Remove along a literal path: nothing happens unless every step is an object member. */
  function RemoveAt(m: map<string, Json>, path: seq<string>): map<string, Json>
    requires path != []
    decreases path
  {
    if |path| == 1 then m - {path[0]}
    else if path[0] in m && m[path[0]].Obj? then m[path[0] := Obj(RemoveAt(m[path[0]].members, path[1..]))]
    else m
  }

  /** What has been removed is gone; and nothing changes exactly if it was not there. */
  lemma {:induction false} RemovalRemoves(m: map<string, Json>, path: seq<string>)
    requires path != []
    ensures At(Obj(RemoveAt(m, path)), Keys(path)) == None
    ensures RemoveAt(m, path) == m <==> At(Obj(m), Keys(path)) == None
    decreases path
  {
    assert Keys(path)[0] == Key(path[0]) && Keys(path)[1..] == Keys(path[1..]);
    if |path| > 1 {
      if path[0] in m && m[path[0]].Obj? {
        RemovalRemoves(m[path[0]].members, path[1..]);
      } else {
        assert Keys(path[1..])[0].Key?;
      }
    } else {
      assert Keys(path[1..]) == [];
    }
  }

  /** Every other place is left as it was. */
  lemma {:induction false} RemovalKeeps(m: map<string, Json>, path: seq<string>, q: Path)
    requires path != [] && Diverge(Keys(path), q)
    ensures At(Obj(RemoveAt(m, path)), q) == At(Obj(m), q)
    decreases path
  {
    assert Keys(path)[0] == Key(path[0]) && Keys(path)[1..] == Keys(path[1..]);
    if |path| > 1 && q[0] == Key(path[0]) && path[0] in m && m[path[0]].Obj? {
      RemovalKeeps(m[path[0]].members, path[1..], q[1..]);
    }
  }

  /** On the way there every node stays what it is: an object an object, anything else itself. */
  lemma {:induction false} RemovalPasses(m: map<string, Json>, path: seq<string>, n: nat)
    requires n < |path|
    ensures SameNode(At(Obj(m), Keys(path)[..n]), At(Obj(RemoveAt(m, path)), Keys(path)[..n]))
    decreases path
  {
    if n > 0 {
      var front := Keys(path)[..n];
      assert front[0] == Key(path[0]) && front[1..] == Keys(path[1..])[..n - 1];
      if path[0] in m && m[path[0]].Obj? {
        RemovalPasses(m[path[0]].members, path[1..], n - 1);
      }
    }
  }

  function CreateIn(ar: Arith, kind: Kind, m: map<string, Json>, path: seq<string>): Result<map<string, Json>>
    requires !kind.Remove? && path != []
  {
    var r := Create(ar, kind, Some(Obj(m)), path);
    if r.Fail? then Fail else Ok(r.value.value.members)
  }

  /** Put a changed inner object back through the objects it was reached by. */
  ghost function Wrap(parents: seq<map<string, Json>>, path: seq<string>, inner: map<string, Json>): map<string, Json>
    requires |parents| <= |path|
    decreases parents
  {
    if parents == [] then inner
    else
      var n := |parents| - 1;
      Wrap(parents[..n], path, parents[n][path[n] := Obj(inner)])
  }

  /** What is done at the end of the walk decides the whole. */
  ghost predicate CreatesThrough(ar: Arith, kind: Kind, m: map<string, Json>, path: seq<string>,
                                 parents: seq<map<string, Json>>, current: map<string, Json>)
    requires !kind.Remove? && |parents| < |path|
  {
    var inner := CreateIn(ar, kind, current, path[|parents|..]);
    CreateIn(ar, kind, m, path) == if inner.Fail? then Fail else Ok(Wrap(parents, path, inner.value))
  }

  lemma CreateOneDeeper(ar: Arith, kind: Kind, m: map<string, Json>, path: seq<string>, parents: seq<map<string, Json>>, current: map<string, Json>)
    requires !kind.Remove? && |parents| + 1 < |path| && CreatesThrough(ar, kind, m, path, parents, current)
    ensures CreatesThrough(ar, kind, m, path, parents + [current], MembersOf(Get(current, path[|parents|])))
  {
    var n := |parents|;
    var tail, child := path[n..], MembersOf(Get(current, path[n]));
    assert tail[0] == path[n] && tail[1..] == path[n + 1..];
    assert (parents + [current])[..n] == parents;
    assert Create(ar, kind, Get(current, path[n]), tail[1..]) == Create(ar, kind, Some(Obj(child)), tail[1..]);
  }

  method ApplyLiteral(ar: Arith, m: map<string, Json>, path: seq<string>, kind: Kind) returns (r: Result<map<string, Json>>)
    requires path != [] && !kind.Remove?
    ensures r == CreateIn(ar, kind, m, path)
  {
    var parents, current := [], m;
    assert path[0..] == path;
    while |parents| < |path| - 1
      invariant |parents| < |path| && CreatesThrough(ar, kind, m, path, parents, current)
      decreases |path| - |parents|
    {
      CreateOneDeeper(ar, kind, m, path, parents, current);
      var segment := path[|parents|];
      parents := parents + [current];
      current := if segment in current && current[segment].Obj? then current[segment].members else map[];
    }
    var key := path[|path| - 1];
    var v := Here(ar, kind, Get(current, key));
    assert path[|parents|..] == [key] && [key][1..] == [];
    assert Create(ar, kind, Get(current, key), []) == v;
    assert CreateIn(ar, kind, current, [key]) == if v.Fail? then Fail else Ok(current[key := v.value.value]);
    if v.Fail? {
      return Fail;
    }
    current := current[key := v.value.value];
    while |parents| > 0
      invariant |parents| <= |path| && CreateIn(ar, kind, m, path) == Ok(Wrap(parents, path, current))
    {
      var n := |parents| - 1;
      current := parents[n][path[n] := Obj(current)];
      parents := parents[..n];
    }
    return Ok(current);
  }

  method RemoveLiteral(m: map<string, Json>, path: seq<string>) returns (out: map<string, Json>)
    requires path != []
    ensures out == RemoveAt(m, path)
    decreases path
  {
    if |path| == 1 {
      return m - {path[0]};
    }
    if path[0] !in m || !m[path[0]].Obj? {
      return m;
    }
    var inner := RemoveLiteral(m[path[0]].members, path[1..]);
    return m[path[0] := Obj(inner)];
  }

  // ----- whole programs -----

  /** One mutation on a document. */
  function Applied(ar: Arith, c: Compiled, root: map<string, Json>): Result<map<string, Json>>
    requires WellFormed(c)
  {
    if c.wildcard then
      var r := Apply(ar, c.tokens, c.kind, Obj(root), {0});
      if r.Fail? then Fail else Ok(r.value.value.members)
    else if c.kind.Remove? then Ok(RemoveAt(root, c.path))
    else CreateIn(ar, c.kind, root, c.path)
  }

  /** The first n mutations in list order. */
  function Sequential(ar: Arith, prog: seq<Compiled>, root: map<string, Json>, n: nat): Result<map<string, Json>>
    requires n <= |prog| && forall c | c in prog :: WellFormed(c)
  {
    if n == 0 then Ok(root)
    else
      var before := Sequential(ar, prog, root, n - 1);
      if before.Fail? then Fail else Applied(ar, prog[n - 1], before.value)
  }

  /** The path is gone, its parents are what they were, and every other place is left alone. */
  ghost predicate OnlyRemoved(before: Json, after: Json, path: Path) {
    && At(after, path) == None
    && (forall n :: 0 <= n < |path| ==> SameNode(At(before, path[..n]), At(after, path[..n])))
    && (forall q :: Diverge(path, q) ==> At(after, q) == At(before, q))
  }

  /** The path holds the outcome, its parents are objects, and every place that parts from it by a key is left alone. */
  ghost predicate OnlyWritten(ar: Arith, kind: Kind, before: Json, after: Json, path: Path) {
    && Becomes(ar, kind, At(before, path), At(after, path))
    && (forall n :: 0 <= n < |path| ==> At(after, path[..n]).Some? && At(after, path[..n]).value.Obj?)
    && (forall q :: Diverge(path, q) ==> At(after, q) == if PartsByKey(path, q) then At(before, q) else None)
  }

  /** A mutation along a literal path, in terms of the places of the document. */
  lemma LiteralEffect(ar: Arith, c: Compiled, root: map<string, Json>)
    requires WellFormed(c) && !c.wildcard
    ensures var r := Applied(ar, c, root);
      && (r.Fail? <==> Countless(ar, c.kind, At(Obj(root), Keys(c.path))))
      && (r.Ok? && c.kind.Remove? ==> OnlyRemoved(Obj(root), Obj(r.value), Keys(c.path)))
      && (r.Ok? && !c.kind.Remove? ==> OnlyWritten(ar, c.kind, Obj(root), Obj(r.value), Keys(c.path)))
  {
    hide RemoveAt;
    var path := Keys(c.path);
    if c.kind.Remove? {
      RemovalRemoves(root, c.path);
      forall n | 0 <= n < |path| ensures SameNode(At(Obj(root), path[..n]), At(Obj(RemoveAt(root, c.path)), path[..n])) {
        RemovalPasses(root, c.path, n);
      }
      forall q | Diverge(path, q) ensures At(Obj(RemoveAt(root, c.path)), q) == At(Obj(root), q) {
        RemovalKeeps(root, c.path, q);
      }
    } else {
      CreateReaches(ar, c.kind, Some(Obj(root)), c.path);
      var r := CreateIn(ar, c.kind, root, c.path);
      if r.Ok? {
        forall n | 0 <= n < |path| ensures At(Obj(r.value), path[..n]).Some? && At(Obj(r.value), path[..n]).value.Obj? {
          CreateOpens(ar, c.kind, Some(Obj(root)), c.path, n);
        }
        forall q | Diverge(path, q) ensures At(Obj(r.value), q) == if PartsByKey(path, q) then At(Obj(root), q) else None {
          CreateKeeps(ar, c.kind, Some(Obj(root)), c.path, q);
        }
      }
    }
  }

  /** The paths the pattern hits, but for those under another hit, hold the outcome, and no other place is another node. */
  ghost predicate OnlyTargetsChanged(ar: Arith, c: Compiled, before: Json, after: Json) {
    forall path :: path != [] && NoneAbove(c.tokens, {0}, path) ==> TargetOrSame(ar, c, before, after, path)
  }

  ghost predicate TargetOrSame(ar: Arith, c: Compiled, before: Json, after: Json, path: Path)
    requires path != []
  {
    if !Hits(c.tokens, path) || At(before, path).None? then SameNode(At(before, path), At(after, path))
    else if c.kind.Remove? && path[|path| - 1].Index? then At(after, path) == Some(Null)
    else Becomes(ar, c.kind, At(before, path), At(after, path))
  }

  /** Some hit that is under no other cannot be counted up. */
  ghost predicate SomeTargetFails(ar: Arith, c: Compiled, before: Json) {
    exists path :: NoneAbove(c.tokens, {0}, path) && Hits(c.tokens, path) && At(before, path).Some? && Countless(ar, c.kind, At(before, path))
  }

  /** A mutation along a wildcard path, in terms of the places of the document. */
  lemma WildcardEffect(ar: Arith, c: Compiled, root: map<string, Json>)
    requires WellFormed(c) && c.wildcard
    ensures var r := Applied(ar, c, root);
      && (r.Fail? <==> SomeTargetFails(ar, c, Obj(root)))
      && (r.Ok? ==> OnlyTargetsChanged(ar, c, Obj(root), Obj(r.value)))
  {
    hide Compile, Becomes, Countless, SameNode;
    var before, r := Obj(root), Apply(ar, c.tokens, c.kind, Obj(root), {0});
    assert c.tokens != [] && c.tokens[0..] == c.tokens by {
      assert |Compile(c.path)| == |c.path| by { CompiledLength(c.path); }
    }
    forall path ensures Reached(c.tokens, {0}, path) <==> Hits(c.tokens, path) {
      FinishedMeansHit(c.tokens, 0, path);
    }
    FailsExactlyAtTargets(ar, c.tokens, c.kind, before, {0});
    hide Apply, Hits, Reached, NoneAbove;
    assert forall path :: FailsAt(ar, c.tokens, c.kind, before, {0}, path) <==>
      NoneAbove(c.tokens, {0}, path) && Hits(c.tokens, path) && At(before, path).Some? && Countless(ar, c.kind, At(before, path));
    assert (exists path :: FailsAt(ar, c.tokens, c.kind, before, {0}, path)) <==> SomeTargetFails(ar, c, before);
    if r.Ok? {
      forall path | path != [] && NoneAbove(c.tokens, {0}, path) ensures TargetOrSame(ar, c, before, r.value.value, path) {
        if Hits(c.tokens, path) && At(before, path).Some? {
          TargetChanges(ar, c.tokens, c.kind, before, {0}, path);
        } else {
          OthersStay(ar, c.tokens, c.kind, before, {0}, path);
        }
      }
    }
  }

  lemma CompiledLength(path: seq<string>)
    ensures |Compile(path)| == |path|
  {
  }

  class Document {
    var root: map<string, Json>

    constructor (root: map<string, Json>)
      ensures this.root == root
    {
      this.root := root;
    }

    method ApplyMutation(ar: Arith, c: Compiled) returns (ok: bool)
      requires WellFormed(c) && (c.wildcard ==> DescendsOnce(c))
      modifies this
      ensures ok ==> Applied(ar, c, old(root)) == Ok(root)
      ensures !ok ==> Applied(ar, c, old(root)).Fail?
      ensures c.wildcard ==> (ok <==> !SomeTargetFails(ar, c, Obj(old(root))))
      ensures c.wildcard && ok ==> OnlyTargetsChanged(ar, c, Obj(old(root)), Obj(root))
      ensures !c.wildcard ==> (ok <==> !Countless(ar, c.kind, At(Obj(old(root)), Keys(c.path))))
      ensures ok && !c.wildcard && c.kind.Remove? ==> OnlyRemoved(Obj(old(root)), Obj(root), Keys(c.path))
      ensures ok && !c.wildcard && !c.kind.Remove? ==> OnlyWritten(ar, c.kind, Obj(old(root)), Obj(root), Keys(c.path))
    {
      hide OnlyRemoved, OnlyWritten, Countless, SomeTargetFails, OnlyTargetsChanged;
      if c.wildcard {
        WildcardEffect(ar, c, root);
        FitsItself(Obj(root));
        var r := ApplyAtPath(ar, Obj(root), c, 0, Obj(root));
        if r.Fail? {
          return false;
        }
        root := r.value.value.members;
        return true;
      }
      LiteralEffect(ar, c, root);
      if c.kind.Remove? {
        root := RemoveLiteral(root, c.path);
        return true;
      }
      var r := ApplyLiteral(ar, root, c.path, c.kind);
      if r.Fail? {
        return false;
      }
      root := r.value;
      return true;
    }

    method ApplyMutations(ar: Arith, prog: seq<Compiled>) returns (ok: bool)
      requires forall c :: c in prog ==> WellFormed(c) && (c.wildcard ==> DescendsOnce(c))
      modifies this
      ensures ok ==> Sequential(ar, prog, old(root), |prog|) == Ok(root)
      ensures !ok ==> Sequential(ar, prog, old(root), |prog|).Fail?
    {
      for n := 0 to |prog|
        invariant Sequential(ar, prog, old(root), n) == Ok(root)
      {
        assert prog[n] in prog;
        ok := ApplyMutation(ar, prog[n]);
        if !ok {
          FailureStays(ar, prog, old(root), n + 1, |prog|);
          return;
        }
      }
      return true;
    }
  }

  lemma {:induction false} FailureStays(ar: Arith, prog: seq<Compiled>, root: map<string, Json>, n: nat, later: nat)
    requires n <= later <= |prog| && (forall c :: c in prog ==> WellFormed(c)) && Sequential(ar, prog, root, n).Fail?
    ensures Sequential(ar, prog, root, later).Fail?
  {
    if n < later {
      FailureStays(ar, prog, root, n, later - 1);
    }
  }

  // ----- the program's meaning at the root -----

  /** Every mutation starts at the root with its whole path ahead. */
  function Starts(prog: seq<Compiled>): Positions {
    seq(|prog|, i => {0})
  }

  /** For the programs both forms agree on, the meaning at the root is the mutations in list order. */
  lemma {:induction false} MeaningIsSequential(ar: Arith, prog: seq<Compiled>, root: map<string, Json>, n: nat)
    requires ProgramOk(prog) && n <= |prog|
    ensures var r := Sequential(ar, prog, root, n);
      Meaning(ar, prog, Some(Obj(root)), Starts(prog), n) == if r.Fail? then Fail else Ok(Some(Obj(r.value)))
  {
    if n > 0 {
      MeaningIsSequential(ar, prog, root, n - 1);
      var before := Sequential(ar, prog, root, n - 1);
      if before.Ok? {
        RootStep(ar, prog[n - 1], before.value);
      }
    }
  }

  lemma RootStep(ar: Arith, c: Compiled, root: map<string, Json>)
    requires WellFormed(c) && (c.wildcard || !c.kind.Remove?)
    ensures var r := Applied(ar, c, root);
      Step(ar, c, Some(Obj(root)), {0}) == if r.Fail? then Fail else Ok(Some(Obj(r.value)))
  {
    assert c.path[0..] == c.path;
    var p :| p in {0} && Step(ar, c, Some(Obj(root)), {0}) ==
      if c.wildcard then ApplyNode(ar, c.tokens, c.kind, Some(Obj(root)), {0}) else Create(ar, c.kind, Some(Obj(root)), c.path[p..]);
  }
}
