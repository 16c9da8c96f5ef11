/**
 Sums that leave the finite range: where they stay in the sequential form's document, and
 where the one-pass rewriter, which needs their text, cannot get past them.
 */
module Overflow {
  import opened Bytes
  import opened Json
  import opened Patterns
  import opened Mutations
  import opened Reference
  import opened ActiveRules

  // ----- sums that leave the finite range -----

  /** After the first i mutations the node holds a number outside the finite range. */
  ghost predicate OverflowsAt(ar: Arith, prog: seq<Compiled>, v: Node, at: Positions, i: nat)
    requires ProgramOk(prog) && i <= |prog| == |at|
  {
    var r := Meaning(ar, prog, v, at, i);
    r.Ok? && r.value.Some? && !AllFinite(ar, r.value.value)
  }

  /** At some point of the mutations in turn it does. */
  ghost predicate Overflows(ar: Arith, prog: seq<Compiled>, v: Node, at: Positions)
    requires ProgramOk(prog) && |prog| == |at|
  {
    exists i: nat :: i <= |prog| && OverflowsAt(ar, prog, v, at, i)
  }

  /** It does, or what creating mutations would make of nothing there does. */
  ghost predicate Overflowing(ar: Arith, prog: seq<Compiled>, v: Node, at: Positions)
    requires ProgramOk(prog) && |prog| == |at|
  {
    Overflows(ar, prog, v, at) || (LiteralProgram(prog) && Overflows(ar, prog, None, at))
  }

  /** What creating mutations make of an empty object, they make of nothing. */
  lemma EmptyIsNothing(ar: Arith, prog: seq<Compiled>, at: Positions)
    requires LiteralProgram(prog) && AllPositionsOk(prog, at) && NoneFinished(prog, at)
    ensures Overflows(ar, prog, Some(Obj(map[])), at) <==> Overflows(ar, prog, None, at)
  {
    forall i: nat | i <= |prog|
      ensures OverflowsAt(ar, prog, Some(Obj(map[])), at, i) <==> OverflowsAt(ar, prog, None, at, i)
    {
      if exists j :: 0 <= j < i && at[j] != {} {
        NonObjectIsReplaced(ar, prog, None, at, i);
      } else {
        NothingAt(ar, prog, None, at, i);
        NothingAt(ar, prog, Some(Obj(map[])), at, i);
      }
    }
  }

  /** A member that overflows makes the object overflow, unless the object fails. */
  lemma MemberOverflows(ar: Arith, prog: seq<Compiled>, m: map<string, Json>, k: string, at: Positions)
    requires ProgramOk(prog) && AllPositionsOk(prog, at) && NoneFinished(prog, at)
    requires Overflows(ar, prog, Get(m, k), AdvanceEach(prog, at, Key(k)))
    ensures Overflows(ar, prog, Some(Obj(m)), at) || Meaning(ar, prog, Some(Obj(m)), at, |prog|).Fail?
  {
    hide Meaning;
    var i: nat :| i <= |prog| && OverflowsAt(ar, prog, Get(m, k), AdvanceEach(prog, at, Key(k)), i);
    MembersCommute(ar, prog, m, at, i);
    var whole := Meaning(ar, prog, Some(Obj(m)), at, i);
    if whole.Fail? {
      FailureRemains(ar, prog, Some(Obj(m)), at, i, |prog|);
    } else {
      var out := whole.value.value.members;
      assert Meaning(ar, prog, Get(m, k), AdvanceEach(prog, at, Key(k)), i) == Ok(Get(out, k));
      assert k in out && !AllFinite(ar, out[k]);
      assert OverflowsAt(ar, prog, Some(Obj(m)), at, i);
    }
  }

  lemma ItemOverflows(ar: Arith, prog: seq<Compiled>, items: seq<Json>, k: nat, at: Positions)
    requires WildcardProgram(prog) && AllPositionsOk(prog, at) && NoneFinished(prog, at) && k < |items|
    requires Overflows(ar, prog, Some(items[k]), AdvanceEach(prog, at, Index(k)))
    ensures Overflows(ar, prog, Some(Arr(items)), at) || Meaning(ar, prog, Some(Arr(items)), at, |prog|).Fail?
  {
    hide Meaning;
    var i: nat :| i <= |prog| && OverflowsAt(ar, prog, Some(items[k]), AdvanceEach(prog, at, Index(k)), i);
    ItemsCommute(ar, prog, items, at, i);
    var whole := Meaning(ar, prog, Some(Arr(items)), at, i);
    if whole.Fail? {
      FailureRemains(ar, prog, Some(Arr(items)), at, i, |prog|);
    } else {
      var out := whole.value.value.items;
      assert out[k] == Kept(Meaning(ar, prog, Some(items[k]), AdvanceEach(prog, at, Index(k)), i).value);
      assert !AllFinite(ar, out[k]);
      assert OverflowsAt(ar, prog, Some(Arr(items)), at, i);
    }
  }

  lemma NothingOverflowsNot(ar: Arith, prog: seq<Compiled>, at: Positions)
    requires WildcardProgram(prog) && |prog| == |at|
    ensures !Overflows(ar, prog, None, at)
  {
    forall i: nat | i <= |prog| ensures !OverflowsAt(ar, prog, None, at, i) {
      MissingStaysMissing(ar, prog, at, i);
    }
  }

  /** So for everything an object's member can overflow by. */
  lemma MemberOverflowing(ar: Arith, prog: seq<Compiled>, m: map<string, Json>, k: string, at: Positions)
    requires ProgramOk(prog) && AllPositionsOk(prog, at) && NoneFinished(prog, at) && (LiteralProgram(prog) ==> Prints(ar))
    requires Overflowing(ar, prog, Get(m, k), AdvanceEach(prog, at, Key(k)))
    ensures Overflowing(ar, prog, Some(Obj(m)), at) || Meaning(ar, prog, Some(Obj(m)), at, |prog|).Fail?
  {
    hide Meaning, Overflows;
    if Overflows(ar, prog, Get(m, k), AdvanceEach(prog, at, Key(k))) {
      MemberOverflows(ar, prog, m, k, at);
    } else {
      var empty: map<string, Json> := map[];
      MemberOverflows(ar, prog, empty, k, at);
      EmptyIsNothing(ar, prog, at);
      EmptyIsUnder(ar, m);
      MeaningUnder(ar, prog, Some(Obj(empty)), Some(Obj(m)), at, |prog|);
    }
  }

  lemma EmptyIsUnder(ar: Arith, m: map<string, Json>)
    ensures NodeUnder(ar, Some(Obj(map[])), Some(Obj(m)))
  {
  }

  /** After some of the mutations in list order the tree holds a number outside the finite range. */
  ghost predicate SequenceOverflows(ar: Arith, prog: seq<Compiled>, root: map<string, Json>)
    requires ProgramOk(prog)
  {
    exists i: nat :: i <= |prog| && SequenceOverflowsAt(ar, prog, root, i)
  }

  ghost predicate SequenceOverflowsAt(ar: Arith, prog: seq<Compiled>, root: map<string, Json>, i: nat)
    requires ProgramOk(prog) && i <= |prog|
  {
    var r := Sequential(ar, prog, root, i);
    r.Ok? && !AllFinite(ar, Obj(r.value))
  }

  /** The same, from the document or, for creating mutations, from an empty one. */
  ghost predicate RunOverflows(ar: Arith, prog: seq<Compiled>, root: map<string, Json>)
    requires ProgramOk(prog)
  {
    SequenceOverflows(ar, prog, root) || (LiteralProgram(prog) && SequenceOverflows(ar, prog, map[]))
  }

  lemma SequenceIsMeaning(ar: Arith, prog: seq<Compiled>, root: map<string, Json>)
    requires ProgramOk(prog)
    ensures Overflows(ar, prog, Some(Obj(root)), Starts(prog)) <==> SequenceOverflows(ar, prog, root)
  {
    forall i: nat | i <= |prog|
      ensures OverflowsAt(ar, prog, Some(Obj(root)), Starts(prog), i) <==> SequenceOverflowsAt(ar, prog, root, i)
    {
      MeaningIsSequential(ar, prog, root, i);
    }
  }

  lemma RootOverflows(ar: Arith, prog: seq<Compiled>, root: map<string, Json>)
    requires ProgramOk(prog)
    ensures Overflowing(ar, prog, Some(Obj(root)), Starts(prog)) <==> RunOverflows(ar, prog, root)
  {
    SequenceIsMeaning(ar, prog, root);
    if LiteralProgram(prog) {
      SequenceIsMeaning(ar, prog, map[]);
      forall i | 0 <= i < |prog| ensures PositionsOk(prog[i], {0}) && !Finished(prog[i], {0}) {
        assert prog[i] in prog;
      }
      EmptyIsNothing(ar, prog, Starts(prog));
    }
  }

  // ----- where the pass cannot go on -----

  predicate SomePending(at: Positions) {
    exists i | 0 <= i < |at| :: at[i] != {}
  }

  /** What waits at a node between the target of mutation b - 1, its own waiting positions included, and mutation k. */
  function PendingAt(prog: seq<Compiled>, at: Positions, b: nat, k: nat): Positions
    requires |prog| == |at|
  {
    seq(|prog|, i requires 0 <= i < |prog| =>
      if i >= k || i + 1 < b then {} else if i + 1 == b then at[i] - {|prog[i].tokens|} else at[i])
  }

  /** Mutations b to k - 1 have no target here; before them is one, or nothing, and after them one, or the end. */
  ghost predicate Stretch(prog: seq<Compiled>, at: Positions, b: nat, k: nat)
    requires |prog| == |at|
  {
    && b <= k <= |prog|
    && (b > 0 ==> Finished(prog[b - 1], at[b - 1])) && (k < |prog| ==> Finished(prog[k], at[k]))
    && forall i :: b <= i < k ==> !Finished(prog[i], at[i])
  }

  /** What is wanted holds a number that has no JSON text. */
  ghost predicate Unwritable(ar: Arith, want: Outcome) {
    want.Ok? && want.value.Some? && !AllFinite(ar, want.value.value)
  }

  /** Some mutation adds a member that the object does not have. */
  ghost predicate Creatable(prog: seq<Compiled>, m: map<string, Json>, at: Positions)
    requires |prog| == |at|
  {
    exists i, p :: 0 <= i < |prog| && p in at[i] && CreatesAt(prog[i], p, m)
  }

  predicate CreatesAt(c: Compiled, p: nat, m: map<string, Json>) {
    !c.wildcard && !c.kind.Remove? && p < |c.path| && c.path[p] !in m
  }

  /** What waits on the value as read: it is needed below a member or an element, or what it creates cannot be written. */
  ghost predicate SourceJams(ar: Arith, prog: seq<Compiled>, j: Json, at: Positions)
    requires ProgramOk(prog) && |prog| == |at|
    decreases j, 0
  {
    match j
    case Obj(m) =>
      || (exists k :: k in m && Jams(ar, prog, m[k], AdvanceEach(prog, at, Key(k))))
      || (LiteralProgram(prog) && Creatable(prog, m, at) && Unwritable(ar, Meaning(ar, prog, Some(Obj(map[])), at, |prog|)))
    case Arr(items) =>
      if LiteralProgram(prog) then Unwritable(ar, Meaning(ar, prog, Some(j), at, |prog|))
      else exists i :: 0 <= i < |items| && Jams(ar, prog, items[i], AdvanceEach(prog, at, Index(i)))
    case _ => LiteralProgram(prog) && Unwritable(ar, Meaning(ar, prog, Some(j), at, |prog|))
  }

  /** What waits on a settled value: it is a sum out of range, or what it creates there cannot be written. */
  ghost predicate SettledJams(ar: Arith, prog: seq<Compiled>, kind: Kind, u: Node, at: Positions)
    requires ProgramOk(prog) && |prog| == |at|
  {
    || (kind.Increment? && u.Some? && !AllFinite(ar, u.value))
    || (LiteralProgram(prog) && Unwritable(ar, Meaning(ar, prog, u, at, |prog|)))
  }

  ghost predicate StretchJams(ar: Arith, prog: seq<Compiled>, j: Json, at: Positions, b: nat, k: nat)
    requires ProgramOk(prog) && |prog| == |at| && b <= k <= |prog|
    decreases j, 1
  {
    var waiting := PendingAt(prog, at, b, k);
    SomePending(waiting) &&
    if b == 0 then SourceJams(ar, prog, j, waiting)
    else
      var u := Meaning(ar, prog, Some(j), at, b);
      u.Ok? && SettledJams(ar, prog, prog[b - 1].kind, u.value, waiting)
  }

  /** In some stretch between two targets the pass needs the text of a number that has none. */
  ghost predicate Jams(ar: Arith, prog: seq<Compiled>, j: Json, at: Positions)
    requires ProgramOk(prog) && |prog| == |at|
    decreases j, 2
  {
    exists b: nat, k: nat :: Stretch(prog, at, b, k) && StretchJams(ar, prog, j, at, b, k)
  }

  ghost predicate RunJams(ar: Arith, prog: seq<Compiled>, root: map<string, Json>)
    requires ProgramOk(prog)
  {
    Jams(ar, prog, Obj(root), Starts(prog))
  }

  lemma PendingIsWaiting(prog: seq<Compiled>, at: Positions, b: nat, k: nat)
    requires AllPositionsOk(prog, at) && Stretch(prog, at, b, k)
    ensures AllPositionsOk(prog, PendingAt(prog, at, b, k)) && NoneFinished(prog, PendingAt(prog, at, b, k))
  {
    var p := PendingAt(prog, at, b, k);
    forall i | 0 <= i < |prog| ensures PositionsOk(prog[i], p[i]) && !Finished(prog[i], p[i]) {
      assert PositionsOk(prog[i], at[i]);
    }
  }

  /** The rules of the first k mutations do what all of them do up to there. */
  lemma PrefixMeaning(ar: Arith, prog: seq<Compiled>, v: Node, at: Positions, p: Positions, k: nat, i: nat)
    requires ProgramOk(prog) && k <= |prog| == |at| == |p| && i <= |prog|
    requires (forall n :: 0 <= n < k ==> p[n] == at[n]) && (forall n :: k <= n < |prog| ==> p[n] == {})
    ensures Meaning(ar, prog, v, p, i) == Meaning(ar, prog, v, at, if i <= k then i else k)
  {
    if i <= k {
      MeaningLocal(ar, prog, v, p, at, i);
    } else {
      MeaningBeyond(ar, prog, v, p, k, i);
      MeaningLocal(ar, prog, v, p, at, k);
    }
  }

  lemma PrefixOverflows(ar: Arith, prog: seq<Compiled>, v: Node, at: Positions, p: Positions, k: nat)
    requires ProgramOk(prog) && k <= |prog| == |at| == |p|
    requires (forall n :: 0 <= n < k ==> p[n] == at[n]) && (forall n :: k <= n < |prog| ==> p[n] == {})
    ensures Overflows(ar, prog, v, p) ==> Overflows(ar, prog, v, at)
    ensures Meaning(ar, prog, v, p, |prog|).Fail? ==> Meaning(ar, prog, v, at, |prog|).Fail?
  {
    hide Meaning;
    PrefixMeaning(ar, prog, v, at, p, k, |prog|);
    if Meaning(ar, prog, v, at, k).Fail? {
      FailureRemains(ar, prog, v, at, k, |prog|);
    }
    if i: nat :| i <= |prog| && OverflowsAt(ar, prog, v, p, i) {
      PrefixMeaning(ar, prog, v, at, p, k, i);
      assert OverflowsAt(ar, prog, v, at, if i <= k then i else k);
    }
  }

  /** In a literal program what waits after a target goes on from the settled value as the mutations do. */
  lemma {:induction false} GoesOn(ar: Arith, prog: seq<Compiled>, v: Node, u: Node, at: Positions, b: nat, k: nat, i: nat)
    requires LiteralProgram(prog) && AllPositionsOk(prog, at) && Stretch(prog, at, b, k) && 0 < b <= i <= k
    requires Meaning(ar, prog, v, at, b) == Ok(u)
    ensures Meaning(ar, prog, u, PendingAt(prog, at, b, k), i) == Meaning(ar, prog, v, at, i)
    decreases i
  {
    var p := PendingAt(prog, at, b, k);
    if i == b {
      assert PositionsOk(prog[b - 1], at[b - 1]) && prog[b - 1] in prog;
      assert at[b - 1] == {|prog[b - 1].tokens|} && p[b - 1] == {};
      NothingAt(ar, prog, u, p, b);
    } else {
      GoesOn(ar, prog, v, u, at, b, k, i - 1);
      assert p[i - 1] == at[i - 1];
    }
  }

  lemma SettledOverflows(ar: Arith, prog: seq<Compiled>, j: Json, at: Positions, b: nat, k: nat)
    requires ProgramOk(prog) && AllPositionsOk(prog, at) && Stretch(prog, at, b, k) && 0 < b && StretchJams(ar, prog, j, at, b, k)
    ensures Overflows(ar, prog, Some(j), at)
  {
    hide Meaning, SomePending;
    var p, u := PendingAt(prog, at, b, k), Meaning(ar, prog, Some(j), at, b).value;
    if prog[b - 1].kind.Increment? && u.Some? && !AllFinite(ar, u.value) {
      assert OverflowsAt(ar, prog, Some(j), at, b);
    } else {
      GoesOn(ar, prog, Some(j), u, at, b, k, k);
      MeaningBeyond(ar, prog, u, p, k, |prog|);
      assert OverflowsAt(ar, prog, Some(j), at, k);
    }
  }

  /** Where the pass cannot go on a sum has left the range, in the mutations in turn or in what they create from nothing. */
  lemma {:induction false} JamsOverflow(ar: Arith, prog: seq<Compiled>, j: Json, at: Positions)
    requires ProgramOk(prog) && Prints(ar) && AllPositionsOk(prog, at) && Jams(ar, prog, j, at)
    ensures Overflowing(ar, prog, Some(j), at) || Meaning(ar, prog, Some(j), at, |prog|).Fail?
    decreases j, 1
  {
    hide Meaning, SourceJams, Overflows, SettledJams;
    var b: nat, k: nat :| Stretch(prog, at, b, k) && StretchJams(ar, prog, j, at, b, k);
    if b > 0 {
      SettledOverflows(ar, prog, j, at, b, k);
    } else {
      var p := PendingAt(prog, at, 0, k);
      PendingIsWaiting(prog, at, 0, k);
      SourceOverflows(ar, prog, j, p);
      PrefixOverflows(ar, prog, Some(j), at, p, k);
      PrefixOverflows(ar, prog, None, at, p, k);
    }
  }

  lemma {:induction false} SourceOverflows(ar: Arith, prog: seq<Compiled>, j: Json, at: Positions)
    requires ProgramOk(prog) && Prints(ar) && AllPositionsOk(prog, at) && NoneFinished(prog, at)
    requires SomePending(at) && SourceJams(ar, prog, j, at)
    ensures Overflowing(ar, prog, Some(j), at) || Meaning(ar, prog, Some(j), at, |prog|).Fail?
    decreases j, 0
  {
    hide Meaning, Jams, AllFinite;
    if LiteralProgram(prog) && !j.Obj? {
      assert OverflowsAt(ar, prog, Some(j), at, |prog|);
      return;
    }
    match j
    case Obj(m) =>
      if k :| k in m && Jams(ar, prog, m[k], AdvanceEach(prog, at, Key(k))) {
        AdvancedPositionsOk(prog, at, Key(k));
        JamsOverflow(ar, prog, m[k], AdvanceEach(prog, at, Key(k)));
        if Overflowing(ar, prog, Some(m[k]), AdvanceEach(prog, at, Key(k))) {
          MemberOverflowing(ar, prog, m, k, at);
        } else {
          MembersCommute(ar, prog, m, at, |prog|);
          assert Get(m, k) == Some(m[k]);
        }
      } else {
        assert OverflowsAt(ar, prog, Some(Obj(map[])), at, |prog|);
        EmptyIsNothing(ar, prog, at);
      }
    case Arr(items) =>
      var i :| 0 <= i < |items| && Jams(ar, prog, items[i], AdvanceEach(prog, at, Index(i)));
      AdvancedPositionsOk(prog, at, Index(i));
      JamsOverflow(ar, prog, items[i], AdvanceEach(prog, at, Index(i)));
      if Overflowing(ar, prog, Some(items[i]), AdvanceEach(prog, at, Index(i))) {
        NothingOverflowsNot(ar, prog, AdvanceEach(prog, at, Index(i)));
        ItemOverflows(ar, prog, items, i, at);
      } else {
        ItemsCommute(ar, prog, items, at, |prog|);
      }
    case _ =>
  }

  /** One step keeps positions in range, and literal paths at one position. */
  lemma AdvancedPositionsOk(prog: seq<Compiled>, at: Positions, s: Segment)
    requires ProgramOk(prog) && AllPositionsOk(prog, at)
    ensures AllPositionsOk(prog, AdvanceEach(prog, at, s))
  {
    forall i | 0 <= i < |prog| ensures PositionsOk(prog[i], AdvanceEach(prog, at, s)[i]) {
      assert prog[i] in prog && PositionsOk(prog[i], at[i]);
      AdvancedOk(prog[i], at[i], s);
    }
  }

  /** A run that cannot go on has a sum out of range, or fails in any form. */
  lemma RunJamsOverflow(ar: Arith, prog: seq<Compiled>, root: map<string, Json>)
    requires ProgramOk(prog) && Prints(ar) && RunJams(ar, prog, root)
    ensures RunOverflows(ar, prog, root) || Sequential(ar, prog, root, |prog|).Fail?
  {
    StartsOk(prog);
    JamsOverflow(ar, prog, Obj(root), Starts(prog));
    RootOverflows(ar, prog, root);
    MeaningIsSequential(ar, prog, root, |prog|);
  }

  lemma StartsOk(prog: seq<Compiled>)
    requires ProgramOk(prog)
    ensures AllPositionsOk(prog, Starts(prog)) && NoneFinished(prog, Starts(prog))
  {
    forall i | 0 <= i < |prog| ensures PositionsOk(prog[i], {0}) && !Finished(prog[i], {0}) {
      assert prog[i] in prog;
    }
  }

  /** Asked for a member the document lacks, the pass must write all that the program creates from nothing. */
  lemma SynthesisJams(ar: Arith, prog: seq<Compiled>, root: map<string, Json>, c: Compiled)
    requires LiteralProgram(prog) && c in prog && c.path[0] !in root
    requires SequenceOverflowsAt(ar, prog, map[], |prog|)
    ensures RunJams(ar, prog, root)
  {
    var at := Starts(prog);
    StartsOk(prog);
    var i :| 0 <= i < |prog| && prog[i] == c;
    assert at[i] == {0} && 0 in at[i] && CreatesAt(prog[i], 0, root);
    assert PendingAt(prog, at, 0, |prog|) == at;
    MeaningIsSequential(ar, prog, map[], |prog|);
    assert SourceJams(ar, prog, Obj(root), at);
    assert Stretch(prog, at, 0, |prog|) && StretchJams(ar, prog, Obj(root), at, 0, |prog|);
  }

  // ----- runs on which only the pass fails -----

  function CountUp(k: string, x: Float): Compiled {
    CompileMutation(Mutation([k], Increment(x)))
  }

  /** An increment of a top-level member. */
  lemma CountUpApplied(ar: Arith, k: string, x: Float, root: map<string, Json>)
    requires !IsWildcard(k)
    ensures var c := CountUp(k, x);
      && WellFormed(c) && !c.wildcard && c.kind == Increment(x) && c.path == [k]
      && Applied(ar, c, root) ==
        var r := Here(ar, Increment(x), Get(root, k));
        if r.Fail? then Fail else Ok(root[k := r.value.value])
  {
    var c := CountUp(k, x);
    assert c.path[1..] == [];
    assert forall s :: s in c.path ==> s == k;
    assert Create(ar, c.kind, Get(root, k), c.path[1..]) == Here(ar, c.kind, Get(root, k));
  }

  function Sum(ar: Arith, f: Float, x: Float): Float {
    ar.normalize(ar.add(f, x))
  }

  lemma CountedUp(ar: Arith, root: map<string, Json>, k: string, f: Float, x: Float)
    requires !IsWildcard(k) && k in root && ToFloat(ar, root[k]) == Some(f)
    ensures WellFormed(CountUp(k, x)) && Applied(ar, CountUp(k, x), root) == Ok(root[k := Number(ar, Sum(ar, f, x))])
  {
    CountUpApplied(ar, k, x, root);
  }

  /** Put a scalar below a top-level member. */
  function PutBelow(a: string, b: string, v: Json): Compiled {
    CompileMutation(Mutation([a, b], SetTo(v)))
  }

  lemma PutBelowApplied(ar: Arith, a: string, b: string, v: Json, root: map<string, Json>)
    requires !IsWildcard(a) && !IsWildcard(b) && IsScalar(v) && a in root && root[a].Num?
    ensures var c := PutBelow(a, b, v);
      && WellFormed(c) && !c.wildcard && c.kind == SetTo(v) && c.path == [a, b] && Applied(ar, c, root) == Ok(root[a := Obj(map[b := v])])
  {
    var c := PutBelow(a, b, v);
    assert forall s :: s in c.path ==> s == a || s == b;
    assert c.path[1..] == [b] && [b][1..] == [];
    var empty: map<string, Json> := map[];
    assert Create(ar, c.kind, None, []) == Ok(Some(v));
    assert Create(ar, c.kind, Some(root[a]), [b]) == Ok(Some(Obj(empty[b := v])));
  }

  lemma NotFinite(ar: Arith, k: string, f: Float, m: map<string, Json>)
    requires k in m && m[k] == Number(ar, f) && ar.parse(ar.format(f)) == Some(f) && !ar.finite(f)
    ensures !AllFinite(ar, Obj(m))
  {
    assert !AllFinite(ar, m[k]);
  }

  lemma NumbersFinite(ar: Arith, m: map<string, Json>)
    requires forall k :: k in m ==> m[k].Num? && ToFloat(ar, m[k]).Some? && ar.finite(ToFloat(ar, m[k]).value)
    ensures AllFinite(ar, Obj(m))
  {
  }


  lemma CountUpProgram(ar: Arith, a: string, b: string, x: Float)
    requires !IsWildcard(a) && !IsWildcard(b)
    ensures LiteralProgram([CountUp(a, x), CountUp(a, x), CountUp(b, x)])
  {
    CountUpApplied(ar, a, x, map[]);
    CountUpApplied(ar, b, x, map[]);
  }

  lemma ThreeInSequence(ar: Arith, a: string, b: string, l: Text, f: Float, x: Float)
    requires !IsWildcard(a) && !IsWildcard(b) && a != b && Prints(ar)
    requires ar.parse(l) == Some(f) && ar.finite(f) && ar.finite(ar.normalize(x))
    requires ar.finite(Sum(ar, f, x)) && ar.finite(Sum(ar, Sum(ar, f, x), x))
    requires LiteralProgram([CountUp(a, x), CountUp(a, x), CountUp(b, x)])
    ensures var prog := [CountUp(a, x), CountUp(a, x), CountUp(b, x)];
      Sequential(ar, prog, map[a := Num(l)], 3).Ok? && !SequenceOverflows(ar, prog, map[a := Num(l)])
  {
    hide Applied, CompileMutation, AllFinite, CountUp, LiteralProgram;
    var prog, root := [CountUp(a, x), CountUp(a, x), CountUp(b, x)], map[a := Num(l)];
    CountedUp(ar, root, a, f, x);
    var m1 := root[a := Number(ar, Sum(ar, f, x))];
    CountedUp(ar, m1, a, Sum(ar, f, x), x);
    var m2 := m1[a := Number(ar, Sum(ar, Sum(ar, f, x), x))];
    CountUpApplied(ar, b, x, m2);
    var m3 := m2[b := Number(ar, ar.normalize(x))];
    assert Sequential(ar, prog, root, 0) == Ok(root);
    assert Sequential(ar, prog, root, 1) == Ok(m1);
    assert Sequential(ar, prog, root, 2) == Ok(m2);
    assert Sequential(ar, prog, root, 3) == Ok(m3);
    NumbersFinite(ar, root);
    NumbersFinite(ar, m1);
    NumbersFinite(ar, m2);
    NumbersFinite(ar, m3);
    forall i: nat | i <= 3 ensures !SequenceOverflowsAt(ar, prog, root, i) {
      assert i == 0 || i == 1 || i == 2 || i == 3;
    }
  }

  /**
   A sum out of range that is replaced afterwards: the sequential form succeeds, with a tree in
   range, after one that was not. The pass has to read the sum's text again, and there is none.
   */
  lemma SumReplaced(ar: Arith, a: string, b: string, l: Text, f: Float, x: Float)
    requires !IsWildcard(a) && !IsWildcard(b) && Prints(ar)
    requires ar.parse(l) == Some(f) && ar.finite(f) && !ar.finite(Sum(ar, f, x))
    ensures var prog, root := [CountUp(a, x), PutBelow(a, b, Null)], map[a := Num(l)];
      && LiteralProgram(prog) && SequenceOverflowsAt(ar, prog, root, 1)
      && Sequential(ar, prog, root, 2) == Ok(map[a := Obj(map[b := Null])])
      && RunJams(ar, prog, root)
  {
    SumReplacedInSequence(ar, a, b, l, f, x);
    SumJams(ar, a, b, l, f, x);
  }

  lemma SumReplacedInSequence(ar: Arith, a: string, b: string, l: Text, f: Float, x: Float)
    requires !IsWildcard(a) && !IsWildcard(b) && Prints(ar)
    requires ar.parse(l) == Some(f) && ar.finite(f) && !ar.finite(Sum(ar, f, x))
    ensures var prog, root := [CountUp(a, x), PutBelow(a, b, Null)], map[a := Num(l)];
      && LiteralProgram(prog) && SequenceOverflowsAt(ar, prog, root, 1)
      && Sequential(ar, prog, root, 2) == Ok(map[a := Obj(map[b := Null])])
  {
    hide Applied, CompileMutation, AllFinite, CountUp, PutBelow;
    var prog, root := [CountUp(a, x), PutBelow(a, b, Null)], map[a := Num(l)];
    CountUpApplied(ar, a, x, root);
    CountedUp(ar, root, a, f, x);
    var m1 := root[a := Number(ar, Sum(ar, f, x))];
    PutBelowApplied(ar, a, b, Null, m1);
    assert Sequential(ar, prog, root, 0) == Ok(root);
    assert Sequential(ar, prog, root, 1) == Ok(m1);
    NotFinite(ar, a, Sum(ar, f, x), m1);
    assert m1[a := Obj(map[b := Null])] == map[a := Obj(map[b := Null])];
  }

  /** Below the member the first mutation has its target, and the second waits. */
  lemma SumPositions(ar: Arith, a: string, b: string, x: Float)
    requires !IsWildcard(a) && !IsWildcard(b)
    ensures var prog := [CountUp(a, x), PutBelow(a, b, Null)];
      && LiteralProgram(prog) && |prog[0].tokens| == 1 && |prog[1].tokens| == 2 && prog[0].kind == Increment(x)
      && AdvanceEach(prog, Starts(prog), Key(a)) == [{1}, {1}]
  {
    var prog := [CountUp(a, x), PutBelow(a, b, Null)];
    CountUpApplied(ar, a, x, map[]);
    PutBelowApplied(ar, a, b, Null, map[a := Num([])]);
    LiteralToken(prog[0], 0);
    LiteralToken(prog[1], 0);
    assert AdvanceAll(prog[0].tokens, {0}, Key(a)) == {1} && AdvanceAll(prog[1].tokens, {0}, Key(a)) == {1};
  }

  lemma SumJams(ar: Arith, a: string, b: string, l: Text, f: Float, x: Float)
    requires !IsWildcard(a) && !IsWildcard(b) && Prints(ar)
    requires ar.parse(l) == Some(f) && ar.finite(f) && !ar.finite(Sum(ar, f, x))
    requires LiteralProgram([CountUp(a, x), PutBelow(a, b, Null)])
    ensures RunJams(ar, [CountUp(a, x), PutBelow(a, b, Null)], map[a := Num(l)])
  {
    hide CountUp, PutBelow, Create;
    var prog, root := [CountUp(a, x), PutBelow(a, b, Null)], map[a := Num(l)];
    SumPositions(ar, a, b, x);
    StartsOk(prog);
    var at: Positions := [{1}, {1}];
    var sum := Number(ar, Sum(ar, f, x));
    SumSettled(ar, prog, l, f, x);
    var waiting := PendingAt(prog, at, 1, 2);
    assert waiting[1] == {1};
    assert SomePending(waiting);
    assert !AllFinite(ar, sum);
    assert StretchJams(ar, prog, root[a], at, 1, 2);
    assert Stretch(prog, at, 1, 2);
    assert Jams(ar, prog, root[a], at);
    var starts := Starts(prog);
    assert PendingAt(prog, starts, 0, 2) == starts && starts[0] != {};
    assert SourceJams(ar, prog, Obj(root), starts);
    assert Stretch(prog, starts, 0, 2) && StretchJams(ar, prog, Obj(root), starts, 0, 2);
  }

  /** The target's outcome at the member. */
  lemma SumSettled(ar: Arith, prog: seq<Compiled>, l: Text, f: Float, x: Float)
    requires LiteralProgram(prog) && |prog| == 2 && |prog[0].tokens| == 1 && prog[0].kind == Increment(x) && ar.parse(l) == Some(f)
    ensures Meaning(ar, prog, Some(Num(l)), [{1}, {1}], 1) == Ok(Some(Number(ar, Sum(ar, f, x))))
  {
    var at: Positions := [{1}, {1}];
    var c := prog[0];
    assert c in prog;
    assert Meaning(ar, prog, Some(Num(l)), at, 0) == Ok(Some(Num(l)));
    LiteralStep(ar, c, Some(Num(l)), {1}, 1);
    assert c.path[1..] == [];
  }

  /** Counting up twice from nothing, if that leaves the range: the sequential form holds the sum, the pass cannot marshal it. */
  lemma TwiceFromNothing(ar: Arith, k: string, x: Float)
    requires !IsWildcard(k) && Prints(ar) && !ar.finite(Sum(ar, ar.normalize(x), x))
    ensures var prog := [CountUp(k, x), CountUp(k, x)];
      && LiteralProgram(prog)
      && Sequential(ar, prog, map[], 2) == Ok(map[k := Number(ar, Sum(ar, ar.normalize(x), x))])
      && RunJams(ar, prog, map[])
  {
    hide Applied, CompileMutation, AllFinite;
    var c, one := CountUp(k, x), Number(ar, ar.normalize(x));
    var prog, empty: map<string, Json> := [c, c], map[];
    CountUpApplied(ar, k, x, empty);
    assert empty[k := one] == map[k := one];
    CountedUp(ar, map[k := one], k, ar.normalize(x), x);
    var two := Number(ar, Sum(ar, ar.normalize(x), x));
    assert map[k := one][k := two] == map[k := two];
    assert Sequential(ar, prog, empty, 1) == Ok(map[k := one]);
    NotFinite(ar, k, Sum(ar, ar.normalize(x), x), map[k := two]);
    SynthesisJams(ar, prog, empty, c);
  }

  lemma ThreeFromNothing(ar: Arith, a: string, b: string, x: Float)
    requires !IsWildcard(a) && !IsWildcard(b) && a != b && Prints(ar) && !ar.finite(Sum(ar, ar.normalize(x), x))
    requires LiteralProgram([CountUp(a, x), CountUp(a, x), CountUp(b, x)])
    ensures SequenceOverflowsAt(ar, [CountUp(a, x), CountUp(a, x), CountUp(b, x)], map[], 3)
  {
    hide Applied, CompileMutation, AllFinite, CountUp, LiteralProgram;
    var prog, empty: map<string, Json> := [CountUp(a, x), CountUp(a, x), CountUp(b, x)], map[];
    CountUpApplied(ar, a, x, empty);
    var n1 := empty[a := Number(ar, ar.normalize(x))];
    CountedUp(ar, n1, a, ar.normalize(x), x);
    var n2 := n1[a := Number(ar, Sum(ar, ar.normalize(x), x))];
    CountUpApplied(ar, b, x, n2);
    var n3 := n2[b := Number(ar, ar.normalize(x))];
    assert Sequential(ar, prog, empty, 0) == Ok(empty);
    assert Sequential(ar, prog, empty, 1) == Ok(n1);
    assert Sequential(ar, prog, empty, 2) == Ok(n2);
    assert Sequential(ar, prog, empty, 3) == Ok(n3);
    NotFinite(ar, a, Sum(ar, ar.normalize(x), x), n3);
  }

  /**
   What is synthesised counts members up from nothing even where they are there: the sequential
   form stays in range, and the pass, asked for another member, still cannot marshal.
   */
  lemma FromNothingAlthoughThere(ar: Arith, a: string, b: string, l: Text, f: Float, x: Float)
    requires !IsWildcard(a) && !IsWildcard(b) && a != b && Prints(ar)
    requires ar.parse(l) == Some(f) && ar.finite(f) && ar.finite(ar.normalize(x))
    requires ar.finite(Sum(ar, f, x)) && ar.finite(Sum(ar, Sum(ar, f, x), x))
    requires !ar.finite(Sum(ar, ar.normalize(x), x))
    ensures var prog, root := [CountUp(a, x), CountUp(a, x), CountUp(b, x)], map[a := Num(l)];
      && LiteralProgram(prog) && Sequential(ar, prog, root, 3).Ok? && !SequenceOverflows(ar, prog, root)
      && RunJams(ar, prog, root)
  {
    CountUpProgram(ar, a, b, x);
    ThreeFromNothing(ar, a, b, x);
    ThreeInSequence(ar, a, b, l, f, x);
    CountUpApplied(ar, b, x, map[]);
    SynthesisJams(ar, [CountUp(a, x), CountUp(a, x), CountUp(b, x)], map[a := Num(l)], CountUp(b, x));
  }
}
