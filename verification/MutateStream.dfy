/** The one-pass rewriter: rules advance with the scan, and each node is settled when it is met. */
module MutateStream {
  import opened Bytes
  import opened Json
  import opened Patterns
  import opened Mutations
  import opened Reference
  import opened ActiveRules
  import opened Overflow

  // ----- advancing rules -----

  /** The positions one step leads to from one position. */
  method AdvancePositions(tokens: Pattern, pos: nat, s: Segment) returns (out: seq<nat>)
    ensures forall q :: q in out <==> q in Advance(tokens, pos, s)
    decreases |tokens| - pos
  {
    if pos >= |tokens| {
      return [];
    }
    if tokens[pos].Recursive? {
      if pos == |tokens| - 1 {
        return [pos, |tokens|];
      }
      var rest := AdvancePositions(tokens, pos + 1, s);
      return [pos] + rest;
    }
    return if TokenMatches(tokens[pos], s) then [pos + 1] else [];
  }

  /** One step turns the first rule into the second. */
  predicate LeadsTo(prog: seq<Compiled>, from: Rule, s: Segment, to: Rule) {
    from.idx == to.idx < |prog| && to.pos in Advance(prog[to.idx].tokens, from.pos, s)
  }

  ghost predicate Sorted(rules: seq<Rule>) {
    forall i, j :: 0 <= i < j < |rules| ==> rules[i].idx <= rules[j].idx
  }

  /** Exactly the rules some of the first k lead to. */
  ghost predicate AreLedTo(prog: seq<Compiled>, rules: seq<Rule>, k: nat, s: Segment, out: seq<Rule>)
    requires k <= |rules|
  {
    && (forall r :: r in out ==> exists f :: f in rules[..k] && LeadsTo(prog, f, s, r))
    && (forall f, r :: f in rules[..k] && LeadsTo(prog, f, s, r) ==> r in out)
  }

  /** Append one rule's new positions, leaving out what is there already. */
  method AddRules(out: seq<Rule>, idx: nat, positions: seq<nat>) returns (more: seq<Rule>)
    requires Sorted(out) && forall r :: r in out ==> r.idx <= idx
    ensures Sorted(more) && forall r :: r in more ==> r.idx <= idx
    ensures forall r :: r in more <==> r in out || (r.idx == idx && r.pos in positions)
  {
    more := out;
    for p := 0 to |positions|
      invariant Sorted(more) && forall r :: r in more ==> r.idx <= idx
      invariant forall r :: r in more <==> r in out || (r.idx == idx && r.pos in positions[..p])
    {
      assert positions[..p + 1] == positions[..p] + [positions[p]];
      var next := Rule(idx, positions[p]);
      if next !in more {
        more := more + [next];
      }
    }
    assert positions[..|positions|] == positions;
  }

  lemma OnlyOwnIndex(prog: seq<Compiled>, rule: Rule, s: Segment)
    requires rule.idx < |prog|
    ensures forall r :: LeadsTo(prog, rule, s, r) <==> r.idx == rule.idx && r.pos in Advance(prog[rule.idx].tokens, rule.pos, s)
  {
  }

  method AdvanceRules(prog: seq<Compiled>, rules: seq<Rule>, s: Segment) returns (out: seq<Rule>)
    requires ProgramOk(prog) && RulesOk(prog, rules)
    ensures RulesOk(prog, out) && RuleSets(out, |prog|) == AdvanceEach(prog, RuleSets(rules, |prog|), s)
  {
    hide ProgramOk, AllPositionsOk, LeadsTo;
    out := [];
    for k := 0 to |rules|
      invariant Sorted(out) && forall r :: r in out ==> k < |rules| ==> r.idx <= rules[k].idx
      invariant AreLedTo(prog, rules, k, s, out)
    {
      var rule := rules[k];
      assert rule in rules && rules[..k + 1] == rules[..k] + [rule];
      var positions := AdvancePositions(prog[rule.idx].tokens, rule.pos, s);
      OnlyOwnIndex(prog, rule, s);
      out := AddRules(out, rule.idx, positions);
    }
    assert rules[..|rules|] == rules;
    LedToSets(prog, rules, s, out);
  }

  lemma LedToSets(prog: seq<Compiled>, rules: seq<Rule>, s: Segment, out: seq<Rule>)
    requires ProgramOk(prog) && RulesOk(prog, rules) && Sorted(out) && rules[..|rules|] == rules && AreLedTo(prog, rules, |rules|, s, out)
    ensures RulesOk(prog, out) && RuleSets(out, |prog|) == AdvanceEach(prog, RuleSets(rules, |prog|), s)
  {
    var before, after := RuleSets(rules, |prog|), RuleSets(out, |prog|);
    forall i | 0 <= i < |prog|
      ensures after[i] == AdvanceAll(prog[i].tokens, before[i], s) && PositionsOk(prog[i], after[i])
    {
      forall q | q in after[i] ensures q in AdvanceAll(prog[i].tokens, before[i], s) {
        var f :| f in rules && LeadsTo(prog, f, s, Rule(i, q));
        assert f.pos in before[i];
      }
      forall q | q in AdvanceAll(prog[i].tokens, before[i], s) ensures q in after[i] {
        var p :| p in before[i] && q in Advance(prog[i].tokens, p, s);
        assert Rule(i, p) in rules && LeadsTo(prog, Rule(i, p), s, Rule(i, q));
      }
      MemberOk(prog, before, i);
      AdvancedOk(prog[i], before[i], s);
    }
    assert after == AdvanceEach(prog, before, s);
  }

  // ----- rules questioned -----

  ghost predicate Creates(prog: seq<Compiled>, r: Rule) {
    r.idx < |prog| && !prog[r.idx].wildcard && !prog[r.idx].kind.Remove? && r.pos < |prog[r.idx].path|
  }

  ghost predicate Adds(prog: seq<Compiled>, r: Rule, k: string) {
    Creates(prog, r) && prog[r.idx].path[r.pos] == k
  }

  /** Some rule still has a literal path to create. */
  method HasCreateRule(prog: seq<Compiled>, rules: seq<Rule>) returns (some: bool)
    requires RulesOk(prog, rules) && forall c :: c in prog ==> WellFormed(c)
    ensures some <==> exists r :: r in rules && Creates(prog, r)
  {
    for k := 0 to |rules|
      invariant forall r :: r in rules[..k] ==> !Creates(prog, r)
    {
      assert rules[k] in rules && rules[..k + 1] == rules[..k] + [rules[k]];
      var c := prog[rules[k].idx];
      assert c in prog;
      if !c.wildcard && !c.kind.Remove? && rules[k].pos < |c.tokens| {
        assert Creates(prog, rules[k]);
        return true;
      }
    }
    assert rules[..|rules|] == rules;
    return false;
  }

  // ----- values as they are written -----

  lemma DecodeAppend(members: seq<Member>, last: Member)
    ensures DecodeMembers(members + [last]) == DecodeMembers(members)[last.key := Decode(last.value)]
  {
    assert (members + [last])[..|members|] == members;
  }

  lemma UniqueAppend(members: seq<Member>, last: Member)
    requires UniqueKeys(DObj(members)) && UniqueKeys(last.value) && forall i :: 0 <= i < |members| ==> members[i].key != last.key
    ensures UniqueKeys(DObj(members + [last]))
  {
  }

  /** Write a tree out; the members of an object come in some order. */
  method ToDoc(j: Json) returns (d: Doc)
    ensures Decode(d) == j && UniqueKeys(d)
    decreases j, 1
  {
    match j
    case Null => d := DNull;
    case Bool(b) => d := DBool(b);
    case Num(l) => d := DNum(l);
    case Str(t) =>
      d := DStr([t]);
      assert Flatten([t]) == t + Flatten([t][1..]);
    case Arr(items) =>
      var out: seq<Doc> := [];
      for i := 0 to |items|
        invariant |out| == i && forall k :: 0 <= k < i ==> Decode(out[k]) == items[k] && UniqueKeys(out[k])
      {
        var item := ToDoc(items[i]);
        out := out + [item];
      }
      d := DArr(out);
      assert Decode(d).items == items;
    case Obj(_) =>
      var members := MembersToDoc(j);
      d := DObj(members);
  }

  method MembersToDoc(j: Json) returns (out: seq<Member>)
    requires j.Obj?
    ensures UniqueKeys(DObj(out)) && DecodeMembers(out) == j.members
    decreases j, 0
  {
    hide Decode, DecodeMembers;
    var m := j.members;
    out := [];
    NoMembers();
    var keys := m.Keys;
    while keys != {}
      invariant keys <= m.Keys && UniqueKeys(DObj(out)) && forall i :: 0 <= i < |out| ==> out[i].key !in keys
      invariant DecodeMembers(out) == map k | k in m && k !in keys :: m[k]
      decreases keys
    {
      var k :| k in keys;
      var value := ToDoc(m[k]);
      DecodeAppend(out, Member(k, value));
      UniqueAppend(out, Member(k, value));
      out := out + [Member(k, value)];
      keys := keys - {k};
    }
    assert DecodeMembers(out) == m;
  }

  lemma NoMembers()
    ensures DecodeMembers([]) == map[] && UniqueKeys(DObj([]))
  {
  }

  // ----- what is synthesised where nothing is -----

  /** The rest of a rule's path as a mutation of its own. */
  function RelativeMutation(c: Compiled, pos: nat): Compiled
    requires pos < |c.path|
  {
    CompileMutation(Mutation(c.path[pos..], c.kind))
  }

  ghost predicate InProgram(prog: seq<Compiled>, rules: seq<Rule>) {
    (forall c :: c in prog ==> WellFormed(c)) && forall r :: r in rules ==> r.idx < |prog|
  }

  /** The rest of the first n rules' paths, mutating an empty object one after another. */
  ghost function Synthesised(ar: Arith, prog: seq<Compiled>, rules: seq<Rule>, n: nat): Result<map<string, Json>>
    requires n <= |rules| && InProgram(prog, rules)
  {
    if n == 0 then Ok(map[])
    else
      var before, r := Synthesised(ar, prog, rules, n - 1), rules[n - 1];
      assert r in rules && prog[r.idx] in prog;
      if before.Fail? || r in rules[..n - 1] || r.pos >= |prog[r.idx].path| then before
      else Applied(ar, RelativeMutation(prog[r.idx], r.pos), before.value)
  }

  lemma EmptyStaysEmpty(ar: Arith, c: Compiled)
    requires WellFormed(c) && c.kind.Remove?
    ensures Applied(ar, c, map[]) == Ok(map[])
  {
    if c.wildcard {
      FromMembers(ar, c, map[], {0}, Ok(map[]));
    }
  }

  lemma RelativeCreates(ar: Arith, c: Compiled, pos: nat, root: map<string, Json>)
    requires WellFormed(c) && !c.wildcard && !c.kind.Remove? && pos < |c.path|
    ensures Applied(ar, RelativeMutation(c, pos), root) == CreateIn(ar, c.kind, root, c.path[pos..])
  {
    forall s | s in c.path[pos..] ensures !IsWildcard(s) {
      assert s in c.path;
    }
  }

  /** Removals find nothing to remove. */
  lemma {:induction false} RemovalsSynthesiseNothing(ar: Arith, prog: seq<Compiled>, rules: seq<Rule>, n: nat)
    requires n <= |rules| && InProgram(prog, rules) && forall r :: r in rules ==> prog[r.idx].kind.Remove?
    ensures Synthesised(ar, prog, rules, n) == Ok(map[])
  {
    if n > 0 {
      RemovalsSynthesiseNothing(ar, prog, rules, n - 1);
      var r := rules[n - 1];
      assert r in rules && prog[r.idx] in prog;
      if r !in rules[..n - 1] && r.pos < |prog[r.idx].path| {
        EmptyStaysEmpty(ar, RelativeMutation(prog[r.idx], r.pos));
      }
    }
  }

  lemma WaitingRule(prog: seq<Compiled>, rules: seq<Rule>, r: Rule)
    requires ProgramOk(prog) && RulesOk(prog, rules) && NoneFinished(prog, RuleSets(rules, |prog|)) && r in rules
    ensures r.idx < |prog| && WellFormed(prog[r.idx]) && r.pos < |prog[r.idx].path| == |prog[r.idx].tokens|
    ensures LiteralProgram(prog) ==> !prog[r.idx].wildcard && !prog[r.idx].kind.Remove?
  {
    assert r.pos in RuleSets(rules, |prog|)[r.idx] && prog[r.idx] in prog;
  }

  lemma NoRules(rules: seq<Rule>, m: nat)
    requires rules == []
    ensures |RuleSets(rules, m)| == m && forall i :: 0 <= i < m ==> RuleSets(rules, m)[i] == {}
  {
  }

  lemma RepeatAddsNothing(rules: seq<Rule>, n: nat, m: nat)
    requires 0 < n <= |rules| && rules[n - 1] in rules[..n - 1]
    ensures RuleSets(rules[..n], m) == RuleSets(rules[..n - 1], m)
  {
    assert rules[..n] == rules[..n - 1] + [rules[n - 1]];
    forall i | 0 <= i < m ensures RuleSets(rules[..n], m)[i] == RuleSets(rules[..n - 1], m)[i] {
    }
  }

  /** For creating rules the synthesised object is their meaning on an empty one. */
  lemma {:induction false} SynthesisedIsMeaning(ar: Arith, prog: seq<Compiled>, rules: seq<Rule>, n: nat)
    requires n <= |rules| && LiteralProgram(prog) && RulesOk(prog, rules) && NoneFinished(prog, RuleSets(rules, |prog|))
    ensures var r := Synthesised(ar, prog, rules, n);
      Meaning(ar, prog, Some(Obj(map[])), RuleSets(rules[..n], |prog|), |prog|) == if r.Fail? then Fail else Ok(Some(Obj(r.value)))
  {
    hide Applied, RelativeMutation, CompileMutation, WellFormed, RuleSets, NoneFinished;
    var at, empty := RuleSets(rules[..n], |prog|), Some(Obj(map[]));
    if n == 0 {
      NoRules(rules[..0], |prog|);
      MeaningBeyond(ar, prog, empty, at, 0, |prog|);
    } else {
      SynthesisedIsMeaning(ar, prog, rules, n - 1);
      var r := rules[n - 1];
      WaitingRule(prog, rules, r);
      if r in rules[..n - 1] {
        RepeatAddsNothing(rules, n, |prog|);
      } else {
        LastRule(ar, prog, rules, n);
        var before := Synthesised(ar, prog, rules, n - 1);
        if before.Ok? {
          RelativeCreates(ar, prog[r.idx], r.pos, before.value);
        }
      }
    }
  }

  /** The last rule of a literal program's list is the only one of its mutation, and comes after all others. */
  lemma LastRuleSets(prog: seq<Compiled>, rules: seq<Rule>, n: nat)
    requires 0 < n <= |rules| && LiteralProgram(prog) && RulesOk(prog, rules)
    requires rules[n - 1] in rules && rules[n - 1] !in rules[..n - 1]
    ensures var r, at, bt := rules[n - 1], RuleSets(rules[..n], |prog|), RuleSets(rules[..n - 1], |prog|);
      && r.idx < |prog| == |at| == |bt| && WellFormed(prog[r.idx]) && !prog[r.idx].wildcard && !prog[r.idx].kind.Remove?
      && (forall j :: 0 <= j < r.idx ==> at[j] == bt[j]) && at[r.idx] == {r.pos} && PositionsOk(prog[r.idx], at[r.idx])
      && (forall j :: r.idx < j < |prog| ==> at[j] == {}) && (forall j :: r.idx <= j < |prog| ==> bt[j] == {})
  {
    hide WellFormed;
    var r := rules[n - 1];
    var i, all := r.idx, RuleSets(rules, |prog|);
    assert rules[..n] == rules[..n - 1] + [r];
    assert prog[i] in prog && PositionsOk(prog[i], all[i]) && r.pos in all[i];
    forall q | q in rules[..n - 1] ensures q.idx < i {
      assert q in rules && q.pos in all[q.idx];
    }
    var at, bt := RuleSets(rules[..n], |prog|), RuleSets(rules[..n - 1], |prog|);
    assert at[i] == {r.pos};
    assert forall j :: 0 <= j < i ==> at[j] == bt[j];
  }

  lemma LastRule(ar: Arith, prog: seq<Compiled>, rules: seq<Rule>, n: nat)
    requires 0 < n <= |rules| && LiteralProgram(prog) && RulesOk(prog, rules) && NoneFinished(prog, RuleSets(rules, |prog|))
    requires rules[n - 1] in rules && rules[n - 1] !in rules[..n - 1] && rules[n - 1].pos < |prog[rules[n - 1].idx].path|
    ensures var r := rules[n - 1];
      var before := Meaning(ar, prog, Some(Obj(map[])), RuleSets(rules[..n - 1], |prog|), |prog|);
      Meaning(ar, prog, Some(Obj(map[])), RuleSets(rules[..n], |prog|), |prog|) ==
        if before.Fail? then Fail else Create(ar, prog[r.idx].kind, before.value, prog[r.idx].path[r.pos..])
  {
    hide Step, Create, WellFormed, Meaning, RuleSets, RulesOk, NoneFinished;
    var r, empty := rules[n - 1], Some(Obj(map[]));
    var at, bt := RuleSets(rules[..n], |prog|), RuleSets(rules[..n - 1], |prog|);
    var i := r.idx;
    LastRuleSets(prog, rules, n);
    MeaningBeyond(ar, prog, empty, at, i + 1, |prog|);
    MeaningBeyond(ar, prog, empty, bt, i, |prog|);
    MeaningLocal(ar, prog, empty, at, bt, i);
    MeaningStep(ar, prog, empty, at, i);
    if Meaning(ar, prog, empty, at, i).Ok? {
      LiteralStep(ar, prog[i], Meaning(ar, prog, empty, at, i).value, at[i], r.pos);
    }
  }

  lemma {:induction false} SynthesisFails(ar: Arith, prog: seq<Compiled>, rules: seq<Rule>, n: nat, later: nat)
    requires n <= later <= |rules| && InProgram(prog, rules) && Synthesised(ar, prog, rules, n).Fail?
    ensures Synthesised(ar, prog, rules, later).Fail?
  {
    if n < later {
      SynthesisFails(ar, prog, rules, n, later - 1);
    }
  }

  lemma {:induction false} CreatedHasMembers(ar: Arith, prog: seq<Compiled>, j: Json, at: Positions, n: nat)
    requires LiteralProgram(prog) && n <= |prog| && AllPositionsOk(prog, at) && NoneFinished(prog, at)
    requires j.Obj? && (j.members != map[] || exists i :: 0 <= i < n && at[i] != {})
    ensures var r := Meaning(ar, prog, Some(j), at, n);
      r.Ok? ==> r.value.Some? && r.value.value.Obj? && r.value.value.members != map[]
  {
    if n > 0 {
      MeaningStep(ar, prog, Some(j), at, n - 1);
      MemberOk(prog, at, n - 1);
      if j.members != map[] || exists i :: 0 <= i < n - 1 && at[i] != {} {
        CreatedHasMembers(ar, prog, j, at, n - 1);
      } else {
        MeaningBeyond(ar, prog, Some(j), at, 0, n - 1);
      }
      if at[n - 1] != {} {
        var p :| p in at[n - 1];
        var before := Meaning(ar, prog, Some(j), at, n - 1);
        if before.Ok? {
          LiteralStep(ar, prog[n - 1], before.value, at[n - 1], p);
        }
      }
    }
  }

  /** Marshalling what was synthesised fails on a number that JSON cannot express. */
  function Marshalled(ar: Arith, r: Result<map<string, Json>>): Result<map<string, Json>> {
    if r.Ok? && !AllFinite(ar, Obj(r.value)) then Fail else r
  }

  /** What a run leaves of a node: nothing written, or one value. */
  type Written = Result<Option<Doc>>

  ghost predicate Gives(out: Written, want: Outcome) {
    if out.Fail? then want.Fail?
    else if out.value.None? then want == Ok(None)
    else UniqueKeys(out.value.value) && want == Ok(Some(Decode(out.value.value)))
  }

  /** The run gives what is wanted, and fails exactly where that fails or the pass cannot go on. */
  ghost predicate Answers(out: Written, want: Outcome, jams: bool) {
    if out.Ok? then !jams && Gives(out, want) else want.Fail? || jams
  }

  /** The state of a node while its rules are gone through. */
  datatype NodeState = Source | Payload(value: Doc) | Computed(number: Float) | Gone

  class MutateState {
    const ar: Arith
    const prog: seq<Compiled>
    var missingCache: map<seq<Rule>, map<string, Json>>

    ghost predicate Valid()
      reads this
    {
      ProgramOk(prog) && Prints(ar) && forall rules :: rules in missingCache ==> CacheEntryOk(rules, missingCache[rules])
    }

    ghost predicate CacheEntryOk(rules: seq<Rule>, members: map<string, Json>) {
      InProgram(prog, rules) && Marshalled(ar, Synthesised(ar, prog, rules, |rules|)) == Ok(members)
    }

    constructor (ar: Arith, prog: seq<Compiled>)
      requires ProgramOk(prog) && Prints(ar)
      ensures Valid() && this.ar == ar && this.prog == prog
    {
      this.ar, this.prog := ar, prog;
      missingCache := map[];
    }

    // ----- missing values -----

    ghost predicate Synthesisable(rules: seq<Rule>) {
      InProgram(prog, rules) && (LiteralProgram(prog) || forall r :: r in rules ==> prog[r.idx].kind.Remove?)
    }

    /** Apply the rest of every rule's path, each once, to an empty document. */
    method BuildMissing(rules: seq<Rule>) returns (r: Result<map<string, Json>>)
      requires Synthesisable(rules)
      ensures r == Marshalled(ar, Synthesised(ar, prog, rules, |rules|))
    {
      var doc := new Document(map[]);
      for k := 0 to |rules|
        invariant Synthesised(ar, prog, rules, k) == Ok(doc.root)
      {
        var rule := rules[k];
        assert rule in rules && prog[rule.idx] in prog;
        if rule !in rules[..k] && rule.pos < |prog[rule.idx].path| {
          var c := RelativeMutation(prog[rule.idx], rule.pos);
          var ok := doc.ApplyMutation(ar, c);
          if !ok {
            SynthesisFails(ar, prog, rules, k + 1, |rules|);
            return Fail;
          }
        }
      }
      if !AllFinite(ar, Obj(doc.root)) {
        return Fail;
      }
      return Ok(doc.root);
    }

    /** The synthesised members for a list of rules, remembered for the next time. */
    method MissingFor(rules: seq<Rule>) returns (r: Result<map<string, Json>>)
      requires Valid() && Synthesisable(rules)
      modifies this
      ensures Valid() && r == Marshalled(ar, Synthesised(ar, prog, rules, |rules|))
    {
      if rules in missingCache {
        assert CacheEntryOk(rules, missingCache[rules]);
        return Ok(missingCache[rules]);
      }
      r := BuildMissing(rules);
      if r.Ok? {
        missingCache := missingCache[rules := r.value];
      }
    }

    ghost function Want(v: Node, rules: seq<Rule>): Outcome
      requires ProgramOk(prog)
    {
      Meaning(ar, prog, v, RuleSets(rules, |prog|), |prog|)
    }

    ghost predicate Waiting(rules: seq<Rule>) {
      RulesOk(prog, rules) && NoneFinished(prog, RuleSets(rules, |prog|))
    }

    /** Write what the rules create where there is nothing to keep. */
    method EmitMissing(rules: seq<Rule>, ghost v: Node) returns (out: Written)
      requires Valid() && Waiting(rules) && Synthesisable(rules)
      requires if LiteralProgram(prog) then rules != [] && (v.None? || !v.value.Obj?) else v.None?
      modifies this
      ensures Valid() && Answers(out, Want(v, rules), Unwritable(ar, Want(v, rules)))
    {
      MissingMeans(rules, v);
      var members := MissingFor(rules);
      if members.Fail? {
        return Fail;
      }
      if |members.value| == 0 {
        return Ok(None);
      }
      var d := ToDoc(Obj(members.value));
      return Ok(Some(d));
    }

    lemma MissingMeans(rules: seq<Rule>, v: Node)
      requires ProgramOk(prog) && Waiting(rules) && Synthesisable(rules)
      requires if LiteralProgram(prog) then rules != [] && (v.None? || !v.value.Obj?) else v.None?
      ensures var r := Synthesised(ar, prog, rules, |rules|);
        Want(v, rules) == if r.Fail? then Fail else if |r.value| == 0 then Ok(None) else Ok(Some(Obj(r.value)))
    {
      var at := RuleSets(rules, |prog|);
      if LiteralProgram(prog) {
        assert rules[..|rules|] == rules;
        assert rules[0] in rules && rules[0].pos in at[rules[0].idx];
        SynthesisedIsMeaning(ar, prog, rules, |rules|);
        NonObjectIsReplaced(ar, prog, v, at, |prog|);
        CreatedHasMembers(ar, prog, Obj(map[]), at, |prog|);
      } else {
        RemovalsSynthesiseNothing(ar, prog, rules, |rules|);
        MissingStaysMissing(ar, prog, at, |prog|);
      }
    }

    /** A scalar is replaced by what is created below it, and kept under wildcards. */
    method MutateScalar(d: Doc, rules: seq<Rule>) returns (out: Written)
      requires Valid() && Waiting(rules) && rules != [] && UniqueKeys(d) && !d.DObj? && !d.DArr?
      modifies this
      ensures Valid()
      ensures var want := Want(Some(Decode(d)), rules); Answers(out, want, LiteralProgram(prog) && Unwritable(ar, want))
    {
      var create := HasCreateRule(prog, rules);
      CreateOrKeep(rules);
      if create {
        out := EmitMissing(rules, Some(Decode(d)));
      } else {
        ScalarIsLeft(ar, prog, Decode(d), RuleSets(rules, |prog|), |prog|);
        out := Ok(Some(d));
      }
    }

    /** Waiting rules all create in a literal program, and none does in a wildcard one. */
    lemma CreateOrKeep(rules: seq<Rule>)
      requires ProgramOk(prog) && Waiting(rules) && rules != []
      ensures (exists r :: r in rules && Creates(prog, r)) <==> LiteralProgram(prog)
      ensures LiteralProgram(prog) ==> Synthesisable(rules)
      ensures !LiteralProgram(prog) ==> WildcardProgram(prog)
    {
      forall r | r in rules ensures LiteralProgram(prog) ==> Creates(prog, r)
        ensures WildcardProgram(prog) ==> !Creates(prog, r)
      {
        WaitingRule(prog, rules, r);
        assert prog[r.idx] in prog;
      }
      assert rules[0] in rules;
    }

    // ----- whether the node will be written -----

    /** One mutation's share: a target decides, anything else leaves the verdict. */
    function GroupExistence(idx: int, hasDirect: bool, exists_: bool): bool {
      if 0 <= idx < |prog| && hasDirect then !prog[idx].kind.Remove? else exists_
    }

    /** The verdict of the mutations before the current one, and whether the current one has its target here. */
    ghost predicate ExistenceAt(rules: seq<Rule>, current: int, there: bool, hasDirect: bool)
      requires -1 <= current < |prog|
    {
      var at := RuleSets(rules, |prog|);
      && (forall r :: r in rules ==> r.idx <= current)
      && there == (current <= 0 || StillThere(prog, at, current))
      && hasDirect == (current >= 0 && Finished(prog[current], at[current]))
    }

    /** Go through the rules mutation by mutation, in program order. */
    method SimulateExistence(rules: seq<Rule>) returns (there: bool)
      requires ProgramOk(prog) && RulesOk(prog, rules)
      ensures there == StillThere(prog, RuleSets(rules, |prog|), |prog|)
    {
      hide StillThere, RuleSets, ProgramOk, AllPositionsOk, MutateState.ExistenceAt;
      NothingYet(rules[..0]);
      there := true;
      var current, hasDirect := -1, false;
      for k := 0 to |rules|
        invariant -1 <= current < |prog| && (k > 0 ==> current == rules[k - 1].idx) && (k == 0 ==> current == -1)
        invariant ExistenceAt(rules[..k], current, there, hasDirect)
      {
        var rule := rules[k];
        assert rule in rules && rules[..k + 1] == rules[..k] + [rule];
        RuleInPath(rules, rule);
        OneMoreRule(rules[..k], rule, current, there, hasDirect);
        if rule.idx != current {
          there := GroupExistence(current, hasDirect, there);
          current, hasDirect := rule.idx, false;
        }
        if rule.pos >= |prog[rule.idx].tokens| {
          hasDirect := true;
        }
      }
      assert rules[..|rules|] == rules;
      ExistenceAtEnd(rules, current, there, hasDirect);
      there := GroupExistence(current, hasDirect, there);
    }

    /** No target, no change: the verdict carries over mutations without a rule. */
    lemma {:induction false} NoTargetsBeyond(rules: seq<Rule>, n: nat, later: nat)
      requires n <= later <= |prog| && forall r :: r in rules ==> r.idx < n || r.idx >= later
      ensures StillThere(prog, RuleSets(rules, |prog|), later) == StillThere(prog, RuleSets(rules, |prog|), n)
    {
      if n < later {
        NoTargetsBeyond(rules, n, later - 1);
        assert RuleSets(rules, |prog|)[later - 1] == {};
      }
    }

    lemma {:induction false} StillThereLocal(at: Positions, bt: Positions, n: nat)
      requires n <= |prog| == |at| == |bt| && forall i :: 0 <= i < n ==> at[i] == bt[i]
      ensures StillThere(prog, at, n) == StillThere(prog, bt, n)
    {
      if n > 0 {
        StillThereLocal(at, bt, n - 1);
      }
    }

    lemma RuleInPath(rules: seq<Rule>, rule: Rule)
      requires ProgramOk(prog) && RulesOk(prog, rules) && rule in rules
      ensures rule.idx < |prog| && rule.pos <= |prog[rule.idx].tokens|
    {
      assert rule.pos in RuleSets(rules, |prog|)[rule.idx];
      MemberOk(prog, RuleSets(rules, |prog|), rule.idx);
    }

    lemma NothingYet(rules: seq<Rule>)
      requires rules == []
      ensures ExistenceAt(rules, -1, true, false)
    {
    }

    /** After the last rule: the current mutation's share decides the rest. */
    lemma ExistenceAtEnd(rules: seq<Rule>, current: int, there: bool, hasDirect: bool)
      requires -1 <= current < |prog| && ExistenceAt(rules, current, there, hasDirect)
      ensures GroupExistence(current, hasDirect, there) == StillThere(prog, RuleSets(rules, |prog|), |prog|)
    {
      NoTargetsBeyond(rules, current + 1, |prog|);
    }

    lemma OneMoreRule(rules: seq<Rule>, rule: Rule, current: int, there: bool, hasDirect: bool)
      requires -1 <= current < |prog| && current <= rule.idx < |prog| && ExistenceAt(rules, current, there, hasDirect)
      requires rule.pos <= |prog[rule.idx].tokens|
      ensures var direct := rule.pos == |prog[rule.idx].tokens|;
        if rule.idx == current then ExistenceAt(rules + [rule], current, there, hasDirect || direct)
        else ExistenceAt(rules + [rule], rule.idx, GroupExistence(current, hasDirect, there), direct)
    {
      var at, bt := RuleSets(rules, |prog|), RuleSets(rules + [rule], |prog|);
      forall i | 0 <= i < |prog| ensures bt[i] == if i == rule.idx then at[i] + {rule.pos} else at[i] {
      }
      StillThereLocal(at, bt, rule.idx);
      if rule.idx != current {
        NoTargetsBeyond(rules, current + 1, rule.idx);
        assert at[rule.idx] == {};
      }
    }

    // ----- containers -----

    /** The child rules mean for a member what the program means for it. */
    ghost function MemberWant(rules: seq<Rule>, k: string, v: Node): Outcome
      requires ProgramOk(prog)
    {
      Meaning(ar, prog, v, AdvanceEach(prog, RuleSets(rules, |prog|), Key(k)), |prog|)
    }

    ghost predicate MemberJams(rules: seq<Rule>, k: string, j: Json)
      requires ProgramOk(prog)
    {
      Jams(ar, prog, j, AdvanceEach(prog, RuleSets(rules, |prog|), Key(k)))
    }

    ghost predicate ElementJams(rules: seq<Rule>, i: nat, j: Json)
      requires ProgramOk(prog)
    {
      Jams(ar, prog, j, AdvanceEach(prog, RuleSets(rules, |prog|), Index(i)))
    }

    /** What creating mutations would add to the object cannot be written. */
    ghost predicate AdditionJams(rules: seq<Rule>, m: map<string, Json>)
      requires ProgramOk(prog)
    {
      LiteralProgram(prog) && Creatable(prog, m, RuleSets(rules, |prog|)) && Unwritable(ar, Want(Some(Obj(map[])), rules))
    }

    /** Every member with a key in done is as the program wants it. */
    ghost predicate MembersDone(rules: seq<Rule>, m: map<string, Json>, done: set<string>, out: seq<Member>)
      requires ProgramOk(prog)
    {
      && UniqueKeys(DObj(out)) && (forall i :: 0 <= i < |out| ==> out[i].key in done)
      && forall k :: k in done ==> MemberWant(rules, k, Get(m, k)) == Ok(Get(DecodeMembers(out), k))
    }

    /** A failing member fails the object, and members that are all done make it. */
    lemma MembersDecide(rules: seq<Rule>, m: map<string, Json>)
      requires ProgramOk(prog) && Waiting(rules)
      ensures (exists k :: MemberWant(rules, k, Get(m, k)).Fail?) ==> Want(Some(Obj(m)), rules).Fail?
      ensures forall o: map<string, Json> :: (forall k :: MemberWant(rules, k, Get(m, k)) == Ok(Get(o, k))) ==>
        Want(Some(Obj(m)), rules) == Ok(Some(Obj(o)))
    {
      hide Meaning;
      var at := RuleSets(rules, |prog|);
      MembersCommute(ar, prog, m, at, |prog|);
      var whole := Want(Some(Obj(m)), rules);
      if whole.Fail? {
        var k :| Meaning(ar, prog, Get(m, k), AdvanceEach(prog, at, Key(k)), |prog|).Fail?;
        assert MemberWant(rules, k, Get(m, k)).Fail?;
      }
      forall o: map<string, Json> | forall k :: MemberWant(rules, k, Get(m, k)) == Ok(Get(o, k))
        ensures whole == Ok(Some(Obj(o)))
      {
        if whole.Ok? {
          forall k ensures Get(whole.value.value.members, k) == Get(o, k) {
            assert MemberWant(rules, k, Get(m, k)) == Ok(Get(o, k));
          }
          SameMembers(whole.value.value.members, o);
        }
      }
    }

    /** One member: its rules, its value, and whether it is written at all. */
    method MutateMember(key: string, value: Doc, rules: seq<Rule>) returns (out: Written)
      requires Valid() && Waiting(rules) && UniqueKeys(value)
      modifies this
      ensures Valid()
      ensures Answers(out, MemberWant(rules, key, Some(Decode(value))), MemberJams(rules, key, Decode(value)))
      decreases value, 5
    {
      var childRules := AdvanceRules(prog, rules, Key(key));
      var emit := SimulateExistence(childRules);
      out := MutateValue(value, childRules);
      RemovedOrThere(ar, prog, Decode(value), RuleSets(childRules, |prog|), |prog|);
      if out.Ok? && !emit {
        out := Ok(None);
      }
    }

    /** One element; the place of a removed one is kept by a null. */
    method MutateElement(index: nat, value: Doc, rules: seq<Rule>) returns (out: Result<Doc>)
      requires Valid() && Waiting(rules) && UniqueKeys(value)
      modifies this
      ensures Valid()
      ensures var want := Meaning(ar, prog, Some(Decode(value)), AdvanceEach(prog, RuleSets(rules, |prog|), Index(index)), |prog|);
        if out.Fail? then want.Fail? || ElementJams(rules, index, Decode(value))
        else UniqueKeys(out.value) && want.Ok? && Decode(out.value) == Kept(want.value) && !ElementJams(rules, index, Decode(value))
      decreases value, 5
    {
      var childRules := AdvanceRules(prog, rules, Index(index));
      var emit := SimulateExistence(childRules);
      var v := MutateValue(value, childRules);
      RemovedOrThere(ar, prog, Decode(value), RuleSets(childRules, |prog|), |prog|);
      if v.Fail? {
        return Fail;
      }
      out := Ok(if emit then v.value.value else DNull);
    }

    method MutateArray(d: Doc, rules: seq<Rule>) returns (out: Written)
      requires Valid() && WildcardProgram(prog) && Waiting(rules) && d.DArr? && UniqueKeys(d)
      modifies this
      ensures Valid()
      ensures Answers(out, Want(Some(Decode(d)), rules), exists i :: 0 <= i < |d.items| && ElementJams(rules, i, Decode(d.items[i])))
      decreases d, 0
    {
      hide Meaning, RulesOk, NoneFinished, ProgramOk, WildcardProgram, ElementDone, ElementJams;
      var items: seq<Doc> := [];
      for i := 0 to |d.items|
        invariant Valid() && |items| == i
        invariant forall k :: 0 <= k < i ==> ElementDone(rules, d.items, k, items[k]) && !ElementJams(rules, k, Decode(d.items[k]))
      {
        var v := MutateElement(i, d.items[i], rules);
        if v.Fail? {
          if !ElementJams(rules, i, Decode(d.items[i])) {
            ElementFails(rules, d.items, i);
          }
          return Fail;
        }
        ElementIsDone(rules, d.items, i, v.value);
        items := items + [v.value];
      }
      out := Ok(Some(DArr(items)));
      ElementsDone(rules, d.items, items);
    }

    ghost predicate ElementDone(rules: seq<Rule>, items: seq<Doc>, i: nat, out: Doc)
      requires ProgramOk(prog) && i < |items|
    {
      var want := Meaning(ar, prog, Some(Decode(items[i])), AdvanceEach(prog, RuleSets(rules, |prog|), Index(i)), |prog|);
      UniqueKeys(out) && want.Ok? && Decode(out) == Kept(want.value)
    }

    lemma ElementIsDone(rules: seq<Rule>, items: seq<Doc>, i: nat, out: Doc)
      requires ProgramOk(prog) && i < |items| && UniqueKeys(out)
      requires var want := Meaning(ar, prog, Some(Decode(items[i])), AdvanceEach(prog, RuleSets(rules, |prog|), Index(i)), |prog|);
        want.Ok? && Decode(out) == Kept(want.value)
      ensures ElementDone(rules, items, i, out)
    {
    }

    lemma ElementFails(rules: seq<Rule>, items: seq<Doc>, i: nat)
      requires WildcardProgram(prog) && Waiting(rules) && i < |items|
      requires Meaning(ar, prog, Some(Decode(items[i])), AdvanceEach(prog, RuleSets(rules, |prog|), Index(i)), |prog|).Fail?
      ensures Want(Some(Decode(DArr(items))), rules).Fail?
    {
      var tree := Decode(DArr(items)).items;
      ItemsCommute(ar, prog, tree, RuleSets(rules, |prog|), |prog|);
      assert tree[i] == Decode(items[i]);
    }

    lemma ElementsDone(rules: seq<Rule>, items: seq<Doc>, out: seq<Doc>)
      requires WildcardProgram(prog) && Waiting(rules) && |out| == |items|
      requires forall i :: 0 <= i < |items| ==> ElementDone(rules, items, i, out[i])
      ensures UniqueKeys(DArr(out)) && Want(Some(Decode(DArr(items))), rules) == Ok(Some(Decode(DArr(out))))
    {
      var at, tree := RuleSets(rules, |prog|), Decode(DArr(items)).items;
      ItemsCommute(ar, prog, tree, at, |prog|);
      var whole := Want(Some(Arr(tree)), rules);
      forall i | 0 <= i < |items|
        ensures ElementDone(rules, items, i, out[i])
        ensures Meaning(ar, prog, Some(tree[i]), AdvanceEach(prog, at, Index(i)), |prog|).Ok?
      {
      }
      assert whole.Ok?;
      assert whole.value.value.items == Decode(DArr(out)).items;
    }

    ghost predicate PotentialOk(rules: seq<Rule>, potential: seq<string>) {
      && (forall k :: k in potential ==> exists r :: r in rules && Adds(prog, r, k))
      && (forall r, k :: r in rules && Adds(prog, r, k) ==> k in potential)
    }

    /** The keys that creating rules would add here. */
    method PotentialAdds(rules: seq<Rule>) returns (potential: seq<string>)
      requires ProgramOk(prog) && RulesOk(prog, rules)
      ensures PotentialOk(rules, potential)
    {
      potential := [];
      for n := 0 to |rules|
        invariant PotentialOk(rules[..n], potential)
      {
        var rule := rules[n];
        assert rule in rules && prog[rule.idx] in prog && rules[..n + 1] == rules[..n] + [rule];
        var c := prog[rule.idx];
        if !c.wildcard && !c.kind.Remove? && rule.pos < |c.tokens| {
          LiteralToken(c, rule.pos);
          var key := c.tokens[rule.pos].raw;
          assert Adds(prog, rule, key);
          if key !in potential {
            potential := potential + [key];
          }
        }
      }
      assert rules[..|rules|] == rules;
    }

    /** A key that no creating rule adds stays missing. */
    lemma NotAdded(rules: seq<Rule>, k: string)
      requires ProgramOk(prog) && Waiting(rules)
      requires forall r :: r in rules ==> !Adds(prog, r, k)
      ensures MemberWant(rules, k, None) == Ok(None)
    {
      var at := AdvanceEach(prog, RuleSets(rules, |prog|), Key(k));
      if WildcardProgram(prog) {
        MissingStaysMissing(ar, prog, at, |prog|);
      } else {
        forall i | 0 <= i < |prog| ensures at[i] == {} {
          forall p | p in RuleSets(rules, |prog|)[i] ensures Advance(prog[i].tokens, p, Key(k)) == {} {
            WaitingRule(prog, rules, Rule(i, p));
            LiteralToken(prog[i], p);
          }
        }
        MeaningBeyond(ar, prog, None, at, 0, |prog|);
      }
    }

    method MutateObject(d: Doc, rules: seq<Rule>) returns (out: Written)
      requires Valid() && Waiting(rules) && rules != [] && d.DObj? && UniqueKeys(d)
      modifies this
      ensures Valid()
      ensures var m := DecodeMembers(d.members);
        Answers(out, Want(Some(Decode(d)), rules), (exists k :: k in m && MemberJams(rules, k, m[k])) || AdditionJams(rules, m))
      decreases d, 0
    {
      hide MemberWant, MembersDone, MemberJams, AdditionJams, RulesOk, NoneFinished, ProgramOk, PotentialOk, DecodeMembers, Meaning;
      ghost var m := DecodeMembers(d.members);
      MembersDecide(rules, m);
      var potential := PotentialAdds(rules);
      var seen: set<string> := {};
      var members: seq<Member> := [];
      ghost var done: set<string> := {};
      NothingDone(rules, m);
      for i := 0 to |d.members|
        invariant Valid() && MembersDone(rules, m, done, members)
        invariant forall k :: k in done && k in m ==> !MemberJams(rules, k, m[k])
        invariant forall k :: k in done <==> exists j :: 0 <= j < i && d.members[j].key == k
        invariant forall k :: k in seen <==> k in done && k in potential
      {
        var key := d.members[i].key;
        DecodeMember(d.members, i);
        if key in potential {
          seen := seen + {key};
        }
        var v := MutateMember(key, d.members[i].value, rules);
        if v.Fail? {
          assert MemberJams(rules, key, m[key]) || MemberWant(rules, key, Get(m, key)).Fail?;
          return Fail;
        }
        OneMoreMember(rules, m, done, members, key, v);
        if v.value.Some? {
          members := members + [Member(key, v.value.value)];
        }
        done := done + {key};
      }
      assert done == m.Keys;
      var r := AppendMissing(rules, potential, seen, members, m);
      if r.Fail? {
        return Fail;
      }
      out := Ok(Some(DObj(r.value)));
    }

    lemma NothingDone(rules: seq<Rule>, m: map<string, Json>)
      requires ProgramOk(prog)
      ensures MembersDone(rules, m, {}, [])
    {
    }

    lemma OneMoreMember(rules: seq<Rule>, m: map<string, Json>, done: set<string>, members: seq<Member>, key: string, v: Written)
      requires ProgramOk(prog) && MembersDone(rules, m, done, members) && key !in done
      requires v.Ok? && Gives(v, MemberWant(rules, key, Get(m, key)))
      ensures MembersDone(rules, m, done + {key}, if v.value.Some? then members + [Member(key, v.value.value)] else members)
    {
      hide MemberWant, DecodeMembers, Decode;
      var more := if v.value.Some? then members + [Member(key, v.value.value)] else members;
      assert key !in DecodeMembers(members);
      if v.value.Some? {
        DecodeAppend(members, Member(key, v.value.value));
        UniqueAppend(members, Member(key, v.value.value));
      }
      forall k | k in done + {key} ensures MemberWant(rules, k, Get(m, k)) == Ok(Get(DecodeMembers(more), k)) {
        if k != key {
          assert Get(DecodeMembers(more), k) == Get(DecodeMembers(members), k);
        }
      }
    }

    /** What is synthesised is what each missing member is to become; if that fails, so does the object. */
    lemma MissingMembersWanted(rules: seq<Rule>, m: map<string, Json>)
      requires ProgramOk(prog) && Prints(ar) && LiteralProgram(prog) && Waiting(rules)
      ensures var r := Synthesised(ar, prog, rules, |rules|);
        if r.Fail? then Want(Some(Obj(m)), rules).Fail? else forall k :: MemberWant(rules, k, None) == Ok(Get(r.value, k))
    {
      var at, empty: map<string, Json> := RuleSets(rules, |prog|), map[];
      assert rules[..|rules|] == rules;
      SynthesisedIsMeaning(ar, prog, rules, |rules|);
      MembersCommute(ar, prog, empty, at, |prog|);
      MeaningUnder(ar, prog, Some(Obj(empty)), Some(Obj(m)), at, |prog|);
      var r := Synthesised(ar, prog, rules, |rules|);
      if r.Ok? {
        forall k ensures MemberWant(rules, k, None) == Ok(Get(r.value, k)) {
          assert Get(empty, k) == None;
        }
      }
    }

    /** Nothing else is wanted: the object is done. */
    lemma AllMembersDone(rules: seq<Rule>, m: map<string, Json>, done: set<string>, out: seq<Member>)
      requires ProgramOk(prog) && Waiting(rules) && m.Keys <= done && MembersDone(rules, m, done, out)
      requires forall k :: k !in done ==> MemberWant(rules, k, None) == Ok(None)
      ensures UniqueKeys(DObj(out)) && Want(Some(Obj(m)), rules) == Ok(Some(Obj(DecodeMembers(out))))
    {
      hide MemberWant, DecodeMembers;
      MembersDecide(rules, m);
      var o := DecodeMembers(out);
      forall k ensures MemberWant(rules, k, Get(m, k)) == Ok(Get(o, k)) {
        if k !in done {
          assert k !in o && k !in m;
        }
      }
    }

    /** Whether some creatable key was not among the members, or nothing is known to be creatable. */
    method MissingNeeded(potential: seq<string>, seen: set<string>) returns (needed: bool)
      ensures needed <==> potential == [] || exists k :: k in potential && k !in seen
    {
      if |potential| == 0 {
        return true;
      }
      for i := 0 to |potential|
        invariant forall k :: k in potential[..i] ==> k in seen
      {
        assert potential[..i + 1] == potential[..i] + [potential[i]];
        if potential[i] !in seen {
          return true;
        }
      }
      assert potential[..|potential|] == potential;
      return false;
    }

    /** After the members that were there: those the rules create and that were not seen. */
    method AppendMissing(rules: seq<Rule>, potential: seq<string>, seen: set<string>, members: seq<Member>, ghost m: map<string, Json>)
        returns (r: Result<seq<Member>>)
      requires Valid() && Waiting(rules) && rules != [] && MembersDone(rules, m, m.Keys, members) && PotentialOk(rules, potential)
      requires forall k :: k in seen <==> k in m && k in potential
      modifies this
      ensures Valid() && if r.Fail? then Want(Some(Obj(m)), rules).Fail? || AdditionJams(rules, m) else
        !AdditionJams(rules, m) && UniqueKeys(DObj(r.value)) && Want(Some(Obj(m)), rules) == Ok(Some(Obj(DecodeMembers(r.value))))
    {
      var needed := MissingNeeded(potential, seen);
      var create := HasCreateRule(prog, rules);
      CreateOrKeep(rules);
      AdditionsAsked(rules, m, potential, seen);
      hide MembersDone, MemberWant, RulesOk, NoneFinished, ProgramOk, Creatable;
      if !needed || !create {
        forall k | k !in m.Keys ensures MemberWant(rules, k, None) == Ok(None) {
          NotAdded(rules, k);
        }
        AllMembersDone(rules, m, m.Keys, members);
        return Ok(members);
      }
      MissingMembersWanted(rules, m);
      var missing := MissingFor(rules);
      SynthesisIsWritten(rules);
      if missing.Fail? {
        return Fail;
      }
      r := AppendMembers(rules, potential, seen, members, missing.value, m);
    }

    /** The synthesised members are asked for exactly if some mutation adds one that the object lacks. */
    lemma AdditionsAsked(rules: seq<Rule>, m: map<string, Json>, potential: seq<string>, seen: set<string>)
      requires ProgramOk(prog) && Waiting(rules) && rules != [] && PotentialOk(rules, potential)
      requires forall k :: k in seen <==> k in m && k in potential
      ensures LiteralProgram(prog) ==>
        (Creatable(prog, m, RuleSets(rules, |prog|)) <==> potential == [] || exists k :: k in potential && k !in seen)
    {
      var at := RuleSets(rules, |prog|);
      if LiteralProgram(prog) {
        var r := rules[0];
        WaitingRule(prog, rules, r);
        hide RulesOk, NoneFinished, WellFormed, ProgramOk;
        assert Adds(prog, r, prog[r.idx].path[r.pos]);
        if Creatable(prog, m, at) {
          var i, p :| 0 <= i < |prog| && p in at[i] && CreatesAt(prog[i], p, m);
          assert Rule(i, p) in rules && Adds(prog, Rule(i, p), prog[i].path[p]);
        }
        if k :| k in potential && k !in seen {
          var f :| f in rules && Adds(prog, f, k);
          assert f.pos in at[f.idx] && CreatesAt(prog[f.idx], f.pos, m);
        }
      }
    }

    /** What creating rules make of an empty object is what is synthesised. */
    lemma SynthesisIsWritten(rules: seq<Rule>)
      requires LiteralProgram(prog) && Waiting(rules) && InProgram(prog, rules)
      ensures var r, want := Synthesised(ar, prog, rules, |rules|), Want(Some(Obj(map[])), rules);
        (Marshalled(ar, r).Fail? <==> r.Fail? || Unwritable(ar, want))
    {
      assert rules[..|rules|] == rules;
      SynthesisedIsMeaning(ar, prog, rules, |rules|);
    }

    lemma MissingIsPotential(rules: seq<Rule>, potential: seq<string>, missing: map<string, Json>)
      requires ProgramOk(prog) && Waiting(rules) && PotentialOk(rules, potential)
      requires forall k :: MemberWant(rules, k, None) == Ok(Get(missing, k))
      ensures forall k :: k in missing ==> k in potential
    {
      forall k | k !in potential ensures k !in missing {
        NotAdded(rules, k);
        assert Get(missing, k) == None;
      }
    }

    method AppendMembers(rules: seq<Rule>, potential: seq<string>, seen: set<string>, members: seq<Member>,
                         missing: map<string, Json>, ghost m: map<string, Json>)
        returns (r: Result<seq<Member>>)
      requires ProgramOk(prog) && Waiting(rules) && MembersDone(rules, m, m.Keys, members) && PotentialOk(rules, potential)
      requires forall k :: k in seen <==> k in m && k in potential
      requires forall k :: MemberWant(rules, k, None) == Ok(Get(missing, k))
      ensures r.Ok? && UniqueKeys(DObj(r.value)) && Want(Some(Obj(m)), rules) == Ok(Some(Obj(DecodeMembers(r.value))))
    {
      hide MembersDone, MemberWant, RulesOk, NoneFinished, ProgramOk, PotentialOk, DecodeMembers;
      MissingIsPotential(rules, potential, missing);
      var out, keys := members, missing.Keys;
      ghost var done := m.Keys;
      while keys != {}
        invariant keys <= missing.Keys && MembersDone(rules, m, done, out)
        invariant m.Keys <= done && missing.Keys - keys <= done && done <= m.Keys + (missing.Keys - keys)
        decreases keys
      {
        var k :| k in keys;
        keys := keys - {k};
        if k in potential && k in seen {
          continue;
        }
        var value := ToDoc(missing[k]);
        OneMoreMember(rules, m, done, out, k, Ok(Some(value)));
        out := out + [Member(k, value)];
        done := done + {k};
      }
      forall k | k !in done ensures MemberWant(rules, k, None) == Ok(None) {
        assert k !in missing;
      }
      AllMembersDone(rules, m, done, out);
      return Ok(out);
    }

    // ----- one node -----

    method MutateSource(d: Doc, rules: seq<Rule>) returns (out: Written)
      requires Valid() && Waiting(rules) && UniqueKeys(d)
      modifies this
      ensures Valid()
      ensures var at := RuleSets(rules, |prog|);
        Answers(out, Want(Some(Decode(d)), rules), SomePending(at) && SourceJams(ar, prog, Decode(d), at))
      decreases d, 1
    {
      if |rules| == 0 {
        NoRules(rules, |prog|);
        NothingAt(ar, prog, Some(Decode(d)), RuleSets(rules, |prog|), |prog|);
        return Ok(Some(d));
      }
      PendingIsSome(rules);
      SourceJamsAt(d, rules);
      match d
      case DObj(_) => out := MutateObject(d, rules);
      case DArr(_) =>
        var create := HasCreateRule(prog, rules);
        CreateOrKeep(rules);
        if create {
          out := EmitMissing(rules, Some(Decode(d)));
        } else {
          out := MutateArray(d, rules);
        }
      case _ => out := MutateScalar(d, rules);
    }

    lemma PendingIsSome(rules: seq<Rule>)
      requires forall r :: r in rules ==> r.idx < |prog|
      ensures SomePending(RuleSets(rules, |prog|)) <==> rules != []
    {
      if rules != [] {
        assert rules[0] in rules && rules[0].pos in RuleSets(rules, |prog|)[rules[0].idx];
      }
    }

    lemma SourceJamsAt(d: Doc, rules: seq<Rule>)
      requires ProgramOk(prog) && UniqueKeys(d)
      ensures var jams, want := SourceJams(ar, prog, Decode(d), RuleSets(rules, |prog|)), Want(Some(Decode(d)), rules);
        match d
        case DObj(members) =>
          var m := DecodeMembers(members);
          jams <==> (exists k :: k in m && MemberJams(rules, k, m[k])) || AdditionJams(rules, m)
        case DArr(items) =>
          jams <==> if LiteralProgram(prog) then Unwritable(ar, want) else exists i :: 0 <= i < |items| && ElementJams(rules, i, Decode(items[i]))
        case _ => jams <==> LiteralProgram(prog) && Unwritable(ar, want)
    {
      hide Jams, Unwritable, Meaning, Creatable;
      if d.DArr? && !LiteralProgram(prog) {
        var tree := Decode(d).items;
        assert |tree| == |d.items| && forall i :: 0 <= i < |tree| ==> tree[i] == Decode(d.items[i]);
        if i :| 0 <= i < |d.items| && ElementJams(rules, i, Decode(d.items[i])) {
          assert Jams(ar, prog, tree[i], AdvanceEach(prog, RuleSets(rules, |prog|), Index(i)));
        }
        if i :| 0 <= i < |tree| && Jams(ar, prog, tree[i], AdvanceEach(prog, RuleSets(rules, |prog|), Index(i))) {
          assert ElementJams(rules, i, Decode(d.items[i]));
        }
      } else if d.DObj? {
        var m := DecodeMembers(d.members);
        assert Decode(d) == Obj(m);
        if k :| k in m && MemberJams(rules, k, m[k]) {
          assert Jams(ar, prog, m[k], AdvanceEach(prog, RuleSets(rules, |prog|), Key(k)));
        }
        if k :| k in m && Jams(ar, prog, m[k], AdvanceEach(prog, RuleSets(rules, |prog|), Key(k))) {
          assert MemberJams(rules, k, m[k]);
        }
      }
    }

    /** What a state stands for: the value as read, a set payload, a computed number, or nothing. */
    ghost function StateNode(state: NodeState, d: Doc): Node {
      match state
      case Source => Some(Decode(d))
      case Payload(v) => Some(Decode(v))
      case Computed(f) => Some(Number(ar, f))
      case Gone => None
    }

    ghost predicate StateOk(state: NodeState) {
      match state
      case Source => true
      case Payload(v) => UniqueKeys(v) && !v.DObj? && !v.DArr?
      case Computed(f) => ar.parse(ar.format(f)) == Some(f)
      case Gone => WildcardProgram(prog)
    }

    ghost predicate OnlyRemovals(rules: seq<Rule>) {
      forall r :: r in rules ==> r.idx < |prog| && prog[r.idx].kind.Remove?
    }

    /** The pending rules need the text of a number that has none, in the state or in what they create there. */
    ghost predicate StateJams(state: NodeState, d: Doc, pending: seq<Rule>)
      requires ProgramOk(prog)
    {
      var at := RuleSets(pending, |prog|);
      SomePending(at) &&
      match state
      case Source => SourceJams(ar, prog, Decode(d), at)
      case Computed(f) => !ar.finite(f) || (LiteralProgram(prog) && Unwritable(ar, Want(StateNode(state, d), pending)))
      case _ => LiteralProgram(prog) && Unwritable(ar, Want(StateNode(state, d), pending))
    }

    /** Let the pending rules loose on the state. A number out of range has no text to be read again. */
    method ApplyPending(state: NodeState, d: Doc, pending: seq<Rule>) returns (out: Written)
      requires Valid() && StateOk(state) && Waiting(pending) && UniqueKeys(d) && (state.Gone? ==> OnlyRemovals(pending))
      modifies this
      ensures Valid() && Answers(out, Want(StateNode(state, d), pending), StateJams(state, d, pending))
      decreases d, 2
    {
      PendingIsSome(pending);
      if |pending| == 0 {
        NoRules(pending, |prog|);
        NothingAt(ar, prog, StateNode(state, d), RuleSets(pending, |prog|), |prog|);
        match state {
          case Source => return Ok(Some(d));
          case Payload(v) => return Ok(Some(v));
          case Computed(f) => return Ok(Some(DNum(ar.format(f))));
          case Gone => return Ok(None);
        }
      }
      match state
      case Source => out := MutateSource(d, pending);
      case Payload(v) => out := MutateScalar(v, pending);
      case Computed(f) =>
        if !ar.finite(f) {
          return Fail;
        }
        out := MutateScalar(DNum(ar.format(f)), pending);
      case Gone =>
        GoneMeansMissing(pending);
        MissingStaysMissing(ar, prog, RuleSets(pending, |prog|), |prog|);
        out := EmitMissing(pending, None);
    }

    lemma GoneMeansMissing(pending: seq<Rule>)
      requires ProgramOk(prog) && WildcardProgram(prog) && Waiting(pending) && pending != [] && OnlyRemovals(pending)
      ensures Synthesisable(pending) && !LiteralProgram(prog)
    {
      assert pending[0] in pending && prog[pending[0].idx] in prog;
    }

    // ----- the rules of one node, mutation by mutation -----

    /** The mutation has its target here: it ends what was pending, or counts up what came of it. */
    method SettleDirect(d: Doc, state: NodeState, pending: seq<Rule>, idx: nat) returns (r: Result<NodeState>)
      requires Valid() && StateOk(state) && Waiting(pending) && UniqueKeys(d) && (state.Gone? ==> OnlyRemovals(pending))
      requires idx < |prog| && WellFormed(prog[idx]) && (prog[idx].kind.Remove? ==> WildcardProgram(prog))
      requires Want(StateNode(state, d), pending) == Ok(None) ==> prog[idx].kind.Remove?
      modifies this
      ensures Valid()
      ensures var y := Want(StateNode(state, d), pending);
        if r.Fail? then y.Fail? || Here(ar, prog[idx].kind, y.value).Fail? || StateJams(state, d, pending)
        else y.Ok? && StateOk(r.value) && Here(ar, prog[idx].kind, y.value) == Ok(StateNode(r.value, d))
      ensures r.Ok? ==> !StateJams(state, d, pending)
      ensures r.Ok? ==> !r.value.Source? && (r.value.Gone? ==> prog[idx].kind.Remove?) && (r.value.Computed? <==> prog[idx].kind.Increment?)
      decreases d, 3
    {
      hide Meaning, RulesOk, NoneFinished, ProgramOk, WildcardProgram;
      if |pending| == 0 && state.Computed? && prog[idx].kind.Increment? {
        NoRules(pending, |prog|);
        NothingAt(ar, prog, StateNode(state, d), RuleSets(pending, |prog|), |prog|);
        return Ok(Computed(ar.normalize(ar.add(state.number, prog[idx].kind.delta))));
      }
      var settled := ApplyPending(state, d, pending);
      if settled.Fail? {
        return Fail;
      }
      match prog[idx].kind
      case SetTo(x) =>
        var payload := ToDoc(x);
        r := Ok(Payload(payload));
      case Remove =>
        r := Ok(Gone);
      case Increment(delta) =>
        var value := settled.value.value;
        if !value.DNum? || ar.parse(value.literal).None? {
          return Fail;
        }
        r := Ok(Computed(ar.normalize(ar.add(ar.parse(value.literal).value, delta))));
    }

    /** The run of rules of one mutation: whether it has its target here, and what waits for nodes below. */
    method TakeGroup(rules: seq<Rule>, start: nat, idx: nat) returns (end: nat, hasDirect: bool, waiting: seq<Rule>)
      requires ProgramOk(prog) && RulesOk(prog, rules) && start < |rules| && rules[start].idx == idx < |prog|
      requires forall r :: r in rules[..start] ==> r.idx < idx
      ensures start < end <= |rules|
      ensures (forall r :: r in rules[..end] ==> r.idx <= idx) && (forall r :: r in rules[end..] ==> r.idx > idx)
      ensures hasDirect <==> Finished(prog[idx], RuleSets(rules, |prog|)[idx])
      ensures forall r :: r in waiting <==> r in rules && r.idx == idx && r.pos < |prog[idx].tokens|
    {
      hide RulesOk, ProgramOk, Finished;
      end, hasDirect, waiting := start, false, [];
      while end < |rules| && rules[end].idx == idx
        invariant start <= end <= |rules| && (end == start ==> rules[start].idx == idx)
        invariant forall r :: r in rules[start..end] ==> r.idx == idx
        invariant hasDirect <==> exists r :: r in rules[start..end] && r.pos >= |prog[idx].tokens|
        invariant forall r :: r in waiting <==> r in rules[start..end] && r.pos < |prog[idx].tokens|
      {
        assert rules[start..end + 1] == rules[start..end] + [rules[end]];
        if rules[end].pos >= |prog[idx].tokens| {
          hasDirect := true;
        } else {
          waiting := waiting + [rules[end]];
        }
        end := end + 1;
      }
      GroupIs(rules, start, end, idx);
    }

    lemma GroupIs(rules: seq<Rule>, start: nat, end: nat, idx: nat)
      requires ProgramOk(prog) && RulesOk(prog, rules) && start < end <= |rules| && idx < |prog|
      requires (forall r :: r in rules[..start] ==> r.idx < idx) && (forall r :: r in rules[start..end] ==> r.idx == idx)
      requires end < |rules| ==> rules[end].idx != idx
      ensures (forall r :: r in rules[..end] ==> r.idx <= idx) && (forall r :: r in rules[end..] ==> r.idx > idx)
      ensures forall r :: r in rules && r.idx == idx <==> r in rules[start..end]
      ensures (exists r :: r in rules[start..end] && r.pos >= |prog[idx].tokens|) <==> Finished(prog[idx], RuleSets(rules, |prog|)[idx])
    {
      assert rules == rules[..start] + rules[start..end] + rules[end..];
      assert rules[..end] == rules[..start] + rules[start..end];
      assert rules[start] in rules[start..end];
      forall i | end <= i < |rules| ensures rules[i].idx > idx {
        assert rules[end - 1] in rules[start..end];
      }
      MemberOk(prog, RuleSets(rules, |prog|), idx);
      forall r | r in rules[start..end] ensures r.pos <= |prog[idx].tokens| {
        assert r.pos in RuleSets(rules, |prog|)[idx];
      }
      if Finished(prog[idx], RuleSets(rules, |prog|)[idx]) {
        assert Rule(idx, |prog[idx].tokens|) in rules;
      }
    }

    /** The first idx mutations of the node are settled in the state and what is pending. */
    ghost predicate Settled(d: Doc, rules: seq<Rule>, idx: nat, rulePos: nat, state: NodeState, pending: seq<Rule>)
      requires ProgramOk(prog)
    {
      && idx <= |prog| && rulePos <= |rules|
      && (forall r :: r in rules[..rulePos] ==> r.idx < idx) && (forall r :: r in rules[rulePos..] ==> r.idx >= idx)
      && Waiting(pending) && (forall r :: r in pending ==> r.idx < idx)
      && StateOk(state) && (state.Gone? ==> OnlyRemovals(pending) && RemovalsFrom(idx))
      && Meaning(ar, prog, Some(Decode(d)), RuleSets(rules, |prog|), idx) == Meaning(ar, prog, StateNode(state, d), RuleSets(pending, |prog|), idx)
    }

    /**
     Mutation base - 1 has the last target before idx, and left the state; what waits since then is pending.
     Without one the state is the value as read.
     */
    ghost predicate Traced(d: Doc, rules: seq<Rule>, idx: nat, state: NodeState, pending: seq<Rule>, base: nat)
      requires ProgramOk(prog)
    {
      var at := RuleSets(rules, |prog|);
      && base <= idx <= |prog| && RuleSets(pending, |prog|) == PendingAt(prog, at, base, idx)
      && (state.Source? <==> base == 0) && (forall i :: base <= i < idx ==> !Finished(prog[i], at[i]))
      && (base > 0 ==>
          Finished(prog[base - 1], at[base - 1]) && (state.Computed? <==> prog[base - 1].kind.Increment?) &&
          Meaning(ar, prog, Some(Decode(d)), at, base) == Ok(StateNode(state, d)))
    }

    /** No stretch that ended before base stopped the pass. */
    ghost predicate Quiet(d: Doc, rules: seq<Rule>, base: nat)
      requires ProgramOk(prog)
    {
      var at := RuleSets(rules, |prog|);
      forall b: nat, k: nat :: Stretch(prog, at, b, k) && k < base ==> !StretchJams(ar, prog, Decode(d), at, b, k)
    }

    lemma SkippedIsEmpty(d: Doc, rules: seq<Rule>, idx: nat, rulePos: nat, state: NodeState, pending: seq<Rule>)
      requires ProgramOk(prog) && RulesOk(prog, rules) && Settled(d, rules, idx, rulePos, state, pending)
      requires idx < |prog| && rulePos < |rules| && rules[rulePos].idx > idx
      ensures RuleSets(rules, |prog|)[idx] == {}
    {
      hide Meaning, Waiting, StateOk;
      assert rules == rules[..rulePos] + rules[rulePos..];
      forall r | r in rules[rulePos..] ensures r.idx > idx {
      }
      NoRulesAt(rules, idx);
    }

    lemma PendingSkips(at: Positions, base: nat, idx: nat)
      requires |at| == |prog| && idx < |prog| && base <= idx && at[idx] == {}
      ensures PendingAt(prog, at, base, idx + 1) == PendingAt(prog, at, base, idx)
    {
    }

    lemma TracedSkip(d: Doc, rules: seq<Rule>, idx: nat, rulePos: nat, state: NodeState, pending: seq<Rule>, base: nat)
      requires ProgramOk(prog) && RulesOk(prog, rules) && Traced(d, rules, idx, state, pending, base)
      requires Settled(d, rules, idx, rulePos, state, pending)
      requires idx < |prog| && rulePos < |rules| && rules[rulePos].idx > idx
      ensures Traced(d, rules, idx + 1, state, pending, base)
    {
      SkippedIsEmpty(d, rules, idx, rulePos, state, pending);
      hide Meaning, Settled, RulesOk, ProgramOk, RuleSets, StateNode, PendingAt;
      PendingSkips(RuleSets(rules, |prog|), base, idx);
    }

    lemma TracedWaiting(d: Doc, rules: seq<Rule>, idx: nat, rulePos: nat, state: NodeState, pending: seq<Rule>,
                        waiting: seq<Rule>, base: nat)
      requires ProgramOk(prog) && RulesOk(prog, rules) && Traced(d, rules, idx, state, pending, base)
      requires Settled(d, rules, idx, rulePos, state, pending)
      requires idx < |prog| && !Finished(prog[idx], RuleSets(rules, |prog|)[idx])
      requires forall r :: r in waiting <==> r in rules && r.idx == idx && r.pos < |prog[idx].tokens|
      ensures Traced(d, rules, idx + 1, state, pending + waiting, base)
    {
      hide Meaning;
      var at := RuleSets(rules, |prog|);
      WaitingSets(rules, idx, pending, waiting);
      var bt, ct, want := RuleSets(pending, |prog|), RuleSets(pending + waiting, |prog|), PendingAt(prog, at, base, idx + 1);
      forall i | 0 <= i < |prog| ensures ct[i] == want[i] {
        assert bt[i] == PendingAt(prog, at, base, idx)[i];
      }
      assert ct == want;
    }

    lemma TracedDirect(d: Doc, rules: seq<Rule>, idx: nat, end: nat, next: NodeState, waiting: seq<Rule>)
      requires ProgramOk(prog) && RulesOk(prog, rules) && Settled(d, rules, idx + 1, end, next, waiting)
      requires idx < |prog| && !next.Source? && Finished(prog[idx], RuleSets(rules, |prog|)[idx])
      requires next.Computed? <==> prog[idx].kind.Increment?
      requires forall r :: r in waiting <==> r in rules && r.idx == idx && r.pos < |prog[idx].tokens|
      ensures Traced(d, rules, idx + 1, next, waiting, idx + 1)
    {
      hide Meaning;
      var at := RuleSets(rules, |prog|);
      OnlyWaiting(rules, idx, waiting);
      RestIsIdle(next, d, waiting, idx);
      NoRules([], |prog|);
      assert [] + waiting == waiting;
      WaitingSets(rules, idx, [], waiting);
      assert RuleSets(waiting, |prog|) == PendingAt(prog, at, idx + 1, idx + 1);
    }

    /** The state stops the pass exactly if the stretch it stands for does. */
    lemma StateIsStretch(d: Doc, rules: seq<Rule>, idx: nat, k: nat, state: NodeState, pending: seq<Rule>, base: nat)
      requires ProgramOk(prog) && StateOk(state) && Traced(d, rules, idx, state, pending, base) && idx <= k <= |prog|
      requires PendingAt(prog, RuleSets(rules, |prog|), base, k) == RuleSets(pending, |prog|)
      ensures StateJams(state, d, pending) <==> StretchJams(ar, prog, Decode(d), RuleSets(rules, |prog|), base, k)
    {
      hide Meaning, SourceJams, SomePending;
      if state.Computed? {
        assert AllFinite(ar, Number(ar, state.number)) <==> ar.finite(state.number);
      }
    }

    /** Between two targets lies one stretch. */
    lemma OneStretch(at: Positions, base: nat, idx: nat, b: nat, k: nat)
      requires |at| == |prog| && base <= idx <= |prog| && (base > 0 ==> Finished(prog[base - 1], at[base - 1]))
      requires forall i :: base <= i < idx ==> !Finished(prog[i], at[i])
      requires Stretch(prog, at, b, k) && base <= k <= |prog| && (k <= idx || (k == |prog| && forall i :: idx <= i < |prog| ==> at[i] == {}))
      ensures b == base
    {
      if b < base || b > base {
        assert false;
      }
    }

    /** A target that was settled ends a stretch that did not stop the pass. */
    lemma QuietDirect(d: Doc, rules: seq<Rule>, idx: nat, state: NodeState, pending: seq<Rule>, base: nat)
      requires ProgramOk(prog) && StateOk(state) && Traced(d, rules, idx, state, pending, base) && Quiet(d, rules, base)
      requires idx < |prog| && !StateJams(state, d, pending)
      ensures Quiet(d, rules, idx + 1)
    {
      hide StateJams, StretchJams, Meaning;
      var at := RuleSets(rules, |prog|);
      StateIsStretch(d, rules, idx, idx, state, pending, base);
      forall b: nat, k: nat | Stretch(prog, at, b, k) && k < idx + 1 ensures !StretchJams(ar, prog, Decode(d), at, b, k) {
        if k >= base {
          assert k == idx;
          OneStretch(at, base, idx, b, k);
        }
      }
    }

    lemma DirectJams(d: Doc, rules: seq<Rule>, idx: nat, state: NodeState, pending: seq<Rule>, base: nat)
      requires ProgramOk(prog) && StateOk(state) && Traced(d, rules, idx, state, pending, base) && StateJams(state, d, pending)
      requires idx < |prog| && Finished(prog[idx], RuleSets(rules, |prog|)[idx])
      ensures Jams(ar, prog, Decode(d), RuleSets(rules, |prog|))
    {
      hide StateJams, StretchJams, Meaning;
      StateIsStretch(d, rules, idx, idx, state, pending, base);
      assert Stretch(prog, RuleSets(rules, |prog|), base, idx);
    }

    /** With no rules left, the pass stops exactly if the state stops it. */
    lemma JamsAtEnd(d: Doc, rules: seq<Rule>, idx: nat, rulePos: nat, state: NodeState, pending: seq<Rule>, base: nat)
      requires ProgramOk(prog) && RulesOk(prog, rules) && StateOk(state) && Traced(d, rules, idx, state, pending, base) && Quiet(d, rules, base)
      requires Settled(d, rules, idx, rulePos, state, pending) && (idx == |prog| || rulePos == |rules|)
      ensures Jams(ar, prog, Decode(d), RuleSets(rules, |prog|)) <==> StateJams(state, d, pending)
    {
      hide StateJams, StretchJams, Meaning;
      var at := RuleSets(rules, |prog|);
      forall i | idx <= i < |prog| ensures at[i] == {} {
        assert rules[..rulePos] == rules;
        NoRulesAt(rules, i);
      }
      assert PendingAt(prog, at, base, |prog|) == PendingAt(prog, at, base, idx);
      StateIsStretch(d, rules, idx, |prog|, state, pending, base);
      assert Stretch(prog, at, base, |prog|);
      forall b: nat, k: nat | Stretch(prog, at, b, k) && k >= base
        ensures StretchJams(ar, prog, Decode(d), at, b, k) <==> StateJams(state, d, pending)
      {
        assert k == |prog|;
        OneStretch(at, base, idx, b, k);
      }
    }

    ghost predicate RemovalsFrom(idx: nat) {
      forall j :: idx <= j < |prog| ==> prog[j].kind.Remove?
    }

    lemma NoRulesAt(rules: seq<Rule>, i: nat)
      requires i < |prog| && forall r :: r in rules ==> r.idx != i
      ensures RuleSets(rules, |prog|)[i] == {}
    {
    }

    /** Pending rules come from mutations already settled, so their meaning is complete. */
    lemma PendingIsComplete(d: Doc, rules: seq<Rule>, idx: nat, rulePos: nat, state: NodeState, pending: seq<Rule>)
      requires ProgramOk(prog) && Settled(d, rules, idx, rulePos, state, pending)
      ensures Want(StateNode(state, d), pending) == Meaning(ar, prog, Some(Decode(d)), RuleSets(rules, |prog|), idx)
    {
      forall i | idx <= i < |prog| ensures RuleSets(pending, |prog|)[i] == {} {
        NoRulesAt(pending, i);
      }
      MeaningBeyond(ar, prog, StateNode(state, d), RuleSets(pending, |prog|), idx, |prog|);
    }

    /** With no rules left the node is settled completely. */
    lemma SettledForGood(d: Doc, rules: seq<Rule>, idx: nat, rulePos: nat, state: NodeState, pending: seq<Rule>)
      requires ProgramOk(prog) && Settled(d, rules, idx, rulePos, state, pending) && (idx == |prog| || rulePos == |rules|)
      ensures Want(StateNode(state, d), pending) == Want(Some(Decode(d)), rules)
    {
      PendingIsComplete(d, rules, idx, rulePos, state, pending);
      forall i | idx <= i < |prog| ensures RuleSets(rules, |prog|)[i] == {} {
        assert rules[..rulePos] == rules;
        NoRulesAt(rules, i);
      }
      MeaningBeyond(ar, prog, Some(Decode(d)), RuleSets(rules, |prog|), idx, |prog|);
    }

    /** A mutation without rules here changes nothing here. */
    lemma SettledSkip(d: Doc, rules: seq<Rule>, idx: nat, rulePos: nat, state: NodeState, pending: seq<Rule>)
      requires ProgramOk(prog) && RulesOk(prog, rules) && Settled(d, rules, idx, rulePos, state, pending)
      requires idx < |prog| && rulePos < |rules| && rules[rulePos].idx > idx
      ensures Settled(d, rules, idx + 1, rulePos, state, pending)
    {
      forall r | r in rules[rulePos..] ensures r.idx > idx {
      }
      assert rules == rules[..rulePos] + rules[rulePos..];
      NoRulesAt(rules, idx);
      NoRulesAt(pending, idx);
      MeaningStep(ar, prog, Some(Decode(d)), RuleSets(rules, |prog|), idx);
      MeaningStep(ar, prog, StateNode(state, d), RuleSets(pending, |prog|), idx);
    }

    /** Only waiting rules: they join the pending ones. */
    lemma SettledWaiting(d: Doc, rules: seq<Rule>, idx: nat, rulePos: nat, end: nat, state: NodeState, pending: seq<Rule>, waiting: seq<Rule>)
      requires ProgramOk(prog) && RulesOk(prog, rules) && Settled(d, rules, idx, rulePos, state, pending)
      requires idx < |prog| && end <= |rules| && !Finished(prog[idx], RuleSets(rules, |prog|)[idx])
      requires (forall r :: r in rules[..end] ==> r.idx <= idx) && (forall r :: r in rules[end..] ==> r.idx > idx)
      requires forall r :: r in waiting <==> r in rules && r.idx == idx && r.pos < |prog[idx].tokens|
      ensures Settled(d, rules, idx + 1, end, state, pending + waiting)
    {
      var at, bt, ct := RuleSets(rules, |prog|), RuleSets(pending, |prog|), RuleSets(pending + waiting, |prog|);
      WaitingSets(rules, idx, pending, waiting);
      assert ct[idx] == at[idx];
      MeaningLocal(ar, prog, StateNode(state, d), bt, ct, idx);
      MeaningStep(ar, prog, Some(Decode(d)), at, idx);
      MeaningStep(ar, prog, StateNode(state, d), ct, idx);
    }

    lemma WaitingSets(rules: seq<Rule>, idx: nat, pending: seq<Rule>, waiting: seq<Rule>)
      requires ProgramOk(prog) && RulesOk(prog, rules) && Waiting(pending) && idx < |prog| && forall r :: r in pending ==> r.idx < idx
      requires forall r :: r in waiting <==> r in rules && r.idx == idx && r.pos < |prog[idx].tokens|
      ensures Waiting(pending + waiting)
      ensures var at, bt, ct := RuleSets(rules, |prog|), RuleSets(pending, |prog|), RuleSets(pending + waiting, |prog|);
        && (forall i :: 0 <= i < |prog| && i != idx ==> ct[i] == bt[i])
        && ct[idx] == at[idx] - {|prog[idx].tokens|}
    {
      var at, bt, ct := RuleSets(rules, |prog|), RuleSets(pending, |prog|), RuleSets(pending + waiting, |prog|);
      forall i | 0 <= i < |prog| ensures ct[i] == if i == idx then at[idx] - {|prog[idx].tokens|} else bt[i] {
        MemberOk(prog, at, i);
      }
      assert PositionsOk(prog[idx], ct[idx]);
    }

    /** A target: the new state stands for the node, and only rules of the same mutation wait. */
    lemma SettledDirect(d: Doc, rules: seq<Rule>, idx: nat, rulePos: nat, end: nat, state: NodeState, pending: seq<Rule>,
                        next: NodeState, waiting: seq<Rule>)
      requires ProgramOk(prog) && RulesOk(prog, rules) && Settled(d, rules, idx, rulePos, state, pending)
      requires idx < |prog| && end <= |rules| && Finished(prog[idx], RuleSets(rules, |prog|)[idx])
      requires (forall r :: r in rules[..end] ==> r.idx <= idx) && (forall r :: r in rules[end..] ==> r.idx > idx)
      requires forall r :: r in waiting <==> r in rules && r.idx == idx && r.pos < |prog[idx].tokens|
      requires StateOk(next) && !next.Source? && (next.Gone? ==> prog[idx].kind.Remove?)
      requires var y := Want(StateNode(state, d), pending); y.Ok? && Here(ar, prog[idx].kind, y.value) == Ok(StateNode(next, d))
      requires Want(StateNode(state, d), pending) == Ok(None) ==> prog[idx].kind.Remove?
      ensures Settled(d, rules, idx + 1, end, next, waiting)
    {
      hide Meaning, Step, RulesOk, NoneFinished, ProgramOk, WellFormed, Here;
      PendingIsComplete(d, rules, idx, rulePos, state, pending);
      OnlyWaiting(rules, idx, waiting);
      MemberOk(prog, RuleSets(rules, |prog|), idx);
      MeaningStep(ar, prog, Some(Decode(d)), RuleSets(rules, |prog|), idx);
      TargetStep(prog[idx], Meaning(ar, prog, Some(Decode(d)), RuleSets(rules, |prog|), idx).value, RuleSets(rules, |prog|)[idx]);
      RestIsIdle(next, d, waiting, idx);
      if next.Gone? {
        OrderOfRemovals(idx);
      }
    }

    lemma OnlyWaiting(rules: seq<Rule>, idx: nat, waiting: seq<Rule>)
      requires ProgramOk(prog) && RulesOk(prog, rules) && idx < |prog| && Finished(prog[idx], RuleSets(rules, |prog|)[idx])
      requires forall r :: r in waiting <==> r in rules && r.idx == idx && r.pos < |prog[idx].tokens|
      ensures Waiting(waiting) && AllPositionsOk(prog, RuleSets(rules, |prog|))
      ensures LiteralProgram(prog) ==> waiting == []
    {
      NoRules([], |prog|);
      assert [] + waiting == waiting;
      WaitingSets(rules, idx, [], waiting);
      MemberOk(prog, RuleSets(rules, |prog|), idx);
      forall r | r in waiting ensures prog[idx].wildcard {
        assert r.pos in RuleSets(rules, |prog|)[idx];
      }
      assert prog[idx] in prog && (waiting != [] ==> waiting[0] in waiting);
    }

    lemma OrderOfRemovals(idx: nat)
      requires WildcardProgram(prog) && idx < |prog| && prog[idx].kind.Remove?
      ensures RemovalsFrom(idx)
    {
    }

    lemma TargetStep(c: Compiled, y: Node, positions: set<nat>)
      requires WellFormed(c) && (c.kind.Remove? ==> c.wildcard) && PositionsOk(c, positions) && Finished(c, positions)
      requires y.None? ==> c.kind.Remove?
      ensures Step(ar, c, y, positions) == Here(ar, c.kind, y)
    {
      if !c.wildcard {
        LiteralStep(ar, c, y, positions, |c.tokens|);
        assert c.path[|c.path|..] == [];
      }
    }

    /** What waits with a target of its own mutation finds nothing below the new state. */
    lemma RestIsIdle(next: NodeState, d: Doc, waiting: seq<Rule>, idx: nat)
      requires ProgramOk(prog) && StateOk(next) && !next.Source? && Waiting(waiting) && idx < |prog|
      requires LiteralProgram(prog) ==> waiting == []
      ensures Meaning(ar, prog, StateNode(next, d), RuleSets(waiting, |prog|), idx + 1) == Ok(StateNode(next, d))
    {
      var at := RuleSets(waiting, |prog|);
      if LiteralProgram(prog) {
        NoRules(waiting, |prog|);
        NothingAt(ar, prog, StateNode(next, d), at, idx + 1);
      } else if next.Gone? {
        MissingStaysMissing(ar, prog, at, idx + 1);
      } else {
        ScalarIsLeft(ar, prog, StateNode(next, d).value, at, idx + 1);
      }
    }

    /** One node: settle its rules mutation by mutation, then let what is pending loose on the outcome. */
    method MutateValue(d: Doc, rules: seq<Rule>) returns (out: Written)
      requires Valid() && RulesOk(prog, rules) && UniqueKeys(d)
      modifies this
      ensures Valid()
      ensures Answers(out, Want(Some(Decode(d)), rules), Jams(ar, prog, Decode(d), RuleSets(rules, |prog|)))
      decreases d, 4
    {
      hide Meaning, RulesOk, NoneFinished, ProgramOk, WildcardProgram, Settled, Traced, Jams, StateJams, Quiet, Stretch, StretchJams;
      var state, pending, rulePos, idx := Source, [], 0, 0;
      ghost var base := 0;
      SettledAtStart(d, rules);
      while idx < |prog| && rulePos < |rules|
        invariant idx <= |prog| && rulePos <= |rules| && Valid() && Settled(d, rules, idx, rulePos, state, pending)
        invariant Traced(d, rules, idx, state, pending, base) && Quiet(d, rules, base)
        decreases |prog| - idx
      {
        SettledFacts(d, rules, idx, rulePos, state, pending);
        if rules[rulePos].idx > idx {
          SettledSkip(d, rules, idx, rulePos, state, pending);
          TracedSkip(d, rules, idx, rulePos, state, pending, base);
          idx := idx + 1;
          continue;
        }
        var end, hasDirect, waiting := TakeGroup(rules, rulePos, idx);
        if hasDirect {
          var next := SettleDirect(d, state, pending, idx);
          if next.Fail? {
            if StateJams(state, d, pending) {
              DirectJams(d, rules, idx, state, pending, base);
            } else {
              DirectFails(d, rules, idx, rulePos, state, pending);
            }
            return Fail;
          }
          SettledDirect(d, rules, idx, rulePos, end, state, pending, next.value, waiting);
          QuietDirect(d, rules, idx, state, pending, base);
          TracedDirect(d, rules, idx, end, next.value, waiting);
          base := idx + 1;
          state, pending := next.value, waiting;
        } else {
          SettledWaiting(d, rules, idx, rulePos, end, state, pending, waiting);
          TracedWaiting(d, rules, idx, rulePos, state, pending, waiting, base);
          pending := pending + waiting;
        }
        rulePos, idx := end, idx + 1;
      }
      SettledForGood(d, rules, idx, rulePos, state, pending);
      SettledOutcome(d, rules, idx, rulePos, state, pending);
      JamsAtEnd(d, rules, idx, rulePos, state, pending, base);
      out := ApplyPending(state, d, pending);
    }

    lemma SettledAtStart(d: Doc, rules: seq<Rule>)
      requires ProgramOk(prog) && RulesOk(prog, rules)
      ensures Settled(d, rules, 0, 0, Source, []) && Traced(d, rules, 0, Source, [], 0) && Quiet(d, rules, 0)
    {
      NoRules([], |prog|);
      assert rules[0..] == rules;
    }

    /** What the next group of rules may count on. */
    lemma SettledFacts(d: Doc, rules: seq<Rule>, idx: nat, rulePos: nat, state: NodeState, pending: seq<Rule>)
      requires ProgramOk(prog) && Settled(d, rules, idx, rulePos, state, pending) && idx < |prog| && rulePos < |rules|
      ensures rules[rulePos].idx >= idx && forall r :: r in rules[..rulePos] ==> r.idx < idx
      ensures StateOk(state) && Waiting(pending) && (state.Gone? ==> OnlyRemovals(pending))
      ensures WellFormed(prog[idx]) && (prog[idx].kind.Remove? ==> WildcardProgram(prog))
      ensures Want(StateNode(state, d), pending) == Ok(None) ==> prog[idx].kind.Remove?
    {
      assert rules[rulePos] in rules[rulePos..] && prog[idx] in prog;
      PendingIsComplete(d, rules, idx, rulePos, state, pending);
      if Want(StateNode(state, d), pending) == Ok(None) {
        RemoveComesLast(ar, prog, Decode(d), RuleSets(rules, |prog|), idx);
      }
    }

    lemma SettledOutcome(d: Doc, rules: seq<Rule>, idx: nat, rulePos: nat, state: NodeState, pending: seq<Rule>)
      requires ProgramOk(prog) && Settled(d, rules, idx, rulePos, state, pending)
      ensures StateOk(state) && Waiting(pending) && (state.Gone? ==> OnlyRemovals(pending))
    {
    }

    /** A target that fails fails the node. */
    lemma DirectFails(d: Doc, rules: seq<Rule>, idx: nat, rulePos: nat, state: NodeState, pending: seq<Rule>)
      requires ProgramOk(prog) && RulesOk(prog, rules) && Settled(d, rules, idx, rulePos, state, pending) && idx < |prog|
      requires Finished(prog[idx], RuleSets(rules, |prog|)[idx])
      requires var y := Want(StateNode(state, d), pending); y.Fail? || Here(ar, prog[idx].kind, y.value).Fail?
      requires Want(StateNode(state, d), pending) == Ok(None) ==> prog[idx].kind.Remove?
      ensures Want(Some(Decode(d)), rules).Fail?
    {
      var at := RuleSets(rules, |prog|);
      PendingIsComplete(d, rules, idx, rulePos, state, pending);
      MeaningStep(ar, prog, Some(Decode(d)), at, idx);
      var before := Meaning(ar, prog, Some(Decode(d)), at, idx);
      if before.Ok? {
        MemberOk(prog, at, idx);
        TargetStep(prog[idx], before.value, at[idx]);
      }
      FailureRemains(ar, prog, Some(Decode(d)), at, idx + 1, |prog|);
    }

    // ----- one candidate -----

    /**
     One candidate through all mutations in one pass: the same tree as mutating the document by one
     mutation after another. It fails exactly if that fails or the pass needs the text of a number out
     of range; then, if that does not fail, some sum of it, or one counted up from nothing, has left
     the range. Only objects are mutated. For increments with several descents Sequential counts a
     node once, where the in-place walk counts it once for every way to reach it.
     */
    method MutateCandidate(d: Doc) returns (out: Result<Doc>)
      requires Valid() && UniqueKeys(d)
      modifies this
      ensures Valid() && (out.Ok? ==> UniqueKeys(out.value))
      ensures !d.DObj? ==> out == Ok(d)
      ensures d.DObj? ==>
        var r := Sequential(ar, prog, Decode(d).members, |prog|);
        && (out.Fail? <==> r.Fail? || RunJams(ar, prog, Decode(d).members))
        && (out.Fail? && r.Ok? ==> RunOverflows(ar, prog, Decode(d).members))
        && (out.Ok? ==> Decode(out.value) == Obj(r.value))
    {
      if !d.DObj? || |prog| == 0 {
        if d.DObj? {
          EmptyProgramRuns(Decode(d).members);
        }
        return Ok(d);
      }
      var rules := seq(|prog|, i requires 0 <= i < |prog| => Rule(i, 0));
      StartRules(rules);
      MeaningIsSequential(ar, prog, Decode(d).members, |prog|);
      var v := MutateValue(d, rules);
      if v.Fail? {
        if RunJams(ar, prog, Decode(d).members) {
          RunJamsOverflow(ar, prog, Decode(d).members);
        }
        return Fail;
      }
      out := Ok(v.value.value);
    }

    lemma EmptyProgramRuns(root: map<string, Json>)
      requires |prog| == 0
      ensures !RunJams(ar, prog, root)
    {
      forall b: nat, k: nat | Stretch(prog, Starts(prog), b, k)
        ensures !StretchJams(ar, prog, Obj(root), Starts(prog), b, k)
      {
        assert !SomePending(PendingAt(prog, Starts(prog), b, k));
      }
      assert !Jams(ar, prog, Obj(root), Starts(prog));
    }

    lemma StartRules(rules: seq<Rule>)
      requires ProgramOk(prog) && |rules| == |prog| && forall i :: 0 <= i < |prog| ==> rules[i] == Rule(i, 0)
      ensures RulesOk(prog, rules) && RuleSets(rules, |prog|) == Starts(prog)
    {
      forall i | 0 <= i < |prog| ensures RuleSets(rules, |prog|)[i] == {0} {
        assert rules[i] in rules;
      }
    }
  }
}
