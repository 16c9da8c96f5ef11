/** The tree evaluator's path walk: all values a selector field reaches. */
module TreeEval {
  import opened Json
  import opened Patterns

  function Children(j: Json): set<Json> {
    match j
    case Obj(m) => ValuesOf(m, m.Keys)
    case Arr(items) => set i | 0 <= i < |items| :: items[i]
    case _ => {}
  }

  function ValuesOf(m: map<string, Json>, keys: set<string>): set<Json>
    requires keys <= m.Keys
  {
    set k | k in keys :: m[k]
  }

  /** A node and everything below it. */
  function Subtree(j: Json): set<Json> {
    match j
    case Obj(m) => {j} + (set k, d | k in m && d in Subtree(m[k]) :: d)
    case Arr(items) => {j} + (set c, d | c in items && d in Subtree(c) :: d)
    case _ => {j}
  }

  /** What one field segment reaches from one node; the descent yields nothing from a null. */
  function Step(j: Json, segment: string): set<Json> {
    if segment == "*" then (if j.Obj? then Children(j) else {})
    else if segment == "[]" then (if j.Arr? then Children(j) else {})
    else if segment == "**" then Children(j)
    else if segment == "..." then (if j.Null? then {} else Subtree(j))
    else match j
      case Obj(m) => if segment in m then {m[segment]} else {}
      case Arr(items) =>
        (match Atoi(segment)
         case Some(i) => if 0 <= i < |items| then {items[i]} else {}
         case None => {})
      case _ => {}
  }

  /** In an array a segment reaches the element whose index it writes. */
  lemma StepByIndex(items: seq<Json>, segment: string, v: Json)
    requires CompileToken(segment).Literal?
    ensures v in Step(Arr(items), segment) <==> exists i: nat :: i < |items| && i <= MAX_INT && Writes(segment, i) && v == items[i]
  {
    hide Atoi, Writes;
    forall i ensures Atoi(segment) == Some(i) <==> Writes(segment, i) && -MAX_INT - 1 <= i <= MAX_INT {
      AtoiReadsDecimals(segment, i);
    }
  }

  function StepAll(nodes: set<Json>, segment: string): set<Json> {
    set n, v | n in nodes && v in Step(n, segment) :: v
  }

  /** Breadth by breadth, one segment at a time. */
  function ValuesAt(nodes: set<Json>, segments: seq<string>): set<Json>
    decreases segments
  {
    if segments == [] then nodes else ValuesAt(StepAll(nodes, segments[0]), segments[1..])
  }

  function SetOf(nodes: seq<Json>): set<Json> {
    set n | n in nodes
  }

  // ----- the walk as the source runs it -----

  method ValuesAtPath(root: Json, segments: seq<string>) returns (values: seq<Json>, ok: bool)
    ensures ok <==> segments != [] && ValuesAt({root}, segments) != {}
    ensures ok ==> SetOf(values) == ValuesAt({root}, segments)
    ensures !ok ==> values == []
  {
    if |segments| == 0 {
      return [], false;
    }
    var nodes := [root];
    assert SetOf(nodes) == {root};
    var s := 0;
    assert segments[0..] == segments;
    while s < |segments|
      invariant 0 <= s <= |segments|
      invariant ValuesAt(SetOf(nodes), segments[s..]) == ValuesAt({root}, segments)
    {
      if |nodes| == 0 {
        assert SetOf(nodes) == {};
        NothingFromNothing(segments[s..]);
        return [], false;
      }
      var next: seq<Json> := [];
      for i := 0 to |nodes|
        invariant SetOf(next) == StepAll(SetOf(nodes[..i]), segments[s])
      {
        var reached := StepNodes(nodes[i], segments[s]);
        SetOfAppend(next, reached);
        assert nodes[..i + 1] == nodes[..i] + [nodes[i]];
        SetOfAppend(nodes[..i], [nodes[i]]);
        assert SetOf([nodes[i]]) == {nodes[i]};
        next := next + reached;
      }
      assert nodes[..|nodes|] == nodes;
      assert segments[s..][1..] == segments[s + 1..];
      nodes := next;
      s := s + 1;
    }
    assert segments[s..] == [];
    if |nodes| == 0 {
      return [], false;
    }
    assert nodes[0] in SetOf(nodes);
    return nodes, true;
  }

  lemma {:induction false} NothingFromNothing(segments: seq<string>)
    ensures ValuesAt({}, segments) == {}
  {
    if segments != [] {
      assert StepAll({}, segments[0]) == {};
      NothingFromNothing(segments[1..]);
    }
  }

  lemma SetOfAppend(a: seq<Json>, b: seq<Json>)
    ensures SetOf(a + b) == SetOf(a) + SetOf(b)
  {
  }

  /** The switch on one segment for one node. */
  method StepNodes(j: Json, segment: string) returns (next: seq<Json>)
    ensures SetOf(next) == Step(j, segment)
  {
    next := [];
    if segment == "*" {
      if j.Obj? {
        next := ChildNodes(j);
      }
    } else if segment == "[]" {
      if j.Arr? {
        next := j.items;
        ItemsAreChildren(j);
      }
    } else if segment == "**" {
      next := ChildNodes(j);
    } else if segment == "..." {
      next := CollectDescendants(j);
    } else {
      match j
      case Obj(m) =>
        if segment in m {
          next := [m[segment]];
        }
      case Arr(items) =>
        match Atoi(segment) {
          case Some(index) =>
            if 0 <= index < |items| {
              next := [items[index]];
            }
          case None =>
        }
      case _ =>
    }
  }

  lemma ItemsAreChildren(j: Json)
    requires j.Arr?
    ensures SetOf(j.items) == Children(j)
  {
  }

  /** Every child once; the order in which an object yields its members is arbitrary. */
  method ChildNodes(j: Json) returns (next: seq<Json>)
    ensures SetOf(next) == Children(j)
    ensures SumOf(next) < NodeCount(j)
  {
    next := [];
    match j
    case Obj(m) =>
      var keys := m.Keys;
      ghost var seen := {};
      while keys != {}
        invariant keys + seen == m.Keys
        invariant seen <= m.Keys && SetOf(next) == ValuesOf(m, seen)
        invariant SumOf(next) + SumKeys(j, keys) == SumKeys(j, m.Keys)
        decreases keys
      {
        var k :| k in keys;
        SumKeysPick(j, keys, k);
        SumOfAppend(next, [m[k]]);
        SetOfAppend(next, [m[k]]);
        assert SetOf([m[k]]) == {m[k]} && ValuesOf(m, seen + {k}) == ValuesOf(m, seen) + {m[k]};
        next := next + [m[k]];
        keys := keys - {k};
        seen := seen + {k};
      }
      assert seen == m.Keys;
    case Arr(items) =>
      next := items;
      ItemsAreChildren(j);
    case _ =>
  }

  /** Depth-first with an explicit stack. */
  method CollectDescendants(node: Json) returns (out: seq<Json>)
    ensures SetOf(out) == if node.Null? then {} else Subtree(node)
  {
    if node.Null? {
      return [];
    }
    out := [];
    var stack := [node];
    assert SetOf(stack) == {node} && SubtreesOf({node}) == Subtree(node);
    while |stack| > 0
      invariant SetOf(out) + SubtreesOf(SetOf(stack)) == Subtree(node)
      decreases SumOf(stack)
    {
      var n := stack[|stack| - 1];
      var rest := stack[..|stack| - 1];
      assert stack == rest + [n];
      var children := ChildNodes(n);
      SumOfAppend(rest, [n]);
      SumOfAppend(rest, children);
      PopAndPush(out, rest, n, children);
      out := out + [n];
      stack := rest + children;
    }
  }

  function SubtreesOf(nodes: set<Json>): set<Json> {
    set n, d | n in nodes && d in Subtree(n) :: d
  }

  /** Moving a node from the stack to the output and pushing its children keeps what is still to come. */
  lemma PopAndPush(out: seq<Json>, rest: seq<Json>, n: Json, children: seq<Json>)
    requires SetOf(children) == Children(n)
    ensures SetOf(out + [n]) + SubtreesOf(SetOf(rest + children)) == SetOf(out) + SubtreesOf(SetOf(rest + [n]))
  {
    SubtreeUnfold(n);
    SetOfAppend(rest, [n]);
    SetOfAppend(rest, children);
    SetOfAppend(out, [n]);
    assert SetOf([n]) == {n};
    SubtreesOfUnion(SetOf(rest), SetOf(children));
    SubtreesOfUnion(SetOf(rest), {n});
    assert SubtreesOf({n}) == Subtree(n);
  }

  lemma SubtreesOfUnion(a: set<Json>, b: set<Json>)
    ensures SubtreesOf(a + b) == SubtreesOf(a) + SubtreesOf(b)
  {
  }

  lemma SubtreeUnfold(j: Json)
    ensures Subtree(j) == {j} + SubtreesOf(Children(j))
  {
    match j
    case Obj(m) =>
      assert forall k :: k in m ==> m[k] in Children(j);
    case Arr(items) =>
      assert forall c :: c in items <==> c in Children(j);
    case _ =>
  }

  // ----- sizes, for the stack's termination -----

  ghost function NodeCount(j: Json): nat
    decreases j, 1
  {
    match j
    case Obj(m) => 1 + SumKeys(j, m.Keys)
    case Arr(items) => 1 + SumOf(items)
    case _ => 1
  }

  ghost function SumOf(nodes: seq<Json>): nat
    decreases nodes, 0
  {
    if nodes == [] then 0 else NodeCount(nodes[0]) + SumOf(nodes[1..])
  }

  ghost function SumKeys(j: Json, keys: set<string>): nat
    requires j.Obj? && keys <= j.members.Keys
    decreases j, 0, keys
  {
    if keys == {} then 0
    else
      var k :| k in keys;
      NodeCount(j.members[k]) + SumKeys(j, keys - {k})
  }

  lemma {:induction false} SumKeysPick(j: Json, keys: set<string>, k: string)
    requires j.Obj? && keys <= j.members.Keys && k in keys
    ensures SumKeys(j, keys) == NodeCount(j.members[k]) + SumKeys(j, keys - {k})
    decreases keys
  {
    var first :| first in keys && SumKeys(j, keys) == NodeCount(j.members[first]) + SumKeys(j, keys - {first});
    if first != k {
      SumKeysPick(j, keys - {first}, k);
      SumKeysPick(j, keys - {k}, first);
      assert keys - {first} - {k} == keys - {k} - {first};
    }
  }

  lemma {:induction false} SumOfAppend(a: seq<Json>, b: seq<Json>)
    ensures SumOf(a + b) == SumOf(a) + SumOf(b)
  {
    if a == [] {
      assert a + b == b;
    } else {
      SumOfAppend(a[1..], b);
      assert (a + b)[1..] == a[1..] + b;
    }
  }

  // ----- the walk against the path relation -----

  /** A step along one plain token is a step to a child along a segment the token matches. */
  lemma StepIsChild(j: Json, segment: string, v: Json)
    requires segment != "..."
    ensures v in Step(j, segment) <==> exists s :: Child(j, s) == Some(v) && TokenMatches(CompileToken(segment), s)
  {
    if v in Step(j, segment) {
      var s := StepWitness(j, segment, v);
      assert Child(j, s) == Some(v);
    }
    if s :| Child(j, s) == Some(v) && TokenMatches(CompileToken(segment), s) {
      assert v in Children(j);
    }
  }

  lemma StepWitness(j: Json, segment: string, v: Json) returns (s: Segment)
    requires segment != "..." && v in Step(j, segment)
    ensures Child(j, s) == Some(v) && TokenMatches(CompileToken(segment), s)
  {
    match j
    case Obj(m) =>
      var k :| k in m && m[k] == v && (segment == "*" || segment == "**" || segment == k);
      s := Key(k);
    case Arr(items) =>
      var i :| 0 <= i < |items| && items[i] == v && (segment == "[]" || segment == "**" || Atoi(segment) == Some(i));
      s := Index(i);
    case _ =>
  }

  lemma {:induction false} SubtreeWitness(j: Json, v: Json) returns (q: Path)
    requires v in Subtree(j)
    ensures At(j, q) == Some(v)
    decreases j
  {
    if v == j {
      return [];
    }
    match j
    case Obj(m) =>
      var k :| k in m && v in Subtree(m[k]);
      var q' := SubtreeWitness(m[k], v);
      q := [Key(k)] + q';
      assert q[1..] == q';
    case Arr(items) =>
      var i :| 0 <= i < |items| && v in Subtree(items[i]);
      var q' := SubtreeWitness(items[i], v);
      q := [Index(i)] + q';
      assert q[1..] == q';
    case _ =>
  }

  lemma {:induction false} ReachableIsSubtree(j: Json, q: Path, v: Json)
    requires At(j, q) == Some(v)
    ensures v in Subtree(j)
    decreases q
  {
    if q != [] {
      ReachableIsSubtree(Child(j, q[0]).value, q[1..], v);
    }
  }

  lemma {:induction false} AtAppend(j: Json, p: Path, q: Path)
    ensures At(j, p + q) == match At(j, p) case None => None case Some(c) => At(c, q)
  {
    if p == [] {
      assert p + q == q;
    } else {
      assert (p + q)[1..] == p[1..] + q;
      if Child(j, p[0]).Some? {
        AtAppend(Child(j, p[0]).value, p[1..], q);
      }
    }
  }

  /** Everything the walk returns sits at a path that the compiled pattern accepts. */
  lemma {:induction false} WalkIsSound(nodes: set<Json>, segments: seq<string>, v: Json) returns (n: Json, path: Path)
    requires v in ValuesAt(nodes, segments)
    ensures n in nodes && At(n, path) == Some(v) && Matches(Compile(segments), path)
    decreases segments
  {
    if segments == [] {
      return v, [];
    }
    var c, rest := WalkIsSound(StepAll(nodes, segments[0]), segments[1..], v);
    n :| n in nodes && c in Step(n, segments[0]);
    assert Compile(segments)[1..] == Compile(segments[1..]);
    if segments[0] == "..." {
      var q := SubtreeWitness(n, c);
      path := q + rest;
      AtAppend(n, q, rest);
      RecursiveSpan(Compile(segments), path);
      assert path[|q|..] == rest;
    } else {
      var s := StepWitness(n, segments[0], c);
      path := [s] + rest;
      assert path[1..] == rest;
      CompiledHead(segments[0]);
    }
  }

  lemma CompiledHead(segment: string)
    ensures CompileToken(segment).Recursive? <==> segment == "..."
  {
  }

  /** Every non-null value at an accepted path is returned by the walk. */
  lemma {:induction false} WalkIsComplete(nodes: set<Json>, segments: seq<string>, n: Json, path: Path, v: Json)
    requires n in nodes && At(n, path) == Some(v) && v != Null && Matches(Compile(segments), path)
    ensures v in ValuesAt(nodes, segments)
    decreases segments
  {
    if segments == [] {
      return;
    }
    var pattern := Compile(segments);
    assert pattern[1..] == Compile(segments[1..]);
    CompiledHead(segments[0]);
    if segments[0] == "..." {
      RecursiveSpan(pattern, path);
      var k :| 0 <= k <= |path| && Matches(pattern[1..], path[k..]);
      assert path == path[..k] + path[k..];
      AtAppend(n, path[..k], path[k..]);
      var c := At(n, path[..k]).value;
      ReachableIsSubtree(n, path[..k], c);
      assert n != Null && c in Step(n, segments[0]);
      assert c in StepAll(nodes, segments[0]);
      WalkIsComplete(StepAll(nodes, segments[0]), segments[1..], c, path[k..], v);
    } else {
      var c := Child(n, path[0]).value;
      StepIsChild(n, segments[0], c);
      assert c in StepAll(nodes, segments[0]);
      WalkIsComplete(StepAll(nodes, segments[0]), segments[1..], c, path[1..], v);
    }
  }

  /** The non-null values a field reaches are exactly the non-null nodes at the paths its pattern accepts. */
  lemma ValuesAreMatchedNodes(root: Json, segments: seq<string>, v: Json)
    requires v != Null
    ensures v in ValuesAt({root}, segments) <==> exists path :: At(root, path) == Some(v) && Matches(Compile(segments), path)
  {
    if v in ValuesAt({root}, segments) {
      var n, path := WalkIsSound({root}, segments, v);
      assert At(root, path) == Some(v);
    }
    if path :| At(root, path) == Some(v) && Matches(Compile(segments), path) {
      WalkIsComplete({root}, segments, root, path, v);
    }
  }

  // ----- nulls: a descent that starts at one does not return it -----

  /** A descent that is not the last token may span any steps. */
  lemma {:induction false} HitsSpan(tokens: Pattern, q: Path, rest: Path)
    requires |tokens| > 1 && tokens[0].Recursive? && Hits(tokens[1..], rest)
    ensures Hits(tokens, q + rest)
    decreases |q|
  {
    if q == [] {
      assert q + rest == rest;
    } else {
      HitsSpan(tokens, q[1..], rest);
      assert (q + rest)[1..] == q[1..] + rest;
    }
  }

  lemma {:induction false} HitsSplit(tokens: Pattern, path: Path) returns (k: nat)
    requires |tokens| > 1 && tokens[0].Recursive? && Hits(tokens, path)
    ensures k <= |path| && Hits(tokens[1..], path[k..])
    decreases |path|
  {
    if Hits(tokens[1..], path) {
      assert path[0..] == path;
      return 0;
    }
    k := HitsSplit(tokens, path[1..]);
    assert path[1..][k..] == path[k + 1..];
    k := k + 1;
  }

  lemma {:induction false} NothingHitsHere(tokens: Pattern)
    requires tokens != []
    ensures !Hits(tokens, [])
    decreases |tokens|
  {
    if |tokens| > 1 && tokens[0].Recursive? {
      NothingHitsHere(tokens[1..]);
    }
  }

  lemma {:induction false} NullWalkIsSound(nodes: set<Json>, segments: seq<string>) returns (n: Json, path: Path)
    requires Null in ValuesAt(nodes, segments)
    ensures n in nodes && At(n, path) == Some(Null) && Hits(Compile(segments), path)
    decreases segments
  {
    if segments == [] {
      return Null, [];
    }
    var c, rest := NullWalkIsSound(StepAll(nodes, segments[0]), segments[1..]);
    n :| n in nodes && c in Step(n, segments[0]);
    assert Compile(segments)[1..] == Compile(segments[1..]);
    CompiledHead(segments[0]);
    if segments[0] == "..." {
      var q := SubtreeWitness(n, c);
      path := q + rest;
      AtAppend(n, q, rest);
      if |segments| > 1 {
        HitsSpan(Compile(segments), q, rest);
      }
    } else {
      var s := StepWitness(n, segments[0], c);
      path := [s] + rest;
      assert path[1..] == rest;
    }
  }

  lemma {:induction false} NullWalkIsComplete(nodes: set<Json>, segments: seq<string>, n: Json, path: Path)
    requires n in nodes && At(n, path) == Some(Null) && Hits(Compile(segments), path)
    ensures Null in ValuesAt(nodes, segments)
    decreases segments
  {
    if segments == [] {
      return;
    }
    var pattern := Compile(segments);
    assert pattern[1..] == Compile(segments[1..]);
    CompiledHead(segments[0]);
    NothingHitsHere(pattern);
    if segments[0] == "..." {
      var k := |path|;
      if |segments| > 1 {
        k := HitsSplit(pattern, path);
      }
      assert path == path[..k] + path[k..];
      AtAppend(n, path[..k], path[k..]);
      var c := At(n, path[..k]).value;
      ReachableIsSubtree(n, path[..k], c);
      assert n != Null && c in Step(n, segments[0]);
      assert c in StepAll(nodes, segments[0]);
      NullWalkIsComplete(StepAll(nodes, segments[0]), segments[1..], c, path[k..]);
    } else {
      var c := Child(n, path[0]).value;
      StepIsChild(n, segments[0], c);
      assert c in StepAll(nodes, segments[0]);
      NullWalkIsComplete(StepAll(nodes, segments[0]), segments[1..], c, path[1..]);
    }
  }

  /** A field reaches a null exactly at the paths that end below its trailing descent, if it has one. */
  lemma NullsAreReachedBelow(root: Json, segments: seq<string>)
    ensures Null in ValuesAt({root}, segments) <==> exists path :: At(root, path) == Some(Null) && Hits(Compile(segments), path)
  {
    if Null in ValuesAt({root}, segments) {
      var n, path := NullWalkIsSound({root}, segments);
      assert At(root, path) == Some(Null);
    }
    if path :| At(root, path) == Some(Null) && Hits(Compile(segments), path) {
      NullWalkIsComplete({root}, segments, root, path);
    }
  }

  /** Where the two relations part: the whole path is accepted, and the last descent would span nothing. */
  lemma {:induction false} HitsAreMatches(pattern: Pattern, path: Path)
    ensures Hits(pattern, path) ==> Matches(pattern, path)
    ensures (pattern == [] || !pattern[|pattern| - 1].Recursive?) ==> (Hits(pattern, path) <==> Matches(pattern, path))
    decreases |pattern| + |path|
  {
    if pattern != [] {
      if !pattern[0].Recursive? {
        if path != [] {
          HitsAreMatches(pattern[1..], path[1..]);
        }
      } else if |pattern| == 1 {
        if path != [] {
          RecursiveSpan(pattern, path);
          assert path[|path|..] == [];
        }
      } else {
        HitsAreMatches(pattern[1..], path);
        if path != [] {
          HitsAreMatches(pattern, path[1..]);
        }
      }
    }
  }

  /** One such path: the descent starts at the null and does not return it, although the path is accepted. */
  lemma DescentDropsNullStart()
    ensures var root := Obj(map["a" := Null]);
      ValuesAt({root}, ["a", "..."]) == {} &&
      At(root, [Key("a")]) == Some(Null) && Matches(Compile(["a", "..."]), [Key("a")])
  {
    var root := Obj(map["a" := Null]);
    assert "a"[0] != '*' && !IsDigit("a"[0]);
    assert Step(root, "a") == {Null};
    assert StepAll({root}, "a") == {Null};
    assert Step(Null, "...") == {};
    assert StepAll({Null}, "...") == {};
    assert ["a", "..."][1..] == ["..."] && ["..."][1..] == [];
    assert ValuesAt({Null}, ["..."]) == ValuesAt({}, []);
    var pattern := Compile(["a", "..."]);
    assert pattern[0] == CompileToken("a") && pattern[1..] == [Recursive];
    assert [Key("a")][1..] == [];
    assert [Recursive][1..] == [] && Matches([Recursive], []);
  }
}
