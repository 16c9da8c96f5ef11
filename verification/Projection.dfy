/** Field projection: one scan guided by a trie of paths, assigning what it finds into the output. */
module Projection {
  import opened Json
  import opened Patterns

  const MAX_INDEX := 0x10_0000

  type Field = seq<string>

  datatype Result<+T> = Fail | Ok(value: T)

  // ----- the output -----

  datatype Out = Leaf(value: Json) | OutObject(members: map<string, Out>) | OutArray(items: seq<Option<Out>>)

  datatype Assignment = Assignment(path: Field, value: Json)

  /** The output starts as an object without members. */
  const EMPTY_ROOT: Option<Out> := Some(OutObject(map[]))

  /** A token of digits alone names an array index in the output. */
  function IndexToken(token: string): Option<int> {
    if token == "" || exists i | 0 <= i < |token| :: !IsDigit(token[i]) then None else Atoi(token)
  }

  /** In the output only bare digits name an index: no sign, and not too large for 64 bits. */
  lemma IndexTokenReadsDecimals(token: string, v: int)
    ensures IndexToken(token) == Some(v) <==>
      0 <= v <= MAX_INT && exists zeros :: AllZeros(zeros) && token == zeros + Decimal(v)
  {
    if IndexToken(token) == Some(v) {
      assert IsDigit(token[0]);
      var zeros := DigitsAreDecimal(token);
    }
    if 0 <= v <= MAX_INT {
      if zeros :| AllZeros(zeros) && token == zeros + Decimal(v) {
        ZerosCountNothing(zeros, Decimal(v));
        WrittenIsRead(token, v, "", zeros);
      }
    }
  }

  function Grown(items: seq<Option<Out>>, n: nat): (r: seq<Option<Out>>)
    ensures |r| == if |items| < n then n else |items|
    ensures forall i :: 0 <= i < |r| ==> r[i] == if i < |items| then items[i] else None
  {
    if |items| < n then items + seq(n - |items|, _ => None) else items
  }

  function Filled(items: seq<Option<Out>>, i: nat, x: Out): seq<Option<Out>> {
    Grown(items, i + 1)[i := Some(x)]
  }

  lemma FilledCommute(items: seq<Option<Out>>, i: nat, j: nat, x: Out, y: Out)
    requires i != j
    ensures Filled(Filled(items, i, x), j, y) == Filled(Filled(items, j, y), i, x)
  {
    var one, other := Filled(Filled(items, i, x), j, y), Filled(Filled(items, j, y), i, x);
    assert |one| == |other|;
    forall k | 0 <= k < |one| ensures one[k] == other[k] {
      assert |Filled(items, i, x)| == |Grown(items, i + 1)| && |Filled(items, j, y)| == |Grown(items, j + 1)|;
    }
  }

  function MemberAt(m: map<string, Out>, k: string): Option<Out> {
    if k in m then Some(m[k]) else None
  }

  /** What is at a token of an output node; a token that names no place there fails. */
  function Slot(node: Option<Out>, token: string): Result<Option<Out>> {
    match IndexToken(token)
    case Some(index) =>
      if index < 0 || index > MAX_INDEX || (node.Some? && !node.value.OutArray?) then Fail
      else Ok(Grown(if node.Some? then node.value.items else [], index + 1)[index])
    case None =>
      if node.Some? && !node.value.OutObject? then Fail
      else Ok(MemberAt(if node.Some? then node.value.members else map[], token))
  }

  /** The node with that place filled. */
  function Place(node: Option<Out>, token: string, child: Out): Out
    requires Slot(node, token).Ok?
  {
    match IndexToken(token)
    case Some(index) => OutArray(Filled(if node.Some? then node.value.items else [], index, child))
    case None => OutObject((if node.Some? then node.value.members else map[])[token := child])
  }

  function Assign(node: Option<Out>, path: Field, value: Json): Result<Out>
    decreases path
  {
    if path == [] then Ok(Leaf(value))
    else
      var slot := Slot(node, path[0]);
      if slot.Fail? then Fail
      else
        var below := Assign(slot.value, path[1..], value);
        if below.Fail? then Fail else Ok(Place(node, path[0], below.value))
  }

  function AssignAll(node: Option<Out>, todo: seq<Assignment>): Result<Option<Out>>
    decreases todo
  {
    if todo == [] then Ok(node)
    else
      var first := Assign(node, todo[0].path, todo[0].value);
      if first.Fail? then Fail else AssignAll(Some(first.value), todo[1..])
  }

  // ----- assignments to different places commute -----

  /** Two tokens that lead to different places of any output. */
  predicate Elsewhere(s: string, t: string) {
    s != t && !(IndexToken(s).Some? && IndexToken(s) == IndexToken(t) && 0 <= IndexToken(s).value <= MAX_INDEX)
  }

  /** Neither path lies on the other, and where they part they lead to different places. */
  predicate Apart(p: Field, q: Field)
    decreases p
  {
    p != [] && q != [] && (if p[0] == q[0] then Apart(p[1..], q[1..]) else Elsewhere(p[0], q[0]))
  }

  function Both(node: Option<Out>, a: Assignment, b: Assignment): Result<Out> {
    var first := Assign(node, a.path, a.value);
    if first.Fail? then Fail else Assign(Some(first.value), b.path, b.value)
  }

  function Tail(a: Assignment): Assignment
    requires a.path != []
  {
    Assignment(a.path[1..], a.value)
  }

  lemma PlaceThenSlot(node: Option<Out>, s: string, x: Out, y: Out)
    requires Slot(node, s).Ok?
    ensures Slot(Some(Place(node, s, x)), s) == Ok(Some(x))
    ensures Place(Some(Place(node, s, x)), s, y) == Place(node, s, y)
  {
    hide Filled, Grown, IndexToken;
    var placed := Place(node, s, x);
    if IndexToken(s).Some? {
      FilledTwice(if node.Some? then node.value.items else [], IndexToken(s).value, x, y);
    } else {
      assert placed.members[s := y] == Place(node, s, y).members;
    }
  }

  lemma FilledTwice(items: seq<Option<Out>>, i: nat, x: Out, y: Out)
    ensures Grown(Filled(items, i, x), i + 1) == Filled(items, i, x) && |Filled(items, i, x)| > i && Filled(items, i, x)[i] == Some(x)
    ensures Filled(Filled(items, i, x), i, y) == Filled(items, i, y)
  {
    var filled := Filled(items, i, x);
    assert |filled| > i;
    assert Grown(filled, i + 1) == filled;
    assert Filled(filled, i, y) == Filled(items, i, y);
  }

  predicate SameKind(s: string, t: string) {
    IndexToken(s).Some? <==> IndexToken(t).Some?
  }

  /** Filling one place leaves the others of the same kind, and shuts out those of the other kind. */
  lemma PlaceElsewhere(node: Option<Out>, s: string, t: string, x: Out)
    requires Slot(node, s).Ok? && Elsewhere(s, t)
    ensures Slot(Some(Place(node, s, x)), t) == if SameKind(s, t) then Slot(node, t) else Fail
  {
    if IndexToken(s).Some? && IndexToken(t).Some? && 0 <= IndexToken(t).value <= MAX_INDEX {
      FilledElsewhere(if node.Some? then node.value.items else [], IndexToken(s).value, IndexToken(t).value, x);
    }
  }

  lemma FilledElsewhere(items: seq<Option<Out>>, i: nat, j: nat, x: Out)
    requires i != j
    ensures Grown(Filled(items, i, x), j + 1)[j] == Grown(items, j + 1)[j]
  {
    assert |Filled(items, i, x)| == |Grown(items, i + 1)|;
  }

  lemma PlacesCommute(node: Option<Out>, s: string, t: string, x: Out, y: Out)
    requires Slot(node, s).Ok? && Slot(node, t).Ok? && Elsewhere(s, t) && SameKind(s, t)
    requires Slot(Some(Place(node, s, x)), t).Ok? && Slot(Some(Place(node, t, y)), s).Ok?
    ensures Place(Some(Place(node, s, x)), t, y) == Place(Some(Place(node, t, y)), s, x)
  {
    hide Filled, Grown;
    if IndexToken(s).Some? {
      FilledCommute(if node.Some? then node.value.items else [], IndexToken(s).value, IndexToken(t).value, x, y);
    } else {
      var m: map<string, Out> := if node.Some? then node.value.members else map[];
      assert m[s := x][t := y] == m[t := y][s := x];
    }
  }

  /** In either order the output is the same, or the assignments clash. */
  lemma {:induction false} AssignmentsCommute(node: Option<Out>, a: Assignment, b: Assignment)
    requires Apart(a.path, b.path)
    ensures Both(node, a, b) == Both(node, b, a)
    decreases a.path
  {
    hide Slot, Place, Elsewhere;
    var s, t := a.path[0], b.path[0];
    if s == t {
      if Slot(node, s).Ok? {
        AssignmentsCommute(Slot(node, s).value, Tail(a), Tail(b));
        BothThrough(node, a, b);
        BothThrough(node, b, a);
      }
    } else {
      ElsewhereIsSymmetric(s, t);
      BothElsewhere(node, a, b);
      BothElsewhere(node, b, a);
      var x, y := AssignTail(node, a), AssignTail(node, b);
      if x.Ok? && y.Ok? && SameKind(s, t) {
        PlaceElsewhere(node, s, t, x.value);
        PlaceElsewhere(node, t, s, y.value);
        PlacesCommute(node, s, t, x.value, y.value);
      }
    }
  }

  /** What comes of an assignment below its first token. */
  function AssignTail(node: Option<Out>, a: Assignment): Result<Out>
    requires a.path != []
  {
    var slot := Slot(node, a.path[0]);
    if slot.Fail? then Fail else Assign(slot.value, a.path[1..], a.value)
  }

  lemma ElsewhereIsSymmetric(s: string, t: string)
    requires Elsewhere(s, t)
    ensures Elsewhere(t, s)
  {
  }

  /** Two assignments through the same place meet below it. */
  lemma BothThrough(node: Option<Out>, a: Assignment, b: Assignment)
    requires a.path != [] && b.path != [] && a.path[0] == b.path[0] && Slot(node, a.path[0]).Ok?
    ensures var below := Both(Slot(node, a.path[0]).value, Tail(a), Tail(b));
      Both(node, a, b) == if below.Fail? then Fail else Ok(Place(node, a.path[0], below.value))
  {
    hide Slot, Place;
    var x := AssignTail(node, a);
    if x.Ok? {
      var y := Assign(Some(x.value), b.path[1..], b.value);
      PlaceThenSlot(node, a.path[0], x.value, if y.Ok? then y.value else x.value);
    }
  }

  /** Two assignments at different places: each on its own, unless the places are of different kinds. */
  lemma BothElsewhere(node: Option<Out>, a: Assignment, b: Assignment)
    requires a.path != [] && b.path != [] && Elsewhere(a.path[0], b.path[0])
    ensures var x, y := AssignTail(node, a), AssignTail(node, b);
      (x.Fail? || y.Fail? || !SameKind(a.path[0], b.path[0]) ==> Both(node, a, b).Fail?)
    ensures var x, y := AssignTail(node, a), AssignTail(node, b);
      x.Ok? && y.Ok? && SameKind(a.path[0], b.path[0]) ==>
        Slot(node, a.path[0]).Ok? && Slot(Some(Place(node, a.path[0], x.value)), b.path[0]).Ok? &&
        Both(node, a, b) == Ok(Place(Some(Place(node, a.path[0], x.value)), b.path[0], y.value))
  {
    hide Slot, Place, Elsewhere;
    var x := AssignTail(node, a);
    if x.Ok? {
      PlaceElsewhere(node, a.path[0], b.path[0], x.value);
    }
  }

  ghost predicate PairwiseApart(todo: seq<Assignment>) {
    forall i, j :: 0 <= i < j < |todo| ==> Apart(todo[i].path, todo[j].path)
  }

  lemma {:induction false} ApartIsSymmetric(p: Field, q: Field)
    ensures Apart(p, q) <==> Apart(q, p)
    decreases p
  {
    if p != [] && q != [] {
      ApartIsSymmetric(p[1..], q[1..]);
    }
  }

  /** Any assignment can be done first. */
  lemma {:induction false} BringToFront(node: Option<Out>, todo: seq<Assignment>, i: nat)
    requires i < |todo| && PairwiseApart(todo)
    ensures AssignAll(node, todo) == AssignAll(node, [todo[i]] + (todo[..i] + todo[i + 1..]))
    decreases i
  {
    if i == 0 {
      assert todo == [todo[0]] + (todo[..0] + todo[1..]);
    } else {
      var a, b, tail := todo[0], todo[i], todo[1..];
      var rest := tail[..i - 1] + tail[i..];
      assert [todo[i]] + (todo[..i] + todo[i + 1..]) == [b, a] + rest;
      AssignmentsCommute(node, a, b);
      var first := Assign(node, a.path, a.value);
      if first.Ok? {
        BringToFront(Some(first.value), tail, i - 1);
        assert [tail[i - 1]] + rest == [b] + rest;
      }
      TwoFirst(node, a, b, rest);
      TwoFirst(node, b, a, rest);
    }
  }

  lemma TwoFirst(node: Option<Out>, a: Assignment, b: Assignment, rest: seq<Assignment>)
    ensures var r := Both(node, a, b);
      AssignAll(node, [a, b] + rest) == if r.Fail? then Fail else AssignAll(Some(r.value), rest)
    ensures var first := Assign(node, a.path, a.value);
      AssignAll(node, [a, b] + rest) == if first.Fail? then Fail else AssignAll(Some(first.value), [b] + rest)
  {
    assert ([a, b] + rest)[1..] == [b] + rest;
    assert ([b] + rest)[1..] == rest;
  }

  ghost predicate NoRepeats(todo: seq<Assignment>) {
    forall i, j :: 0 <= i < j < |todo| ==> todo[i] != todo[j]
  }

  /** The order of assignments does not matter. */
  lemma {:induction false} OrderIsIrrelevant(node: Option<Out>, todo: seq<Assignment>, other: seq<Assignment>)
    requires PairwiseApart(todo) && PairwiseApart(other) && NoRepeats(todo) && NoRepeats(other)
    requires forall a :: a in todo <==> a in other
    ensures AssignAll(node, todo) == AssignAll(node, other)
    decreases |todo|
  {
    assert other != [] ==> other[0] in other;
    if todo != [] {
      assert todo[0] in other;
      var i :| 0 <= i < |other| && other[i] == todo[0];
      BringToFront(node, other, i);
      var rest := other[..i] + other[i + 1..];
      assert ([other[i]] + rest)[1..] == rest;
      RestIsRest(todo, other, i);
      var first := Assign(node, todo[0].path, todo[0].value);
      if first.Ok? {
        OrderIsIrrelevant(Some(first.value), todo[1..], rest);
      }
    }
  }

  lemma RestIsRest(todo: seq<Assignment>, other: seq<Assignment>, i: nat)
    requires todo != [] && i < |other| && other[i] == todo[0] && NoRepeats(todo) && NoRepeats(other)
    requires PairwiseApart(other) && forall a :: a in todo <==> a in other
    ensures var rest := other[..i] + other[i + 1..];
      PairwiseApart(rest) && NoRepeats(rest) && forall a :: a in todo[1..] <==> a in rest
  {
    var rest := other[..i] + other[i + 1..];
    assert todo == [todo[0]] + todo[1..];
    assert other == other[..i] + [other[i]] + other[i + 1..];
    assert forall k :: 0 <= k < |rest| ==> rest[k] == if k < i then other[k] else other[k + 1];
    forall a ensures a in todo[1..] <==> a in rest {
      assert a in todo <==> a == todo[0] || a in todo[1..];
      assert a in other <==> a == other[i] || a in rest;
      assert todo[0] !in todo[1..] && other[i] !in rest;
    }
  }

  // ----- when assignments clash -----

  /** Every token names a place that is there or can be made. */
  predicate Fits(node: Option<Out>, path: Field)
    decreases path
  {
    path == [] || (Slot(node, path[0]).Ok? && Fits(Slot(node, path[0]).value, path[1..]))
  }

  lemma {:induction false} AssignedIfFits(node: Option<Out>, path: Field, value: Json)
    ensures Assign(node, path, value).Ok? <==> Fits(node, path)
    decreases path
  {
    if path != [] && Slot(node, path[0]).Ok? {
      AssignedIfFits(Slot(node, path[0]).value, path[1..], value);
    }
  }

  /** Where two paths part, both ask for a member or both for an element. */
  predicate SameShape(p: Field, q: Field)
    decreases p
  {
    p == [] || q == [] || (if p[0] == q[0] then SameShape(p[1..], q[1..]) else SameKind(p[0], q[0]))
  }

  /** After one assignment a path apart from it fits as before, unless the two ask for different kinds. */
  lemma {:induction false} FitsAfter(node: Option<Out>, a: Assignment, q: Field)
    requires Apart(a.path, q) && Assign(node, a.path, a.value).Ok?
    ensures Fits(Some(Assign(node, a.path, a.value).value), q) <==> Fits(node, q) && SameShape(a.path, q)
    decreases a.path
  {
    hide Slot, Place, Elsewhere;
    var s, below := a.path[0], AssignTail(node, a);
    if s == q[0] {
      PlaceThenSlot(node, s, below.value, below.value);
      FitsAfter(Slot(node, s).value, Tail(a), q[1..]);
    } else {
      PlaceElsewhere(node, s, q[0], below.value);
    }
  }

  ghost predicate AllFit(node: Option<Out>, todo: seq<Assignment>) {
    && (forall i :: 0 <= i < |todo| ==> Fits(node, todo[i].path))
    && (forall i, j :: 0 <= i < j < |todo| ==> SameShape(todo[i].path, todo[j].path))
  }

  /** Assignments to places apart succeed exactly if each fits at the start and no two differ in shape. */
  lemma {:induction false} AssignedIfAllFit(node: Option<Out>, todo: seq<Assignment>)
    requires PairwiseApart(todo)
    ensures AssignAll(node, todo).Ok? <==> AllFit(node, todo)
    decreases todo
  {
    hide Fits, SameShape, Assign;
    if todo != [] {
      var a, rest := todo[0], todo[1..];
      AssignedIfFits(node, a.path, a.value);
      assert forall i :: 0 < i < |todo| ==> todo[i] == rest[i - 1];
      var first := Assign(node, a.path, a.value);
      if first.Ok? {
        forall i | 0 < i < |todo|
          ensures Fits(Some(first.value), todo[i].path) <==> Fits(node, todo[i].path) && SameShape(a.path, todo[i].path)
        {
          FitsAfter(node, a, todo[i].path);
        }
        AssignedIfAllFit(Some(first.value), rest);
        assert forall i :: 0 <= i < |rest| ==> rest[i] == todo[i + 1];
      }
    }
  }

  /** An array index in the output is not too large. */
  predicate InRange(path: Field) {
    forall i | 0 <= i < |path| :: IndexToken(path[i]).Some? ==> 0 <= IndexToken(path[i]).value <= MAX_INDEX
  }

  lemma {:induction false} FitsNowhereElse(path: Field)
    ensures Fits(None, path) <==> InRange(path)
    decreases path
  {
    if path != [] {
      FitsNowhereElse(path[1..]);
      assert forall i :: 0 < i < |path| ==> path[i] == path[1..][i - 1];
      assert forall i :: 0 <= i < |path| - 1 ==> path[1..][i] == path[i + 1];
      if IndexToken(path[0]).Some? && 0 <= IndexToken(path[0]).value <= MAX_INDEX {
        assert Slot(None, path[0]) == Ok(None);
      }
    }
  }

  /** Into an empty object fits what starts with a key and stays in range. */
  lemma FitsTheRoot(path: Field)
    requires path != []
    ensures Fits(EMPTY_ROOT, path) <==> IndexToken(path[0]).None? && InRange(path)
  {
    FitsNowhereElse(path[1..]);
    assert forall i :: 0 < i < |path| ==> path[i] == path[1..][i - 1];
    assert forall i :: 0 <= i < |path| - 1 ==> path[1..][i] == path[i + 1];
  }

  // ----- reading the output -----

  /** The step a token takes in an output: into an array by index, into an object by name. */
  function Spot(token: string): Segment {
    match IndexToken(token)
    case Some(i) => if i >= 0 then Index(i) else Key(token)
    case None => Key(token)
  }

  function Spots(path: Field): Path {
    seq(|path|, i requires 0 <= i < |path| => Spot(path[i]))
  }

  function OutChild(x: Out, s: Segment): Option<Out> {
    match (x, s)
    case (OutObject(m), Key(k)) => MemberAt(m, k)
    case (OutArray(items), Index(i)) => if i < |items| then items[i] else None
    case _ => None
  }

  /** What stands at a path of the output. */
  function OutAt(node: Option<Out>, path: Path): Option<Out>
    decreases path
  {
    if node.None? || path == [] then node else OutAt(OutChild(node.value, path[0]), path[1..])
  }

  lemma {:induction false} NothingInNothing(path: Path)
    ensures OutAt(None, path) == None
  {
  }

  lemma LeafEnds(v: Json, q: Path)
    ensures q != [] ==> OutAt(Some(Leaf(v)), q) == None
  {
    if q != [] {
      NothingInNothing(q[1..]);
    }
  }

  /** Filling a place changes that child and no other. */
  lemma PlacedChild(node: Option<Out>, token: string, child: Out, s: Segment)
    requires Slot(node, token).Ok?
    ensures !Place(node, token, child).Leaf?
    ensures s == Spot(token) ==> OutChild(Place(node, token, child), s) == Some(child)
    ensures s == Spot(token) ==> Slot(node, token).value == if node.Some? then OutChild(node.value, s) else None
    ensures s != Spot(token) ==> OutChild(Place(node, token, child), s) == if node.Some? then OutChild(node.value, s) else None
  {
  }

  /** On the way to a place, at it, beneath it, or elsewhere. */
  predicate Related(p: Path, q: Path) {
    p <= q || q <= p
  }

  lemma RelatedTails(p: Path, q: Path)
    requires p != [] && q != [] && p[0] == q[0]
    ensures (p <= q <==> p[1..] <= q[1..]) && (q <= p <==> q[1..] <= p[1..])
  {
    assert p == [p[0]] + p[1..] && q == [q[0]] + q[1..];
  }

  /** One assignment puts the value at its place as a leaf, with containers on the way, and leaves all else alone. */
  lemma {:induction false} AssignEffect(node: Option<Out>, p: Field, v: Json, q: Path)
    requires Assign(node, p, v).Ok?
    ensures var out := Some(Assign(node, p, v).value);
      && (q == Spots(p) ==> OutAt(out, q) == Some(Leaf(v)))
      && (Spots(p) < q ==> OutAt(out, q) == None)
      && (q < Spots(p) ==> OutAt(out, q).Some? && !OutAt(out, q).value.Leaf?)
      && (!Related(Spots(p), q) ==> OutAt(out, q) == OutAt(node, q))
    decreases p
  {
    hide Slot, Place, OutChild, Spot;
    if p == [] {
      assert Spots(p) == [];
      LeafEnds(v, q);
    } else {
      var below := Assign(Slot(node, p[0]).value, p[1..], v).value;
      var spots := Spots(p);
      assert spots[0] == Spot(p[0]) && spots[1..] == Spots(p[1..]);
      if q == [] {
        PlacedChild(node, p[0], below, Spot(p[0]));
      } else {
        NothingInNothing(q[1..]);
        PlacedChild(node, p[0], below, q[0]);
        if q[0] == spots[0] {
          RelatedTails(spots, q);
          AssignEffect(Slot(node, p[0]).value, p[1..], v, q[1..]);
        }
      }
    }
  }

  /** What can be assigned is in range, and paths apart that can both be assigned lead to unrelated places. */
  lemma {:induction false} ApartIsUnrelated(node: Option<Out>, p: Field, v: Json, q: Field)
    requires Assign(node, p, v).Ok? && Apart(p, q)
    ensures !Related(Spots(p), Spots(q))
    decreases p
  {
    hide Place;
    var ps, qs := Spots(p), Spots(q);
    assert ps[0] == Spot(p[0]) && ps[1..] == Spots(p[1..]);
    assert qs[0] == Spot(q[0]) && qs[1..] == Spots(q[1..]);
    if p[0] == q[0] {
      RelatedTails(ps, qs);
      ApartIsUnrelated(Slot(node, p[0]).value, p[1..], v, q[1..]);
    } else {
      IndexTokensAreNatural(p[0]);
      IndexTokensAreNatural(q[0]);
      assert ps[0] != qs[0];
    }
  }

  lemma IndexTokensAreNatural(token: string)
    ensures IndexToken(token).Some? ==> IndexToken(token).value >= 0
  {
    if IndexToken(token).Some? {
      assert IsDigit(token[0]);
      DigitsAreNatural(token);
    }
  }

  lemma {:induction false} DigitsAreNatural(s: string)
    requires AllDigits(s)
    ensures DigitsValue(s) >= 0
  {
    if s != "" {
      DigitsAreNatural(s[..|s| - 1]);
    }
  }

  /** Every assigned value is a leaf at its place, and what is unrelated to all the places is as before. */
  lemma {:induction false} AllAssigned(node: Option<Out>, todo: seq<Assignment>)
    requires PairwiseApart(todo) && AssignAll(node, todo).Ok?
    ensures forall a :: a in todo ==> OutAt(AssignAll(node, todo).value, Spots(a.path)) == Some(Leaf(a.value))
    ensures forall q :: (forall a :: a in todo ==> !Related(Spots(a.path), q)) ==> OutAt(AssignAll(node, todo).value, q) == OutAt(node, q)
    decreases todo
  {
    if todo != [] {
      hide Assign, OutAt, Related, Spots, Apart;
      var a, rest := todo[0], todo[1..];
      var first := Assign(node, a.path, a.value);
      assert forall i :: 0 <= i < |rest| ==> rest[i] == todo[i + 1];
      AllAssigned(Some(first.value), rest);
      forall b | b in rest ensures !Related(Spots(b.path), Spots(a.path)) {
        ApartIsUnrelated(node, a.path, a.value, b.path);
        RelatedIsSymmetric(Spots(a.path), Spots(b.path));
      }
      AssignEffect(node, a.path, a.value, Spots(a.path));
      forall q | forall b :: b in todo ==> !Related(Spots(b.path), q)
        ensures OutAt(AssignAll(node, todo).value, q) == OutAt(node, q)
      {
        assert a in todo && forall b :: b in rest ==> b in todo;
        AssignEffect(node, a.path, a.value, q);
      }
    }
  }

  lemma RelatedIsSymmetric(p: Path, q: Path)
    ensures Related(p, q) <==> Related(q, p)
  {
  }

  lemma {:induction false} OutThrough(node: Option<Out>, p: Path, q: Path)
    requires p <= q
    ensures OutAt(node, q) == OutAt(OutAt(node, p), q[|p|..])
    decreases p
  {
    if p == [] {
      assert q[0..] == q;
    } else if node.Some? {
      OutThrough(OutChild(node.value, p[0]), p[1..], q[1..]);
      assert q[1..][|p| - 1..] == q[|p|..];
    } else {
      NothingInNothing(q);
      NothingInNothing(q[|p|..]);
    }
  }

  /** Whatever is in the output is at, or on the way to, an assigned place. */
  lemma OnTheWay(todo: seq<Assignment>, q: Path) returns (a: Assignment)
    requires PairwiseApart(todo) && AssignAll(EMPTY_ROOT, todo).Ok? && q != [] && OutAt(AssignAll(EMPTY_ROOT, todo).value, q).Some?
    ensures a in todo && q <= Spots(a.path)
    ensures OutAt(AssignAll(EMPTY_ROOT, todo).value, q).value.Leaf? ==> q == Spots(a.path)
  {
    hide Spots, OutAt, Assign;
    AllAssigned(EMPTY_ROOT, todo);
    EmptyRootIsEmpty(q);
    a :| a in todo && Related(Spots(a.path), q);
    RelatedToLeaf(AssignAll(EMPTY_ROOT, todo).value, Spots(a.path), a.value, q);
  }

  /** The leaves of the output are the assigned values at their places. */
  lemma LeavesAreAssigned(todo: seq<Assignment>, q: Path, v: Json)
    requires PairwiseApart(todo) && AssignAll(EMPTY_ROOT, todo).Ok?
    ensures OutAt(AssignAll(EMPTY_ROOT, todo).value, q) == Some(Leaf(v)) <==> exists a :: a in todo && Spots(a.path) == q && a.value == v
  {
    hide Spots, OutAt, Assign;
    AllAssigned(EMPTY_ROOT, todo);
    EmptyRootIsEmpty(q);
    if OutAt(AssignAll(EMPTY_ROOT, todo).value, q) == Some(Leaf(v)) {
      if q != [] {
        var a := OnTheWay(todo, q);
      } else if todo != [] {
        assert todo[0] in todo;
        RelatedToLeaf(AssignAll(EMPTY_ROOT, todo).value, Spots(todo[0].path), todo[0].value, q);
      }
    }
  }

  lemma EmptyRootIsEmpty(q: Path)
    ensures OutAt(EMPTY_ROOT, q) == if q == [] then EMPTY_ROOT else None
  {
    if q != [] {
      NothingInNothing(q[1..]);
    }
  }

  /** Around a leaf: nothing beneath it, containers above it. */
  lemma RelatedToLeaf(out: Option<Out>, p: Path, v: Json, q: Path)
    requires OutAt(out, p) == Some(Leaf(v)) && Related(p, q)
    ensures p < q ==> OutAt(out, q) == None
    ensures q < p ==> OutAt(out, q).Some? && !OutAt(out, q).value.Leaf?
  {
    if p < q {
      OutThrough(out, p, q);
      LeafEnds(v, q[|p|..]);
    } else if q < p {
      OutThrough(out, q, p);
      NothingInNothing(p[|q|..]);
      if OutAt(out, q).Some? && OutAt(out, q).value.Leaf? {
        LeafEnds(OutAt(out, q).value.value, p[|q|..]);
      }
    }
  }

  /** No array of the output ends in a hole. */
  predicate NoTrailingHoles(x: Out) {
    match x
    case Leaf(_) => true
    case OutObject(m) => forall k | k in m :: NoTrailingHoles(m[k])
    case OutArray(items) =>
      && items != [] && items[|items| - 1].Some?
      && forall i | 0 <= i < |items| :: items[i].Some? ==> NoTrailingHoles(items[i].value)
  }

  lemma {:induction false} AssignLeavesNoHoles(node: Option<Out>, path: Field, v: Json)
    requires (node.Some? ==> NoTrailingHoles(node.value)) && Assign(node, path, v).Ok?
    ensures NoTrailingHoles(Assign(node, path, v).value)
    decreases path
  {
    if path != [] {
      var slot := Slot(node, path[0]).value;
      assert slot.Some? ==> NoTrailingHoles(slot.value);
      AssignLeavesNoHoles(slot, path[1..], v);
      PlacedNoHoles(node, path[0], Assign(slot, path[1..], v).value);
    }
  }

  lemma PlacedNoHoles(node: Option<Out>, token: string, child: Out)
    requires (node.Some? ==> NoTrailingHoles(node.value)) && Slot(node, token).Ok? && NoTrailingHoles(child)
    ensures NoTrailingHoles(Place(node, token, child))
  {
  }

  lemma {:induction false} NoHolesAtAll(node: Option<Out>, todo: seq<Assignment>)
    requires (node.Some? ==> NoTrailingHoles(node.value)) && AssignAll(node, todo).Ok?
    ensures AssignAll(node, todo).value.Some? ==> NoTrailingHoles(AssignAll(node, todo).value.value)
    decreases todo
  {
    if todo != [] {
      AssignLeavesNoHoles(node, todo[0].path, todo[0].value);
      NoHolesAtAll(Some(Assign(node, todo[0].path, todo[0].value).value), todo[1..]);
    }
  }

  // ----- the trie -----

  /** A node of the trie: the path that ends here, the children by token, and which child an array index selects. */
  datatype Trie = Trie(path: Option<Field>, children: map<string, Trie>, byIndex: map<int, string>)

  const NO_PATHS := Trie(None, map[], map[])

  predicate Has(node: Trie, rest: Field)
    decreases rest
  {
    if rest == [] then node.path.Some? else rest[0] in node.children && Has(node.children[rest[0]], rest[1..])
  }

  /** A node where a path ends has no children, and every child leads to a path. */
  predicate WellGrown(node: Trie, prefix: Field)
    decreases node
  {
    && (node.path.Some? ==> node.path.value == prefix && node.children == map[])
    && forall k | k in node.children ::
      (node.children[k].path.Some? || node.children[k].children != map[]) && WellGrown(node.children[k], prefix + [k])
  }

  /** One of two different paths lies on the other. */
  predicate Clash(p: Field, q: Field) {
    p != q && (p <= q || q <= p)
  }

  lemma {:induction false} SomePath(node: Trie, prefix: Field) returns (rest: Field)
    requires WellGrown(node, prefix) && (node.path.Some? || node.children != map[])
    ensures Has(node, rest)
    decreases node
  {
    if node.path.Some? {
      return [];
    }
    assert node.children.Keys != {};
    var k :| k in node.children;
    var below := SomePath(node.children[k], prefix + [k]);
    rest := [k] + below;
    assert rest[1..] == below;
  }

  lemma OnlyHere(node: Trie)
    ensures node.children == map[] ==> forall q :: Has(node, q) && q != [] ==> false
  {
  }

  lemma ClashBelow(p: Field, q: Field)
    requires p != [] && q != []
    ensures Clash(p, q) <==> p[0] == q[0] && Clash(p[1..], q[1..])
  {
    assert p == [p[0]] + p[1..] && q == [q[0]] + q[1..];
    if p[0] == q[0] {
      assert p <= q <==> p[1..] <= q[1..];
      assert q <= p <==> q[1..] <= p[1..];
    }
  }

  /** The path ends at this node. */
  method EndHere(node: Trie, full: Field) returns (r: Result<Trie>)
    requires WellGrown(node, full)
    ensures r.Ok? ==> WellGrown(r.value, full) && r.value.path.Some?
    ensures r.Ok? ==> forall q :: Has(r.value, q) <==> Has(node, q) || q == []
    ensures r.Fail? <==> exists q :: Has(node, q) && Clash(q, [])
  {
    OnlyHere(node);
    if node.path.Some? {
      return Ok(node);
    }
    if node.children != map[] {
      var q := SomePath(node, full);
      assert q != [] && [] <= q && Clash(q, []);
      return Fail;
    }
    return Ok(node.(path := Some(full)));
  }

  /** Growing a trie by one path fails exactly if the path clashes with one it has. */
  method InsertPath(node: Trie, rest: Field, full: Field, ghost prefix: Field) returns (r: Result<Trie>)
    requires WellGrown(node, prefix) && full == prefix + rest
    ensures r.Ok? ==> WellGrown(r.value, prefix) && (r.value.path.Some? || r.value.children != map[])
    ensures r.Ok? ==> forall q :: Has(r.value, q) <==> Has(node, q) || q == rest
    ensures r.Fail? <==> exists q :: Has(node, q) && Clash(q, rest)
    decreases rest
  {
    if |rest| == 0 {
      assert full == prefix;
      r := EndHere(node, full);
      return;
    }
    if node.path.Some? {
      assert Has(node, []) && Clash([], rest);
      return Fail;
    }
    var k := rest[0];
    var child := if k in node.children then node.children[k] else NO_PATHS;
    assert (prefix + [k]) + rest[1..] == full;
    var below := InsertPath(child, rest[1..], full, prefix + [k]);
    PathsBelow(node, rest, child);
    if below.Fail? {
      return Fail;
    }
    r := Ok(node.(children := node.children[k := below.value]));
    GrownBelow(node, rest, child, below.value, prefix);
  }

  lemma GrownBelow(node: Trie, rest: Field, child: Trie, below: Trie, prefix: Field)
    requires rest != [] && node.path.None? && child == if rest[0] in node.children then node.children[rest[0]] else NO_PATHS
    requires WellGrown(node, prefix) && WellGrown(below, prefix + [rest[0]]) && (below.path.Some? || below.children != map[])
    requires forall q :: Has(below, q) <==> Has(child, q) || q == rest[1..]
    ensures var grown := node.(children := node.children[rest[0] := below]);
      WellGrown(grown, prefix) && grown.children != map[] && forall q :: Has(grown, q) <==> Has(node, q) || q == rest
  {
    var grown := node.(children := node.children[rest[0] := below]);
    assert rest[0] in grown.children;
    forall q ensures Has(grown, q) <==> Has(node, q) || q == rest {
      if q != [] && q[0] == rest[0] {
        assert q == [q[0]] + q[1..] && rest == [rest[0]] + rest[1..];
      }
    }
  }

  /** The clashes of a path with the paths of a node are those below the child it goes through. */
  lemma PathsBelow(node: Trie, rest: Field, child: Trie)
    requires rest != [] && node.path.None? && child == if rest[0] in node.children then node.children[rest[0]] else NO_PATHS
    ensures (exists q :: Has(node, q) && Clash(q, rest)) <==> (exists q :: Has(child, q) && Clash(q, rest[1..]))
  {
    if q :| Has(node, q) && Clash(q, rest) {
      ClashBelow(q, rest);
      assert Has(child, q[1..]) && Clash(q[1..], rest[1..]);
    }
    if q :| Has(child, q) && Clash(q, rest[1..]) {
      var whole := [rest[0]] + q;
      assert whole[1..] == q;
      ClashBelow(whole, rest);
      assert Has(node, whole);
    }
  }

  // ----- array indices -----

  /** The array index a child's token stands for, if it is one the trie serves. */
  function ServedIndex(token: string): Option<int> {
    match Atoi(token)
    case Some(i) => if 0 <= i <= MAX_INDEX then Some(i) else None
    case None => None
  }

  /** In the document a token names an element if it writes its index, signed or not. */
  lemma ServedIndexReadsDecimals(token: string, i: int)
    ensures ServedIndex(token) == Some(i) <==> 0 <= i <= MAX_INDEX && Writes(token, i)
  {
    hide Atoi, Writes;
    AtoiReadsDecimals(token, i);
    if ServedIndex(token).Some? {
      AtoiReadsDecimals(token, ServedIndex(token).value);
    }
  }

  /** Throughout, no two siblings stand for one index, and the index table finds every child that stands for one. */
  predicate Indexed(node: Trie)
    decreases node
  {
    && (forall k | k in node.children :: Indexed(node.children[k]))
    && (forall k | k in node.children :: ServedIndex(k).Some? ==> ServedIndex(k).value in node.byIndex && node.byIndex[ServedIndex(k).value] == k)
    && (forall i | i in node.byIndex :: node.byIndex[i] in node.children && ServedIndex(node.byIndex[i]) == Some(i))
  }

  /** Somewhere two siblings stand for one index. */
  predicate SharesIndex(node: Trie)
    decreases node
  {
    || (exists k, l | k in node.children && l in node.children :: k != l && ServedIndex(k).Some? && ServedIndex(k) == ServedIndex(l))
    || (exists k | k in node.children :: SharesIndex(node.children[k]))
  }

  /** Complete the index tables; refused exactly if two siblings stand for one index. */
  method Finalize(node: Trie, ghost prefix: Field) returns (r: Result<Trie>)
    requires WellGrown(node, prefix)
    ensures r.Ok? ==> WellGrown(r.value, prefix) && Indexed(r.value) && r.value.path == node.path && r.value.children.Keys == node.children.Keys
    ensures r.Ok? ==> forall q :: Has(r.value, q) <==> Has(node, q)
    ensures r.Fail? ==> SharesIndex(node)
    decreases node
  {
    hide Has, ServedIndex, WellGrown, Indexed, TableOk, ChildOk, SharesIndex;
    var children: map<string, Trie> := map[];
    var byIndex: map<int, string> := map[];
    var keys := node.children.Keys;
    NothingIndexed();
    while keys != {}
      invariant keys <= node.children.Keys && children.Keys == node.children.Keys - keys
      invariant forall k :: k in children ==> ChildOk(node.children[k], children[k], prefix + [k])
      invariant TableOk(children, byIndex)
      decreases keys
    {
      var k :| k in keys;
      keys := keys - {k};
      ChildGrown(node, prefix, k);
      var child := Finalize(node.children[k], prefix + [k]);
      if child.Fail? {
        SharedBelow(node, k);
        return Fail;
      }
      ChildIsOk(node.children[k], child.value, prefix + [k]);
      var index := ServedIndex(k);
      if index.Some? && index.value in byIndex {
        SharedSiblings(node, children, byIndex, k);
        return Fail;
      }
      TableGrows(children, byIndex, k, child.value);
      children := children[k := child.value];
      if index.Some? {
        byIndex := byIndex[index.value := k];
      }
    }
    r := Ok(Trie(node.path, children, byIndex));
    FinalizedHas(node, r.value, prefix);
    FinalizedGrown(node, r.value, prefix);
    FinalizedIndexed(node, r.value, prefix);
  }

  lemma NothingIndexed()
    ensures TableOk(map[], map[])
  {
  }

  lemma ChildGrown(node: Trie, prefix: Field, k: string)
    requires WellGrown(node, prefix) && k in node.children
    ensures WellGrown(node.children[k], prefix + [k])
  {
  }

  lemma ChildIsOk(before: Trie, after: Trie, prefix: Field)
    requires WellGrown(after, prefix) && Indexed(after) && after.path == before.path && after.children.Keys == before.children.Keys
    requires forall q :: Has(after, q) <==> Has(before, q)
    ensures ChildOk(before, after, prefix)
  {
  }

  lemma SharedBelow(node: Trie, k: string)
    requires k in node.children && SharesIndex(node.children[k])
    ensures SharesIndex(node)
  {
  }

  lemma SharedSiblings(node: Trie, children: map<string, Trie>, byIndex: map<int, string>, k: string)
    requires TableOk(children, byIndex) && children.Keys <= node.children.Keys && k in node.children && k !in children
    requires ServedIndex(k).Some? && ServedIndex(k).value in byIndex
    ensures SharesIndex(node)
  {
    var l := byIndex[ServedIndex(k).value];
    assert l in node.children && k != l && ServedIndex(k) == ServedIndex(l);
  }

  lemma TableGrows(children: map<string, Trie>, byIndex: map<int, string>, k: string, child: Trie)
    requires TableOk(children, byIndex) && k !in children && (ServedIndex(k).Some? ==> ServedIndex(k).value !in byIndex)
    ensures TableOk(children[k := child], if ServedIndex(k).Some? then byIndex[ServedIndex(k).value := k] else byIndex)
  {
    hide ServedIndex;
  }

  lemma FinalizedIndexed(node: Trie, done: Trie, prefix: Field)
    requires AllChildrenOk(node, done, prefix) && TableOk(done.children, done.byIndex)
    ensures Indexed(done)
  {
    hide ServedIndex, Has, WellGrown;
    forall k | k in done.children ensures Indexed(done.children[k]) {
      assert ChildOk(node.children[k], done.children[k], prefix + [k]);
    }
  }

  /** The finished child has the same paths, in good shape. */
  ghost predicate ChildOk(before: Trie, after: Trie, prefix: Field) {
    && WellGrown(after, prefix) && Indexed(after) && after.path == before.path && after.children.Keys == before.children.Keys
    && forall q :: Has(after, q) <==> Has(before, q)
  }

  ghost predicate TableOk(children: map<string, Trie>, byIndex: map<int, string>) {
    && (forall k | k in children :: ServedIndex(k).Some? ==> ServedIndex(k).value in byIndex && byIndex[ServedIndex(k).value] == k)
    && (forall i | i in byIndex :: byIndex[i] in children && ServedIndex(byIndex[i]) == Some(i))
  }

  ghost predicate AllChildrenOk(node: Trie, done: Trie, prefix: Field) {
    && done.path == node.path && done.children.Keys == node.children.Keys
    && forall k :: k in done.children ==> ChildOk(node.children[k], done.children[k], prefix + [k])
  }

  lemma FinalizedHas(node: Trie, done: Trie, prefix: Field)
    requires AllChildrenOk(node, done, prefix)
    ensures forall q :: Has(done, q) <==> Has(node, q)
  {
    hide WellGrown, Indexed;
    forall q ensures Has(done, q) <==> Has(node, q) {
      if q != [] && q[0] in done.children {
        assert ChildOk(node.children[q[0]], done.children[q[0]], prefix + [q[0]]);
      }
    }
  }

  lemma FinalizedGrown(node: Trie, done: Trie, prefix: Field)
    requires WellGrown(node, prefix) && AllChildrenOk(node, done, prefix)
    ensures WellGrown(done, prefix)
  {
    hide Has, Indexed;
    SameKeysEmpty(node, done);
    forall k | k in done.children
      ensures (done.children[k].path.Some? || done.children[k].children != map[]) && WellGrown(done.children[k], prefix + [k])
    {
      assert ChildOk(node.children[k], done.children[k], prefix + [k]);
      SameKeysEmpty(node.children[k], done.children[k]);
    }
  }

  lemma SameKeysEmpty(a: Trie, b: Trie)
    requires a.children.Keys == b.children.Keys
    ensures a.children == map[] <==> b.children == map[]
  {
    assert a.children == map[] <==> a.children.Keys == {};
    assert b.children == map[] <==> b.children.Keys == {};
  }

  /** Different paths of a finished trie are apart. */
  lemma {:induction false} PathsAreApart(node: Trie, prefix: Field, p: Field, q: Field)
    requires WellGrown(node, prefix) && Indexed(node) && Has(node, p) && Has(node, q) && p != q
    ensures Apart(p, q)
    decreases p
  {
    OnlyHere(node);
    if p[0] == q[0] {
      assert p == [p[0]] + p[1..] && q == [q[0]] + q[1..];
      PathsAreApart(node.children[p[0]], prefix + [p[0]], p[1..], q[1..]);
    }
  }

  // ----- building -----

  /** The paths cannot be projected together: one is the root, one lies on another, or two meet at an array index. */
  ghost predicate Conflict(paths: seq<Field>) {
    || [] in paths
    || (exists p, q :: p in paths && q in paths && Clash(p, q))
    || (exists p, q, n: nat :: p in paths && q in paths && MeetAt(p, q, n))
  }

  /** After a common beginning two different tokens stand for one array index. */
  ghost predicate MeetAt(p: Field, q: Field, n: nat) {
    n < |p| && n < |q| && p[..n] == q[..n] && p[n] != q[n] && ServedIndex(p[n]).Some? && ServedIndex(p[n]) == ServedIndex(q[n])
  }

  lemma {:induction false} SharedIndexMeets(node: Trie, prefix: Field) returns (p: Field, q: Field, n: nat)
    requires WellGrown(node, prefix) && SharesIndex(node)
    ensures Has(node, p) && Has(node, q) && MeetAt(p, q, n)
    decreases node
  {
    if k, l :| k in node.children && l in node.children && k != l && ServedIndex(k).Some? && ServedIndex(k) == ServedIndex(l) {
      var below := SomePath(node.children[k], prefix + [k]);
      var other := SomePath(node.children[l], prefix + [l]);
      p, q, n := [k] + below, [l] + other, 0;
      assert p[1..] == below && q[1..] == other && p[..0] == q[..0];
    } else {
      var k :| k in node.children && SharesIndex(node.children[k]);
      p, q, n := SharedIndexMeets(node.children[k], prefix + [k]);
      MeetBelow(k, p, q, n);
      assert ([k] + p)[1..] == p && ([k] + q)[1..] == q;
      p, q, n := [k] + p, [k] + q, n + 1;
    }
  }

  lemma MeetBelow(k: string, p: Field, q: Field, n: nat)
    ensures MeetAt([k] + p, [k] + q, n + 1) <==> MeetAt(p, q, n)
  {
    if n < |p| && n < |q| {
      assert ([k] + p)[..n + 1] == [k] + p[..n] && ([k] + q)[..n + 1] == [k] + q[..n];
      assert ([k] + p[..n])[1..] == p[..n] && ([k] + q[..n])[1..] == q[..n];
    }
  }

  /** Paths of one finished trie never meet at an index and never clash. */
  lemma {:induction false} NoConflictInside(node: Trie, prefix: Field, p: Field, q: Field, n: nat)
    requires WellGrown(node, prefix) && Indexed(node) && Has(node, p) && Has(node, q)
    ensures !Clash(p, q) && !MeetAt(p, q, n)
    decreases p
  {
    OnlyHere(node);
    if p != [] && q != [] {
      ClashBelow(p, q);
      assert p == [p[0]] + p[1..] && q == [q[0]] + q[1..];
      if p[0] == q[0] {
        NoConflictInside(node.children[p[0]], prefix + [p[0]], p[1..], q[1..], if n > 0 then n - 1 else 0);
        if n > 0 {
          MeetBelow(p[0], p[1..], q[1..], n - 1);
        }
      } else if n > 0 && n < |p| && n < |q| {
        assert p[..n][0] == p[0] && q[..n][0] == q[0];
      }
    }
  }

  lemma EmptyTrie()
    ensures WellGrown(NO_PATHS, []) && forall q :: !Has(NO_PATHS, q)
  {
  }

  /** The trie has exactly the given paths, and exists exactly if they are free of conflict. */
  method BuildTrie(paths: seq<Field>) returns (r: Result<Trie>)
    ensures r.Ok? ==> WellGrown(r.value, []) && Indexed(r.value) && forall q :: Has(r.value, q) <==> q in paths
    ensures r.Fail? <==> Conflict(paths)
  {
    hide Clash, MeetAt, WellGrown, Indexed, SharesIndex;
    var root := NO_PATHS;
    EmptyTrie();
    for i := 0 to |paths|
      invariant WellGrown(root, []) && root.path.None? && forall q :: Has(root, q) <==> q in paths[..i]
    {
      if |paths[i]| == 0 {
        assert paths[i] in paths;
        return Fail;
      }
      assert [] + paths[i] == paths[i];
      assert paths[..i + 1] == paths[..i] + [paths[i]];
      var grown := InsertPath(root, paths[i], paths[i], []);
      if grown.Fail? {
        var q :| Has(root, q) && Clash(q, paths[i]);
        assert q in paths && paths[i] in paths;
        return Fail;
      }
      root := grown.value;
      assert !Has(root, []);
    }
    assert paths[..|paths|] == paths;
    r := Finalize(root, []);
    if r.Fail? {
      var p, q, n := SharedIndexMeets(root, []);
    } else {
      NoConflictInPaths(r.value, paths);
    }
  }

  lemma NoConflictInPaths(node: Trie, paths: seq<Field>)
    requires WellGrown(node, []) && Indexed(node) && node.path.None? && forall q :: Has(node, q) <==> q in paths
    ensures !Conflict(paths)
  {
    assert !Has(node, []);
    forall p, q | p in paths && q in paths ensures !Clash(p, q) {
      NoConflictInside(node, [], p, q, 0);
    }
    forall p, q, n: nat | p in paths && q in paths ensures !MeetAt(p, q, n) {
      NoConflictInside(node, [], p, q, n);
    }
  }

  // ----- what a scan finds -----

  /** The value a path leads to: object members by name, array elements by index. */
  function Resolve(j: Json, path: Field): Option<Json>
    decreases path
  {
    if path == [] then Some(j)
    else match j
      case Obj(m) => if path[0] in m then Resolve(m[path[0]], path[1..]) else None
      case Arr(items) =>
        (match ServedIndex(path[0])
         case Some(i) => if i < |items| then Resolve(items[i], path[1..]) else None
         case None => None)
      case _ => None
  }

  /** A token names a member by its key and an element by writing its index. */
  ghost predicate Names(token: string, s: Segment) {
    match s
    case Key(k) => k == token
    case Index(i) => i <= MAX_INDEX && Writes(token, i)
  }

  ghost predicate NamesPath(p: Field, q: Path) {
    |p| == |q| && forall i :: 0 <= i < |p| ==> Names(p[i], q[i])
  }

  lemma NamedChild(j: Json, token: string, s: Segment)
    requires Names(token, s) && Child(j, s).Some?
    ensures j.Obj? ==> token in j.members && j.members[token] == Child(j, s).value
    ensures j.Arr? ==> s.Index? && ServedIndex(token) == Some(s.index) && s.index < |j.items| && j.items[s.index] == Child(j, s).value
    ensures j.Obj? || j.Arr?
  {
    hide Writes;
    if s.Index? {
      ServedIndexReadsDecimals(token, s.index);
    }
  }

  /** A path resolves to what stands at a path it names. */
  lemma {:induction false} NamedResolves(j: Json, p: Field, q: Path)
    requires NamesPath(p, q) && At(j, q).Some?
    ensures Resolve(j, p) == At(j, q)
    decreases p
  {
    hide Names;
    if p != [] {
      NamedChild(j, p[0], q[0]);
      assert NamesPath(p[1..], q[1..]);
      NamedResolves(Child(j, q[0]).value, p[1..], q[1..]);
    }
  }

  lemma {:induction false} ResolvedIsNamed(j: Json, p: Field) returns (q: Path)
    requires Resolve(j, p).Some?
    ensures NamesPath(p, q) && At(j, q) == Resolve(j, p)
    decreases p
  {
    hide Writes;
    if p == [] {
      return [];
    }
    var s := if j.Obj? then Key(p[0]) else Index(ServedIndex(p[0]).value);
    if j.Arr? {
      ServedIndexReadsDecimals(p[0], ServedIndex(p[0]).value);
    }
    var below := ResolvedIsNamed(Child(j, s).value, p[1..]);
    q := [s] + below;
  }

  /** Resolving is walking: to the one place that the path's tokens name, if there is one. */
  lemma ResolveIsWalk(j: Json, p: Field, v: Json)
    ensures Resolve(j, p) == Some(v) <==> exists q :: NamesPath(p, q) && At(j, q) == Some(v)
  {
    hide NamesPath, Resolve, At;
    if Resolve(j, p).Some? {
      var q := ResolvedIsNamed(j, p);
    }
    if q :| NamesPath(p, q) && At(j, q) == Some(v) {
      NamedResolves(j, p, q);
    }
  }

  /** The assignments of a scan, in document order. */
  function Found(d: Doc, node: Trie): seq<Assignment>
    requires Indexed(node)
    decreases d
  {
    if node.path.Some? then [Assignment(node.path.value, Decode(d))]
    else match d
      case DObj(members) => FoundMembers(members, node)
      case DArr(items) => FoundItems(items, node)
      case _ => []
  }

  function FoundMembers(members: seq<Member>, node: Trie): seq<Assignment>
    requires Indexed(node)
    decreases members
  {
    if members == [] then []
    else
      var n := |members| - 1;
      FoundMembers(members[..n], node) +
      (if members[n].key in node.children then Found(members[n].value, node.children[members[n].key]) else [])
  }

  function FoundItems(items: seq<Doc>, node: Trie): seq<Assignment>
    requires Indexed(node)
    decreases items
  {
    if items == [] then []
    else
      var n := |items| - 1;
      FoundItems(items[..n], node) + (if n in node.byIndex then Found(items[n], node.children[node.byIndex[n]]) else [])
  }

  /** The path of an assignment is one the node has, and resolves to the value. */
  ghost predicate Resolves(a: Assignment, d: Doc, node: Trie, prefix: Field) {
    |prefix| <= |a.path| && a.path[..|prefix|] == prefix && Has(node, a.path[|prefix|..]) &&
    Resolve(Decode(d), a.path[|prefix|..]) == Some(a.value)
  }

  lemma ResolvesBelow(a: Assignment, d: Doc, node: Trie, prefix: Field, k: string, child: Doc)
    requires k in node.children
    requires forall rest :: Resolve(Decode(d), [k] + rest) == Resolve(Decode(child), rest)
    ensures Resolves(a, child, node.children[k], prefix + [k]) <==>
      Resolves(a, d, node, prefix) && |a.path| > |prefix| && a.path[|prefix|] == k
  {
    if |a.path| > |prefix| && a.path[|prefix|] == k {
      assert a.path[..|prefix| + 1] == a.path[..|prefix|] + [k];
      assert a.path[|prefix|..] == [k] + a.path[|prefix| + 1..];
      assert a.path[|prefix|..][1..] == a.path[|prefix| + 1..];
    }
    if |a.path| > |prefix| && a.path[..|prefix| + 1] == prefix + [k] {
      assert (prefix + [k])[..|prefix|] == prefix && a.path[..|prefix| + 1][..|prefix|] == a.path[..|prefix|];
      assert a.path[..|prefix| + 1][|prefix|] == k;
    }
  }

  lemma {:induction false} FoundMembersAre(members: seq<Member>, node: Trie, a: Assignment)
    requires Indexed(node)
    ensures a in FoundMembers(members, node) <==>
      exists i :: 0 <= i < |members| && members[i].key in node.children && a in Found(members[i].value, node.children[members[i].key])
    decreases |members|
  {
    hide Found;
    if members != [] {
      var n := |members| - 1;
      FoundMembersAre(members[..n], node, a);
      assert forall i :: 0 <= i < n ==> members[..n][i] == members[i];
    }
  }

  predicate FoundInItem(items: seq<Doc>, node: Trie, a: Assignment, i: int)
    requires Indexed(node)
  {
    0 <= i < |items| && i in node.byIndex && a in Found(items[i], node.children[node.byIndex[i]])
  }

  lemma {:induction false} FoundItemsAre(items: seq<Doc>, node: Trie, a: Assignment)
    requires Indexed(node)
    ensures a in FoundItems(items, node) <==> exists i :: FoundInItem(items, node, a, i)
    decreases |items|
  {
    if items != [] {
      FoundItemsAre(items[..|items| - 1], node, a);
      FoundInFront(items, node, a);
    }
  }

  lemma FoundInFront(items: seq<Doc>, node: Trie, a: Assignment)
    requires Indexed(node) && items != []
    ensures var n := |items| - 1;
      && (forall i :: FoundInItem(items[..n], node, a, i) <==> i != n && FoundInItem(items, node, a, i))
      && (a in FoundItems(items, node) <==> a in FoundItems(items[..n], node) || FoundInItem(items, node, a, n))
  {
    hide Found;
    var n := |items| - 1;
    forall i ensures FoundInItem(items[..n], node, a, i) <==> i != n && FoundInItem(items, node, a, i) {
      assert 0 <= i < n ==> items[..n][i] == items[i];
    }
  }

  /** A scan finds exactly the paths of the trie that resolve, with their values. */
  lemma {:induction false} FoundResolves(d: Doc, node: Trie, prefix: Field, a: Assignment)
    requires UniqueKeys(d) && WellGrown(node, prefix) && Indexed(node)
    ensures a in Found(d, node) <==> Resolves(a, d, node, prefix)
    decreases d
  {
    OnlyHere(node);
    if node.path.Some? {
      LeafResolves(d, node, prefix, a);
    } else {
      match d
      case DObj(members) => MembersResolve(members, node, prefix, a);
      case DArr(items) => ItemsResolve(items, node, prefix, a);
      case _ =>
    }
  }

  lemma LeafResolves(d: Doc, node: Trie, prefix: Field, a: Assignment)
    requires WellGrown(node, prefix) && node.path.Some?
    ensures a == Assignment(prefix, Decode(d)) <==> Resolves(a, d, node, prefix)
  {
    OnlyHere(node);
    if Resolves(a, d, node, prefix) {
      assert a.path[|prefix|..] == [];
      assert a.path == a.path[..|prefix|] + a.path[|prefix|..];
    }
    assert prefix[..|prefix|] == prefix && prefix[|prefix|..] == [];
  }

  lemma {:induction false} MembersResolve(members: seq<Member>, node: Trie, prefix: Field, a: Assignment)
    requires UniqueKeys(DObj(members)) && WellGrown(node, prefix) && Indexed(node) && node.path.None?
    ensures a in FoundMembers(members, node) <==> Resolves(a, DObj(members), node, prefix)
    decreases DObj(members), 0
  {
    var d := DObj(members);
    FoundMembersAre(members, node, a);
    forall i | 0 <= i < |members| && members[i].key in node.children
      ensures a in Found(members[i].value, node.children[members[i].key]) <==>
        Resolves(a, d, node, prefix) && |a.path| > |prefix| && a.path[|prefix|] == members[i].key
    {
      FoundResolves(members[i].value, node.children[members[i].key], prefix + [members[i].key], a);
      DecodeMember(members, i);
      ResolvesThroughMember(members, i);
      ResolvesBelow(a, d, node, prefix, members[i].key, members[i].value);
    }
    if Resolves(a, d, node, prefix) {
      var rest := a.path[|prefix|..];
      assert rest != [] && rest[0] in node.children && rest[0] in DecodeMembers(members);
      var i :| 0 <= i < |members| && members[i].key == rest[0];
      assert a.path[|prefix|] == rest[0];
    }
  }

  lemma ResolvesThroughMember(members: seq<Member>, i: nat)
    requires i < |members| && DistinctKeys(members)
    ensures forall rest :: Resolve(Decode(DObj(members)), [members[i].key] + rest) == Resolve(Decode(members[i].value), rest)
  {
    DecodeMember(members, i);
    forall rest ensures Resolve(Decode(DObj(members)), [members[i].key] + rest) == Resolve(Decode(members[i].value), rest) {
      assert ([members[i].key] + rest)[1..] == rest;
    }
  }

  lemma ResolvesThroughItem(items: seq<Doc>, i: nat, token: string)
    requires i < |items| && ServedIndex(token) == Some(i)
    ensures forall rest :: Resolve(Decode(DArr(items)), [token] + rest) == Resolve(Decode(items[i]), rest)
  {
    forall rest ensures Resolve(Decode(DArr(items)), [token] + rest) == Resolve(Decode(items[i]), rest) {
      assert ([token] + rest)[1..] == rest;
    }
  }

  lemma {:induction false} ItemsResolve(items: seq<Doc>, node: Trie, prefix: Field, a: Assignment)
    requires UniqueKeys(DArr(items)) && WellGrown(node, prefix) && Indexed(node) && node.path.None?
    ensures a in FoundItems(items, node) <==> Resolves(a, DArr(items), node, prefix)
    decreases DArr(items), 0
  {
    var d := DArr(items);
    FoundItemsAre(items, node, a);
    forall i | 0 <= i < |items| && i in node.byIndex
      ensures FoundInItem(items, node, a, i) <==>
        Resolves(a, d, node, prefix) && |a.path| > |prefix| && a.path[|prefix|] == node.byIndex[i]
    {
      FoundResolves(items[i], node.children[node.byIndex[i]], prefix + [node.byIndex[i]], a);
      ResolvesThroughItem(items, i, node.byIndex[i]);
      ResolvesBelow(a, d, node, prefix, node.byIndex[i], items[i]);
    }
    if Resolves(a, d, node, prefix) {
      var rest := a.path[|prefix|..];
      assert rest != [] && rest[0] in node.children && ServedIndex(rest[0]).Some?;
      var i := ServedIndex(rest[0]).value;
      assert i in node.byIndex && node.byIndex[i] == rest[0] && a.path[|prefix|] == rest[0];
      assert FoundInItem(items, node, a, i);
    }
  }

  // ----- each path once -----

  ghost predicate DistinctPaths(todo: seq<Assignment>) {
    forall i, j :: 0 <= i < j < |todo| ==> todo[i].path != todo[j].path
  }

  lemma DistinctAppend(xs: seq<Assignment>, ys: seq<Assignment>)
    requires DistinctPaths(xs) && DistinctPaths(ys) && forall x, y :: x in xs && y in ys ==> x.path != y.path
    ensures DistinctPaths(xs + ys)
  {
    forall i, j | 0 <= i < j < |xs + ys| ensures (xs + ys)[i].path != (xs + ys)[j].path {
      if i < |xs| <= j {
        assert xs[i] in xs && ys[j - |xs|] in ys;
      }
    }
  }

  lemma {:induction false} FoundOnce(d: Doc, node: Trie, prefix: Field)
    requires UniqueKeys(d) && WellGrown(node, prefix) && Indexed(node)
    ensures DistinctPaths(Found(d, node))
    decreases d
  {
    if node.path.None? {
      match d
      case DObj(members) => MembersFoundOnce(members, node, prefix);
      case DArr(items) => ItemsFoundOnce(items, node, prefix);
      case _ =>
    }
  }

  lemma {:induction false} MembersFoundOnce(members: seq<Member>, node: Trie, prefix: Field)
    requires UniqueKeys(DObj(members)) && WellGrown(node, prefix) && Indexed(node) && node.path.None?
    ensures DistinctPaths(FoundMembers(members, node))
    decreases members, 0
  {
    if members != [] {
      var n := |members| - 1;
      var front, last := members[..n], members[n];
      MembersFoundOnce(front, node, prefix);
      if last.key in node.children {
        FoundOnce(last.value, node.children[last.key], prefix + [last.key]);
        forall x, y | x in FoundMembers(front, node) && y in Found(last.value, node.children[last.key]) ensures x.path != y.path {
          FoundMembersAre(front, node, x);
          var i :| 0 <= i < n && front[i].key in node.children && x in Found(front[i].value, node.children[front[i].key]);
          FoundResolves(front[i].value, node.children[front[i].key], prefix + [front[i].key], x);
          FoundResolves(last.value, node.children[last.key], prefix + [last.key], y);
          TokenOf(x, front[i].value, node.children[front[i].key], prefix, front[i].key);
          TokenOf(y, last.value, node.children[last.key], prefix, last.key);
          FrontDistinct(members, n);
        }
        DistinctAppend(FoundMembers(front, node), Found(last.value, node.children[last.key]));
      } else {
        assert FoundMembers(members, node) == FoundMembers(front, node);
      }
    }
  }

  lemma TokenOf(a: Assignment, d: Doc, node: Trie, prefix: Field, k: string)
    requires Resolves(a, d, node, prefix + [k])
    ensures |a.path| > |prefix| && a.path[|prefix|] == k
  {
    assert a.path[..|prefix| + 1][|prefix|] == k;
  }

  lemma {:induction false} ItemsFoundOnce(items: seq<Doc>, node: Trie, prefix: Field)
    requires UniqueKeys(DArr(items)) && WellGrown(node, prefix) && Indexed(node) && node.path.None?
    ensures DistinctPaths(FoundItems(items, node))
    decreases items, 0
  {
    if items != [] {
      var n := |items| - 1;
      var front, last := items[..n], items[n];
      ItemsFoundOnce(front, node, prefix);
      if n in node.byIndex {
        var k := node.byIndex[n];
        FoundOnce(last, node.children[k], prefix + [k]);
        forall x, y | x in FoundItems(front, node) && y in Found(last, node.children[k]) ensures x.path != y.path {
          FoundItemsAre(front, node, x);
          var i :| FoundInItem(front, node, x, i);
          FoundResolves(front[i], node.children[node.byIndex[i]], prefix + [node.byIndex[i]], x);
          FoundResolves(last, node.children[k], prefix + [k], y);
          TokenOf(x, front[i], node.children[node.byIndex[i]], prefix, node.byIndex[i]);
          TokenOf(y, last, node.children[k], prefix, k);
        }
        DistinctAppend(FoundItems(front, node), Found(last, node.children[k]));
      } else {
        assert FoundItems(items, node) == FoundItems(front, node);
      }
    }
  }

  // ----- the scan -----

  lemma {:induction false} AssignAllAppend(node: Option<Out>, xs: seq<Assignment>, ys: seq<Assignment>)
    ensures var first := AssignAll(node, xs);
      AssignAll(node, xs + ys) == if first.Fail? then Fail else AssignAll(first.value, ys)
    decreases xs
  {
    if xs == [] {
      assert xs + ys == ys;
    } else {
      assert (xs + ys)[1..] == xs[1..] + ys;
      var first := Assign(node, xs[0].path, xs[0].value);
      if first.Ok? {
        AssignAllAppend(Some(first.value), xs[1..], ys);
      }
    }
  }

  class Projector {
    var outputRoot: Option<Out>
    var found: bool

    constructor ()
      ensures outputRoot == EMPTY_ROOT && !found
    {
      outputRoot, found := EMPTY_ROOT, false;
    }

    /** The scan has made these assignments, or one of them failed. */
    twostate predicate Made(ok: bool, todo: seq<Assignment>)
      reads this
    {
      if ok then AssignAll(old(outputRoot), todo) == Ok(outputRoot) && (found <==> old(found) || todo != [])
      else AssignAll(old(outputRoot), todo).Fail?
    }

    /** A value under a trie node: copied out where a path ends, searched while paths go on, skipped otherwise. */
    method ProjectValue(d: Doc, node: Trie) returns (ok: bool)
      requires Indexed(node)
      modifies this
      ensures Made(ok, Found(d, node))
      decreases d, 1
    {
      if node.path.Some? {
        var next := Assign(outputRoot, node.path.value, Decode(d));
        if next.Fail? {
          return false;
        }
        outputRoot, found := Some(next.value), true;
        return true;
      }
      match d
      case DObj(members) => ok := ProjectObject(members, node);
      case DArr(items) => ok := ProjectArray(items, node);
      case _ => ok := true;
    }

    method ProjectObject(members: seq<Member>, node: Trie) returns (ok: bool)
      requires Indexed(node)
      modifies this
      ensures Made(ok, FoundMembers(members, node))
      decreases members, 0
    {
      for n := 0 to |members|
        invariant Made(true, FoundMembers(members[..n], node))
      {
        MembersStep(members, node, n);
        var key := members[n].key;
        ghost var below := if key in node.children then Found(members[n].value, node.children[key]) else [];
        AssignAllAppend(old(outputRoot), FoundMembers(members[..n], node), below);
        if key in node.children {
          ok := ProjectValue(members[n].value, node.children[key]);
          if !ok {
            MembersFailure(old(outputRoot), members, node, n + 1);
            return;
          }
        }
      }
      assert members[..|members|] == members;
      return true;
    }

    method ProjectArray(items: seq<Doc>, node: Trie) returns (ok: bool)
      requires Indexed(node)
      modifies this
      ensures Made(ok, FoundItems(items, node))
      decreases items, 0
    {
      for n := 0 to |items|
        invariant Made(true, FoundItems(items[..n], node))
      {
        ItemsStep(items, node, n);
        ghost var below := if n in node.byIndex then Found(items[n], node.children[node.byIndex[n]]) else [];
        AssignAllAppend(old(outputRoot), FoundItems(items[..n], node), below);
        if n in node.byIndex {
          ok := ProjectValue(items[n], node.children[node.byIndex[n]]);
          if !ok {
            ItemsFailure(old(outputRoot), items, node, n + 1);
            return;
          }
        }
      }
      assert items[..|items|] == items;
      return true;
    }
  }

  lemma MembersStep(members: seq<Member>, node: Trie, n: nat)
    requires n < |members| && Indexed(node)
    ensures FoundMembers(members[..n + 1], node) == FoundMembers(members[..n], node) +
      (if members[n].key in node.children then Found(members[n].value, node.children[members[n].key]) else [])
  {
    assert members[..n + 1][..n] == members[..n];
  }

  lemma ItemsStep(items: seq<Doc>, node: Trie, n: nat)
    requires n < |items| && Indexed(node)
    ensures FoundItems(items[..n + 1], node) == FoundItems(items[..n], node) +
      (if n in node.byIndex then Found(items[n], node.children[node.byIndex[n]]) else [])
  {
    assert items[..n + 1][..n] == items[..n];
  }

  lemma {:induction false} MembersFailure(start: Option<Out>, members: seq<Member>, node: Trie, n: nat)
    requires n <= |members| && Indexed(node) && AssignAll(start, FoundMembers(members[..n], node)).Fail?
    ensures AssignAll(start, FoundMembers(members, node)).Fail?
    decreases |members| - n
  {
    if n == |members| {
      assert members[..n] == members;
    } else {
      MembersStep(members, node, n);
      AssignAllAppend(start, FoundMembers(members[..n], node),
                      if members[n].key in node.children then Found(members[n].value, node.children[members[n].key]) else []);
      MembersFailure(start, members, node, n + 1);
    }
  }

  lemma {:induction false} ItemsFailure(start: Option<Out>, items: seq<Doc>, node: Trie, n: nat)
    requires n <= |items| && Indexed(node) && AssignAll(start, FoundItems(items[..n], node)).Fail?
    ensures AssignAll(start, FoundItems(items, node)).Fail?
    decreases |items| - n
  {
    if n == |items| {
      assert items[..n] == items;
    } else {
      ItemsStep(items, node, n);
      AssignAllAppend(start, FoundItems(items[..n], node),
                      if n in node.byIndex then Found(items[n], node.children[node.byIndex[n]]) else []);
      ItemsFailure(start, items, node, n + 1);
    }
  }

  // ----- projecting a document -----

  /** The selected paths that resolve in the document, with their values, each once and in any order. */
  ghost predicate Selects(todo: seq<Assignment>, paths: seq<Field>, doc: Json) {
    NoRepeats(todo) && forall a :: a in todo <==> a.path in paths && Resolve(doc, a.path) == Some(a.value)
  }

  /**
   The selected paths that resolve do not fit into one output: one starts with an array index, has one
   that is too large, or two part at an array index and a key.
   */
  ghost predicate Clashes(paths: seq<Field>, doc: Json) {
    || (exists p :: p in paths && Resolve(doc, p).Some? && p != [] && (IndexToken(p[0]).Some? || !InRange(p)))
    || (exists p, q :: p in paths && q in paths && Resolve(doc, p).Some? && Resolve(doc, q).Some? && !SameShape(p, q))
  }

  /** The selected assignments fail exactly if their paths clash. */
  lemma SelectionClashes(trie: Trie, paths: seq<Field>, todo: seq<Assignment>, doc: Json)
    requires WellGrown(trie, []) && Indexed(trie) && (forall q :: Has(trie, q) <==> q in paths) && [] !in paths
    requires Selects(todo, paths, doc)
    ensures AssignAll(EMPTY_ROOT, todo).Fail? <==> Clashes(paths, doc)
  {
    hide Resolve, SameShape, InRange, Fits;
    SelectedApart(trie, paths, todo, doc);
    AssignedIfAllFit(EMPTY_ROOT, todo);
    forall i | 0 <= i < |todo|
      ensures todo[i].path in paths && Resolve(doc, todo[i].path).Some? && todo[i].path != []
      ensures Fits(EMPTY_ROOT, todo[i].path) <==> IndexToken(todo[i].path[0]).None? && InRange(todo[i].path)
    {
      assert todo[i] in todo;
      FitsTheRoot(todo[i].path);
    }
    if Clashes(paths, doc) && AllFit(EMPTY_ROOT, todo) {
      if p :| p in paths && Resolve(doc, p).Some? && p != [] && (IndexToken(p[0]).Some? || !InRange(p)) {
        var i := SelectedAt(paths, todo, doc, p);
        assert false;
      } else {
        var p, q :| p in paths && q in paths && Resolve(doc, p).Some? && Resolve(doc, q).Some? && !SameShape(p, q);
        var i := SelectedAt(paths, todo, doc, p);
        var j := SelectedAt(paths, todo, doc, q);
        ShapeIsSymmetric(p, q);
        ShapeIsReflexive(p);
        assert false;
      }
    }
  }

  lemma SelectedAt(paths: seq<Field>, todo: seq<Assignment>, doc: Json, p: Field) returns (i: nat)
    requires Selects(todo, paths, doc) && p in paths && Resolve(doc, p).Some?
    ensures i < |todo| && todo[i].path == p
  {
    var a := Assignment(p, Resolve(doc, p).value);
    assert a in todo;
    i :| i < |todo| && todo[i] == a;
  }

  lemma {:induction false} ShapeIsSymmetric(p: Field, q: Field)
    ensures SameShape(p, q) <==> SameShape(q, p)
    decreases p
  {
    if p != [] && q != [] {
      ShapeIsSymmetric(p[1..], q[1..]);
    }
  }

  lemma {:induction false} ShapeIsReflexive(p: Field)
    ensures SameShape(p, p)
    decreases p
  {
    if p != [] {
      ShapeIsReflexive(p[1..]);
    }
  }

  /** What the scan finds is a selection. */
  lemma FoundSelects(d: Doc, trie: Trie, paths: seq<Field>)
    requires UniqueKeys(d) && WellGrown(trie, []) && Indexed(trie) && forall q :: Has(trie, q) <==> q in paths
    ensures Selects(Found(d, trie), paths, Decode(d))
  {
    hide Resolve, Found;
    var log := Found(d, trie);
    FoundOnce(d, trie, []);
    forall a ensures a in log <==> a.path in paths && Resolve(Decode(d), a.path) == Some(a.value) {
      FoundResolves(d, trie, [], a);
      assert a.path[..0] == [] && a.path[0..] == a.path;
    }
    assert NoRepeats(log);
  }

  /** What a scan makes of a finished trie is what any order of the selected assignments makes. */
  lemma ScanIsSelection(d: Doc, trie: Trie, paths: seq<Field>, todo: seq<Assignment>)
    requires UniqueKeys(d) && WellGrown(trie, []) && Indexed(trie) && forall q :: Has(trie, q) <==> q in paths
    requires Selects(todo, paths, Decode(d))
    ensures AssignAll(EMPTY_ROOT, todo) == AssignAll(EMPTY_ROOT, Found(d, trie))
    ensures todo == [] <==> Found(d, trie) == []
  {
    var log := Found(d, trie);
    FoundOnce(d, trie, []);
    forall a ensures a in log <==> a in todo {
      FoundResolves(d, trie, [], a);
      assert a.path[..0] == [] && a.path[0..] == a.path;
    }
    SelectedApart(trie, paths, todo, Decode(d));
    assert forall i :: 0 <= i < |log| ==> log[i] in todo;
    SelectedApart(trie, paths, log, Decode(d));
    OrderIsIrrelevant(EMPTY_ROOT, todo, log);
    assert todo != [] ==> todo[0] in log;
    assert log != [] ==> log[0] in todo;
  }

  lemma SelectedApart(trie: Trie, paths: seq<Field>, todo: seq<Assignment>, doc: Json)
    requires WellGrown(trie, []) && Indexed(trie) && forall q :: Has(trie, q) <==> q in paths
    requires NoRepeats(todo) && forall a :: a in todo ==> a.path in paths && Resolve(doc, a.path) == Some(a.value)
    ensures PairwiseApart(todo)
  {
    forall i, j | 0 <= i < j < |todo| ensures Apart(todo[i].path, todo[j].path) {
      assert todo[i] in todo && todo[j] in todo && todo[i] != todo[j];
      PathsAreApart(trie, [], todo[i].path, todo[j].path);
    }
  }

  /** Whether anything was selected, and the output it was put into; nothing is written if not. */
  datatype Projected = Projected(found: bool, root: Out)

  /** The output holds the selected values at their places, and nothing that is not on the way to one. */
  ghost predicate HoldsSelection(root: Out, paths: seq<Field>, doc: Json) {
    && (forall q, v :: OutAt(Some(root), q) == Some(Leaf(v)) <==> Selected(paths, doc, q, v))
    && (forall q :: q != [] && OutAt(Some(root), q).Some? ==> exists p :: p in paths && Resolve(doc, p).Some? && q <= Spots(p))
    && NoTrailingHoles(root)
  }

  /** A selected path leads there in the output, and to the value in the document. */
  ghost predicate Selected(paths: seq<Field>, doc: Json, q: Path, v: Json) {
    exists p :: p in paths && Spots(p) == q && Resolve(doc, p) == Some(v)
  }

  lemma SelectionIsHeld(todo: seq<Assignment>, paths: seq<Field>, doc: Json)
    requires Selects(todo, paths, doc) && PairwiseApart(todo) && AssignAll(EMPTY_ROOT, todo).Ok?
    ensures AssignAll(EMPTY_ROOT, todo).value.Some? && HoldsSelection(AssignAll(EMPTY_ROOT, todo).value.value, paths, doc)
  {
    hide AssignAll, OutAt, Spots, Resolve, PairwiseApart;
    SomethingStays(EMPTY_ROOT, todo);
    NoHolesAtAll(EMPTY_ROOT, todo);
    var out := AssignAll(EMPTY_ROOT, todo).value;
    forall q, v ensures OutAt(out, q) == Some(Leaf(v)) <==> Selected(paths, doc, q, v) {
      LeavesAreAssigned(todo, q, v);
      if p :| p in paths && Spots(p) == q && Resolve(doc, p) == Some(v) {
        assert Assignment(p, v) in todo;
      }
    }
    forall q | q != [] && OutAt(out, q).Some? ensures exists p :: p in paths && Resolve(doc, p).Some? && q <= Spots(p) {
      var a := OnTheWay(todo, q);
      assert a.path in paths && Resolve(doc, a.path).Some?;
    }
  }

  /**
   Project the selected paths of an object in one scan. Where it succeeds the output holds the
   value of every path that resolves in the document, at that path's place, and nothing else, as
   assigning them in any order does; it fails exactly for no paths, for conflicting ones, for a document that is no object,
   and for resolving paths that clash.
   */
  method ProjectFields(paths: seq<Field>, d: Doc) returns (r: Result<Projected>)
    requires UniqueKeys(d)
    ensures r.Ok? ==> paths != [] && d.DObj? && !Conflict(paths)
    ensures r.Ok? ==> forall todo :: Selects(todo, paths, Decode(d)) ==>
      AssignAll(EMPTY_ROOT, todo) == Ok(Some(r.value.root)) && (r.value.found <==> todo != [])
    ensures r.Ok? ==> HoldsSelection(r.value.root, paths, Decode(d))
    ensures r.Ok? ==> (r.value.found <==> exists p :: p in paths && Resolve(Decode(d), p).Some?)
    ensures r.Fail? <==> paths == [] || Conflict(paths) || !d.DObj? || Clashes(paths, Decode(d))
  {
    if |paths| == 0 {
      return Fail;
    }
    var trie := BuildTrie(paths);
    if trie.Fail? || !d.DObj? {
      return Fail;
    }
    forall todo | Selects(todo, paths, Decode(d))
      ensures AssignAll(EMPTY_ROOT, todo) == AssignAll(EMPTY_ROOT, Found(d, trie.value)) && (todo == [] <==> Found(d, trie.value) == [])
    {
      ScanIsSelection(d, trie.value, paths, todo);
    }
    FoundSelects(d, trie.value, paths);
    SelectionClashes(trie.value, paths, Found(d, trie.value), Decode(d));
    var projector := new Projector();
    var ok := projector.ProjectValue(d, trie.value);
    if !ok {
      return Fail;
    }
    SelectedApart(trie.value, paths, Found(d, trie.value), Decode(d));
    SelectionIsHeld(Found(d, trie.value), paths, Decode(d));
    SomethingIsFound(Found(d, trie.value), paths, Decode(d));
    r := Ok(Projected(projector.found, projector.outputRoot.value));
  }

  lemma SomethingIsFound(todo: seq<Assignment>, paths: seq<Field>, doc: Json)
    requires Selects(todo, paths, doc)
    ensures todo != [] <==> exists p :: p in paths && Resolve(doc, p).Some?
  {
    if todo != [] {
      assert todo[0] in todo;
    }
    if p :| p in paths && Resolve(doc, p).Some? {
      assert Assignment(p, Resolve(doc, p).value) in todo;
    }
  }

  lemma {:induction false} SomethingStays(node: Option<Out>, todo: seq<Assignment>)
    requires node.Some?
    ensures var r := AssignAll(node, todo); r.Ok? ==> r.value.Some?
    decreases todo
  {
    if todo != [] {
      var first := Assign(node, todo[0].path, todo[0].value);
      if first.Ok? {
        SomethingStays(Some(first.value), todo[1..]);
      }
    }
  }

}
