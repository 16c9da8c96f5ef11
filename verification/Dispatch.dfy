/** Tail filters and the index that finds clauses by the last segment of a path. */
module Dispatch {
  import opened Json
  import opened Patterns

  datatype TailFilter = NoFilter | ObjectKey(key: string) | ArrayIndex(index: int) | NumericLiteral(key: string, index: int)

  function PatternTailFilter(pattern: Pattern): TailFilter {
    if pattern == [] then NoFilter
    else match pattern[|pattern| - 1]
      case Literal(raw, arrayOnly, index) => if arrayOnly then NumericLiteral(raw, index) else ObjectKey(raw)
      case _ => NoFilter
  }

  predicate TailMatches(filter: TailFilter, path: Path) {
    if filter.NoFilter? then true
    else if path == [] then false
    else match (filter, path[|path| - 1])
      case (ObjectKey(key), Key(k)) => k == key
      case (ArrayIndex(index), Index(i)) => i == index
      case (NumericLiteral(key, _), Key(k)) => k == key
      case (NumericLiteral(_, index), Index(i)) => i == index
      case _ => false
  }

  /** The filter never rejects a path that the whole pattern accepts. */
  lemma {:induction false} TailFilterIsSound(pattern: Pattern, path: Path)
    requires Matches(pattern, path)
    ensures TailMatches(PatternTailFilter(pattern), path)
    decreases |pattern| + |path|
  {
    if pattern != [] && path != [] {
      if pattern[0].Recursive? {
        if Matches(pattern, path[1..]) {
          TailFilterIsSound(pattern, path[1..]);
        } else if |pattern| > 1 {
          TailFilterIsSound(pattern[1..], path);
        }
      } else if |pattern| > 1 {
        TailFilterIsSound(pattern[1..], path[1..]);
      }
    } else if |pattern| > 1 {
      TailFilterIsSound(pattern[1..], path);
    }
  }

  /** For "..." followed by one plain key the filter is the whole pattern. */
  lemma RecursiveKeyIsTail(key: string, path: Path)
    ensures Matches([Recursive, Literal(key, false, 0)], path) <==> TailMatches(ObjectKey(key), path)
  {
    var pattern := [Recursive, Literal(key, false, 0)];
    assert SingleRecursive(pattern, 0) by {
      assert pattern[1..] == [Literal(key, false, 0)];
    }
    SingleRecursiveSplit(pattern, path, 0);
    assert pattern[1..] == [Literal(key, false, 0)];
    if path != [] {
      assert path[|path| - 1..] == [path[|path| - 1]];
    }
  }

  /** Where the index files a clause. */
  datatype Slot = AnySlot | KeySlot(key: string) | IndexSlot(index: int)

  predicate FiledUnder(filter: TailFilter, slot: Slot) {
    match slot
    case AnySlot => filter.NoFilter?
    case KeySlot(k) => (filter.ObjectKey? || filter.NumericLiteral?) && filter.key == k
    case IndexSlot(i) => (filter.ArrayIndex? || filter.NumericLiteral?) && filter.index == i
  }

  /** The clauses filed under a slot, in the order they were added. */
  function Filed(filters: seq<TailFilter>, slot: Slot): seq<int> {
    if filters == [] then []
    else
      var n := |filters| - 1;
      Filed(filters[..n], slot) + (if FiledUnder(filters[n], slot) then [n] else [])
  }

  lemma {:induction false} FiledIsExact(filters: seq<TailFilter>, slot: Slot)
    ensures forall i :: i in Filed(filters, slot) <==> 0 <= i < |filters| && FiledUnder(filters[i], slot)
    ensures forall i, j :: 0 <= i < j < |Filed(filters, slot)| ==> Filed(filters, slot)[i] < Filed(filters, slot)[j]
  {
    if filters != [] {
      var n := |filters| - 1;
      FiledIsExact(filters[..n], slot);
      var front := Filed(filters[..n], slot);
      assert forall i :: 0 <= i < |front| ==> front[i] in front;
    }
  }

  lemma FiledAppend(filters: seq<TailFilter>, filter: TailFilter, slot: Slot)
    ensures Filed(filters + [filter], slot) == Filed(filters, slot) + (if FiledUnder(filter, slot) then [|filters|] else [])
  {
    assert (filters + [filter])[..|filters|] == filters;
  }

  ghost predicate KeyTableOk(table: map<string, seq<int>>, filters: seq<TailFilter>) {
    forall k :: Lookup(table, k) == Filed(filters, KeySlot(k))
  }

  ghost predicate IndexTableOk(table: map<int, seq<int>>, filters: seq<TailFilter>) {
    forall i :: Lookup(table, i) == Filed(filters, IndexSlot(i))
  }

  lemma KeyTableAdd(table: map<string, seq<int>>, filters: seq<TailFilter>, filter: TailFilter)
    requires KeyTableOk(table, filters)
    ensures if filter.ObjectKey? || filter.NumericLiteral?
      then KeyTableOk(table[filter.key := Lookup(table, filter.key) + [|filters|]], filters + [filter])
      else KeyTableOk(table, filters + [filter])
  {
    forall k ensures Filed(filters + [filter], KeySlot(k)) == Lookup(table, k) + (if FiledUnder(filter, KeySlot(k)) then [|filters|] else []) {
      FiledAppend(filters, filter, KeySlot(k));
    }
  }

  lemma IndexTableAdd(table: map<int, seq<int>>, filters: seq<TailFilter>, filter: TailFilter)
    requires IndexTableOk(table, filters)
    ensures if filter.ArrayIndex? || filter.NumericLiteral?
      then IndexTableOk(table[filter.index := Lookup(table, filter.index) + [|filters|]], filters + [filter])
      else IndexTableOk(table, filters + [filter])
  {
    forall i ensures Filed(filters + [filter], IndexSlot(i)) == Lookup(table, i) + (if FiledUnder(filter, IndexSlot(i)) then [|filters|] else []) {
      FiledAppend(filters, filter, IndexSlot(i));
    }
  }

  function TailSlot(path: Path): Slot
    requires path != []
  {
    match path[|path| - 1]
    case Key(k) => KeySlot(k)
    case Index(i) => IndexSlot(i)
  }

  class DispatchIndex {
    var any: seq<int>
    var byKey: map<string, seq<int>>
    var byIndex: map<int, seq<int>>
    ghost var filters: seq<TailFilter>

    ghost predicate Valid()
      reads this
    {
      && any == Filed(filters, AnySlot)
      && KeyTableOk(byKey, filters) && IndexTableOk(byIndex, filters)
    }

    constructor ()
      ensures Valid() && filters == []
    {
      any, byKey, byIndex := [], map[], map[];
      filters := [];
    }

    /** File the next clause. */
    method Add(filter: TailFilter, clauseIdx: int)
      requires Valid() && clauseIdx == |filters|
      modifies this
      ensures Valid() && filters == old(filters) + [filter]
    {
      hide Filed, KeyTableOk, IndexTableOk;
      FiledAppend(filters, filter, AnySlot);
      KeyTableAdd(byKey, filters, filter);
      IndexTableAdd(byIndex, filters, filter);
      filters := filters + [filter];
      match filter
      case ObjectKey(key) =>
        byKey := byKey[key := Lookup(byKey, key) + [clauseIdx]];
      case ArrayIndex(index) =>
        byIndex := byIndex[index := Lookup(byIndex, index) + [clauseIdx]];
      case NumericLiteral(key, index) =>
        byKey := byKey[key := Lookup(byKey, key) + [clauseIdx]];
        byIndex := byIndex[index := Lookup(byIndex, index) + [clauseIdx]];
      case NoFilter =>
        any := any + [clauseIdx];
    }

    /** The clauses to try at a path: exactly those whose tail filter accepts it, each once. */
    method Candidates(path: Path) returns (specific: seq<int>, unfiltered: seq<int>)
      requires Valid()
      ensures forall i :: i in specific + unfiltered <==> 0 <= i < |filters| && TailMatches(filters[i], path)
      ensures forall i, j :: 0 <= i < j < |specific + unfiltered| ==> (specific + unfiltered)[i] != (specific + unfiltered)[j]
    {
      hide Filed;
      FiledIsExact(filters, AnySlot);
      unfiltered := any;
      if |path| == 0 {
        specific := [];
      } else {
        FiledIsExact(filters, TailSlot(path));
        match path[|path| - 1]
        case Key(k) => specific := Lookup(byKey, k);
        case Index(i) => specific := Lookup(byIndex, i);
      }
      assert forall i :: i in specific ==> i !in unfiltered;
      forall i, j | 0 <= i < j < |specific + unfiltered| ensures (specific + unfiltered)[i] != (specific + unfiltered)[j] {
        if i < |specific| <= j {
          assert specific[i] in specific && unfiltered[j - |specific|] in unfiltered;
        }
      }
    }
  }

  function Lookup<K(==)>(m: map<K, seq<int>>, k: K): seq<int> {
    if k in m then m[k] else []
  }
}
