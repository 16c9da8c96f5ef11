/** The payload of a candidate, piece by piece, and reading it back. */
module Payload {
  import opened Bytes
  import opened Json

  /** The canonical payload of a value, piece by piece. */
  datatype Piece = Mark(mark: char) | Word(word: string) | NumberPiece(literal: Text) | StringPiece(text: Text) | KeyPiece(key: string)

  function Render(d: Doc): seq<Piece> {
    match d
    case DNull => [Word("null")]
    case DBool(b) => [Word(if b then "true" else "false")]
    case DNum(l) => [NumberPiece(l)]
    case DStr(segments) => [StringPiece(Flatten(segments))]
    case DArr(items) => [Mark('[')] + RenderItems(items) + [Mark(']')]
    case DObj(members) => [Mark('{')] + RenderMembers(members) + [Mark('}')]
  }

  function RenderItems(items: seq<Doc>): seq<Piece> {
    if items == [] then []
    else
      var n := |items| - 1;
      RenderItems(items[..n]) + (if n > 0 then [Mark(',')] else []) + Render(items[n])
  }

  function RenderMembers(members: seq<Member>): seq<Piece> {
    if members == [] then []
    else
      var n := |members| - 1;
      RenderMembers(members[..n]) + (if n > 0 then [Mark(',')] else []) + [KeyPiece(members[n].key), Mark(':')] + Render(members[n].value)
  }

  // ----- while a container is scanned -----

  lemma RenderItemsStep(before: seq<Piece>, items: seq<Doc>, n: nat)
    requires n < |items|
    ensures before + RenderItems(items[..n + 1]) ==
      before + RenderItems(items[..n]) + ((if n > 0 then [Mark(',')] else []) + []) + Render(items[n])
  {
    assert items[..n + 1][..n] == items[..n];
  }

  lemma RenderMembersStep(before: seq<Piece>, members: seq<Member>, n: nat)
    requires n < |members|
    ensures before + RenderMembers(members[..n + 1]) ==
      before + RenderMembers(members[..n]) + ((if n > 0 then [Mark(',')] else []) + [KeyPiece(members[n].key), Mark(':')]) + Render(members[n].value)
  {
    assert members[..n + 1][..n] == members[..n];
  }

  lemma RenderObject(before: seq<Piece>, members: seq<Member>)
    ensures before + Render(DObj(members)) == before + [Mark('{')] + (RenderMembers(members) + [Mark('}')])
  {
  }

  // ----- reading a payload back -----

  datatype Reading<+T> = Reading(value: T, rest: seq<Piece>)

  /** The value a payload starts with, and what follows it. */
  function ReadValue(ps: seq<Piece>): (r: Option<Reading<Doc>>)
    ensures r.Some? ==> |r.value.rest| < |ps|
    decreases |ps|, 1
  {
    if ps == [] then None
    else match ps[0]
      case Word(word) =>
        if word == "null" then Some(Reading(DNull, ps[1..]))
        else if word == "true" then Some(Reading(DBool(true), ps[1..]))
        else if word == "false" then Some(Reading(DBool(false), ps[1..]))
        else None
      case NumberPiece(l) => Some(Reading(DNum(l), ps[1..]))
      case StringPiece(t) => Some(Reading(DStr([t]), ps[1..]))
      case Mark(mark) =>
        if mark == '[' then
          match ReadItems(ps[1..], [])
          case Some(Reading(items, rest)) => Some(Reading(DArr(items), rest))
          case None => None
        else if mark == '{' then
          match ReadMembers(ps[1..], [])
          case Some(Reading(members, rest)) => Some(Reading(DObj(members), rest))
          case None => None
        else None
      case KeyPiece(_) => None
  }

  /** Elements up to the closing bracket, after those read already. */
  function ReadItems(ps: seq<Piece>, before: seq<Doc>): (r: Option<Reading<seq<Doc>>>)
    ensures r.Some? ==> |r.value.rest| < |ps|
    decreases |ps|, 2
  {
    if ps != [] && ps[0] == Mark(']') then Some(Reading(before, ps[1..]))
    else if before != [] && (ps == [] || ps[0] != Mark(',')) then None
    else
      match ReadValue(if before != [] then ps[1..] else ps)
      case Some(Reading(item, rest)) => ReadItems(rest, before + [item])
      case None => None
  }

  /** Members up to the closing brace, after those read already. */
  function ReadMembers(ps: seq<Piece>, before: seq<Member>): (r: Option<Reading<seq<Member>>>)
    ensures r.Some? ==> |r.value.rest| < |ps|
    decreases |ps|, 2
  {
    if ps != [] && ps[0] == Mark('}') then Some(Reading(before, ps[1..]))
    else if before != [] && (ps == [] || ps[0] != Mark(',')) then None
    else
      match ReadMember(if before != [] then ps[1..] else ps)
      case Some(Reading(m, rest)) => ReadMembers(rest, before + [m])
      case None => None
  }

  /** A key, a colon and a value. */
  function ReadMember(ps: seq<Piece>): (r: Option<Reading<Member>>)
    ensures r.Some? ==> |r.value.rest| < |ps|
    decreases |ps|, 1
  {
    if |ps| < 2 || !ps[0].KeyPiece? || ps[1] != Mark(':') then None
    else
      match ReadValue(ps[2..])
      case Some(Reading(value, rest)) => Some(Reading(Member(ps[0].key, value), rest))
      case None => None
  }

  /** A payload that is one value and nothing else. */
  function ReadPayload(ps: seq<Piece>): Option<Doc> {
    match ReadValue(ps)
    case Some(Reading(d, rest)) => if rest == [] then Some(d) else None
    case None => None
  }

  /** A value with every string in one segment. */
  function Whole(d: Doc): Doc {
    match d
    case DStr(segments) => DStr([Flatten(segments)])
    case DArr(items) => DArr(WholeItems(items, |items|))
    case DObj(members) => DObj(WholeMembers(members, |members|))
    case _ => d
  }

  function WholeItems(items: seq<Doc>, n: nat): seq<Doc>
    requires n <= |items|
  {
    seq(n, i requires 0 <= i < n => Whole(items[i]))
  }

  function WholeMembers(members: seq<Member>, n: nat): seq<Member>
    requires n <= |members|
  {
    seq(n, i requires 0 <= i < n => Member(members[i].key, Whole(members[i].value)))
  }

  /** It denotes the same tree. */
  lemma {:induction false} WholeDecodes(d: Doc)
    ensures Decode(Whole(d)) == Decode(d)
    decreases d
  {
    match d
    case DStr(segments) =>
      assert Flatten([Flatten(segments)]) == Flatten(segments) + Flatten([]);
    case DArr(items) =>
      forall i | 0 <= i < |items| ensures Decode(Whole(items[i])) == Decode(items[i]) {
        WholeDecodes(items[i]);
      }
      assert Decode(Whole(d)).items == Decode(d).items;
    case DObj(members) =>
      assert members[..|members|] == members;
      WholeMembersDecode(members, |members|);
    case _ =>
  }

  lemma {:induction false} WholeMembersDecode(members: seq<Member>, n: nat)
    requires n <= |members|
    ensures DecodeMembers(WholeMembers(members, n)) == DecodeMembers(members[..n])
    decreases members, n
  {
    if n > 0 {
      WholeMembersDecode(members, n - 1);
      WholeDecodes(members[n - 1].value);
      assert WholeMembers(members, n)[..n - 1] == WholeMembers(members, n - 1);
      assert members[..n][..n - 1] == members[..n - 1];
    }
  }

  /** What goes before the n-th element or member. */
  function Comma(n: nat): seq<Piece> {
    if n > 0 then [Mark(',')] else []
  }

  /** The pieces of the elements from the n-th on. */
  function ItemsFrom(items: seq<Doc>, n: nat): seq<Piece>
    requires n <= |items|
    decreases items, |items| - n
  {
    if n == |items| then []
    else Comma(n) + Render(items[n]) + ItemsFrom(items, n + 1)
  }

  function Entry(m: Member): seq<Piece> {
    [KeyPiece(m.key), Mark(':')] + Render(m.value)
  }

  function MembersFrom(members: seq<Member>, n: nat): seq<Piece>
    requires n <= |members|
    decreases members, |members| - n
  {
    if n == |members| then []
    else Comma(n) + Entry(members[n]) + MembersFrom(members, n + 1)
  }

  lemma Associate(a: seq<Piece>, b: seq<Piece>, c: seq<Piece>, d: seq<Piece>)
    ensures a + (b + c + d) == (a + b + c) + d
    ensures (b + c + d) + a == b + (c + (d + a))
  {
  }

  lemma {:induction false} ItemsInOrder(items: seq<Doc>, n: nat)
    requires n <= |items|
    ensures RenderItems(items[..n]) + ItemsFrom(items, n) == RenderItems(items)
    ensures n == 0 ==> ItemsFrom(items, n) == RenderItems(items)
    decreases |items| - n
  {
    hide Render;
    if n == |items| {
      assert items[..n] == items;
    } else {
      ItemsInOrder(items, n + 1);
      assert items[..n + 1][..n] == items[..n];
      Associate(RenderItems(items[..n]), Comma(n), Render(items[n]), ItemsFrom(items, n + 1));
    }
  }

  lemma {:induction false} MembersInOrder(members: seq<Member>, n: nat)
    requires n <= |members|
    ensures RenderMembers(members[..n]) + MembersFrom(members, n) == RenderMembers(members)
    ensures n == 0 ==> MembersFrom(members, n) == RenderMembers(members)
    decreases |members| - n
  {
    hide Render;
    if n == |members| {
      assert members[..n] == members;
    } else {
      MembersInOrder(members, n + 1);
      MembersGrow(members, n);
      Associate(RenderMembers(members[..n]), Comma(n), Entry(members[n]), MembersFrom(members, n + 1));
    }
  }

  lemma MembersGrow(members: seq<Member>, n: nat)
    requires n < |members|
    ensures RenderMembers(members[..n + 1]) == RenderMembers(members[..n]) + Comma(n) + Entry(members[n])
  {
    hide Render;
    assert members[..n + 1][..n] == members[..n];
  }

  /** A payload is read back as the value it was rendered from, whatever follows. */
  lemma {:induction false} RenderReadsBack(d: Doc, rest: seq<Piece>)
    ensures ReadValue(Render(d) + rest) == Some(Reading(Whole(d), rest))
    decreases d
  {
    match d
    case DArr(items) =>
      ItemsReadBack(items, 0, rest);
      ArrayReadsBack(items, rest);
    case DObj(members) =>
      MembersReadBack(members, 0, rest);
      ObjectReadsBack(members, rest);
    case _ =>
      assert (Render(d) + rest)[0] == Render(d)[0] && (Render(d) + rest)[1..] == rest;
  }

  lemma Opened(open: Piece, inner: seq<Piece>, close: Piece, rest: seq<Piece>)
    ensures ([open] + inner + [close] + rest)[0] == open && ([open] + inner + [close] + rest)[1..] == inner + ([close] + rest)
  {
  }

  lemma ArrayReadsBack(items: seq<Doc>, rest: seq<Piece>)
    requires ReadItems(ItemsFrom(items, 0) + ([Mark(']')] + rest), []) == Some(Reading(WholeItems(items, |items|), rest))
    ensures ReadValue(Render(DArr(items)) + rest) == Some(Reading(Whole(DArr(items)), rest))
  {
    hide RenderItems, ItemsFrom, ReadItems, WholeItems;
    ItemsInOrder(items, 0);
    Opened(Mark('['), RenderItems(items), Mark(']'), rest);
  }

  lemma ObjectReadsBack(members: seq<Member>, rest: seq<Piece>)
    requires ReadMembers(MembersFrom(members, 0) + ([Mark('}')] + rest), []) == Some(Reading(WholeMembers(members, |members|), rest))
    ensures ReadValue(Render(DObj(members)) + rest) == Some(Reading(Whole(DObj(members)), rest))
  {
    hide RenderMembers, MembersFrom, ReadMembers, WholeMembers;
    MembersInOrder(members, 0);
    Opened(Mark('{'), RenderMembers(members), Mark('}'), rest);
  }

  /** No rendered value starts with a separator or a closing bracket. */
  lemma RenderStarts(d: Doc)
    ensures Render(d) != [] && Render(d)[0] !in [Mark(','), Mark(']'), Mark('}')]
  {
  }

  lemma ReadOneItem(before: seq<Doc>, d: Doc, following: seq<Piece>)
    requires ReadValue(Render(d) + following) == Some(Reading(Whole(d), following))
    ensures ReadItems(Comma(|before|) + (Render(d) + following), before) == ReadItems(following, before + [Whole(d)])
  {
    hide Whole, ReadValue;
    RenderStarts(d);
    hide Render;
    var ps := Comma(|before|) + (Render(d) + following);
    assert before != [] ==> ps[1..] == Render(d) + following;
    assert before == [] ==> ps == Render(d) + following && ps[0] == Render(d)[0];
  }

  lemma ReadEntry(m: Member, following: seq<Piece>)
    requires ReadValue(Render(m.value) + following) == Some(Reading(Whole(m.value), following))
    ensures ReadMember(Entry(m) + following) == Some(Reading(Member(m.key, Whole(m.value)), following))
  {
    hide Whole, ReadValue, Render;
    var ps := Entry(m) + following;
    assert ps[0] == KeyPiece(m.key) && ps[1] == Mark(':');
    assert ps[2..] == Render(m.value) + following;
  }

  lemma ReadOneMember(before: seq<Member>, m: Member, following: seq<Piece>)
    requires ReadValue(Render(m.value) + following) == Some(Reading(Whole(m.value), following))
    ensures ReadMembers(Comma(|before|) + (Entry(m) + following), before) == ReadMembers(following, before + [Member(m.key, Whole(m.value))])
  {
    ReadEntry(m, following);
    hide Whole, ReadValue, ReadMember, Render;
    var ps := Comma(|before|) + (Entry(m) + following);
    assert before != [] ==> ps[1..] == Entry(m) + following;
    assert before == [] ==> ps == Entry(m) + following && ps[0] == KeyPiece(m.key);
  }

  lemma {:induction false} ItemsReadBack(items: seq<Doc>, n: nat, rest: seq<Piece>)
    requires n <= |items|
    ensures ReadItems(ItemsFrom(items, n) + ([Mark(']')] + rest), WholeItems(items, n)) == Some(Reading(WholeItems(items, |items|), rest))
    decreases items, |items| - n
  {
    hide Render, Whole, ReadValue, Comma;
    var after := [Mark(']')] + rest;
    if n == |items| {
      assert ItemsFrom(items, n) + after == after && after[1..] == rest;
    } else {
      var following := ItemsFrom(items, n + 1) + after;
      RenderReadsBack(items[n], following);
      ReadOneItem(WholeItems(items, n), items[n], following);
      ItemsReadBack(items, n + 1, rest);
      Associate(after, Comma(n), Render(items[n]), ItemsFrom(items, n + 1));
      assert WholeItems(items, n) + [Whole(items[n])] == WholeItems(items, n + 1);
    }
  }

  lemma {:induction false} MembersReadBack(members: seq<Member>, n: nat, rest: seq<Piece>)
    requires n <= |members|
    ensures ReadMembers(MembersFrom(members, n) + ([Mark('}')] + rest), WholeMembers(members, n)) ==
      Some(Reading(WholeMembers(members, |members|), rest))
    decreases members, |members| - n
  {
    hide Render, Whole, ReadValue, Comma, Entry;
    var after := [Mark('}')] + rest;
    if n == |members| {
      assert MembersFrom(members, n) + after == after && after[1..] == rest;
    } else {
      var following := MembersFrom(members, n + 1) + after;
      RenderReadsBack(members[n].value, following);
      ReadOneMember(WholeMembers(members, n), members[n], following);
      MembersReadBack(members, n + 1, rest);
      Associate(after, Comma(n), Entry(members[n]), MembersFrom(members, n + 1));
      assert WholeMembers(members, n) + [Member(members[n].key, Whole(members[n].value))] == WholeMembers(members, n + 1);
    }
  }

  /** Read back, the payload has the value's members and elements in order, repeated keys included, and denotes its tree. */
  predicate Holds(payload: seq<Piece>, d: Doc) {
    var back := ReadPayload(payload);
    back.Some? && Decode(back.value) == Decode(d) && back.value == Whole(d)
  }

  lemma PayloadReadsBack(d: Doc)
    ensures Holds(Render(d), d)
  {
    RenderReadsBack(d, []);
    assert Render(d) + [] == Render(d);
    WholeDecodes(d);
  }
}
