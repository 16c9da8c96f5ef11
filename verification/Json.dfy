/**
 JSON values: Json is the decoded tree (objects are maps), Doc is the value as
 the stream delivers it (members in order, strings in the segments the reader
 cuts them into). Decode relates the two.
 */
module Json {
  import opened Bytes

  datatype Option<+T> = None | Some(value: T)

  datatype Json =
    | Null
    | Bool(b: bool)
    | Num(literal: Text)
    | Str(text: Text)
    | Arr(items: seq<Json>)
    | Obj(members: map<string, Json>)

  datatype Doc =
    | DNull
    | DBool(b: bool)
    | DNum(literal: Text)
    | DStr(segments: seq<Text>)
    | DArr(items: seq<Doc>)
    | DObj(members: seq<Member>)

  datatype Member = Member(key: string, value: Doc)

  /** One step from a container to a child. */
  datatype Segment = Key(key: string) | Index(index: nat)

  type Path = seq<Segment>

  function Child(j: Json, s: Segment): Option<Json> {
    match (j, s)
    case (Obj(m), Key(k)) => if k in m then Some(m[k]) else None
    case (Arr(items), Index(i)) => if i < |items| then Some(items[i]) else None
    case _ => None
  }

  function At(j: Json, path: Path): Option<Json> {
    if path == [] then Some(j)
    else match Child(j, path[0])
      case None => None
      case Some(c) => At(c, path[1..])
  }

  function Decode(d: Doc): Json {
    match d
    case DNull => Null
    case DBool(b) => Bool(b)
    case DNum(l) => Num(l)
    case DStr(segments) => Str(Flatten(segments))
    case DArr(items) => Arr(seq(|items|, i requires 0 <= i < |items| => Decode(items[i])))
    case DObj(members) => Obj(DecodeMembers(members))
  }

  /** A repeated key keeps its last value, as the decoder does. */
  function DecodeMembers(members: seq<Member>): (m: map<string, Json>)
    ensures forall k :: k in m <==> exists i :: 0 <= i < |members| && members[i].key == k
  {
    if members == [] then map[]
    else
      var last := members[|members| - 1];
      var rest := DecodeMembers(members[..|members| - 1]);
      rest[last.key := Decode(last.value)]
  }

  /** No object repeats a key, at any depth. */
  predicate UniqueKeys(d: Doc) {
    match d
    case DArr(items) => forall i | 0 <= i < |items| :: UniqueKeys(items[i])
    case DObj(members) =>
      && DistinctKeys(members)
      && (forall i | 0 <= i < |members| :: UniqueKeys(members[i].value))
    case _ => true
  }

  predicate DistinctKeys(members: seq<Member>) {
    forall i, j | 0 <= i < j < |members| :: members[i].key != members[j].key
  }

  lemma FrontDistinct(members: seq<Member>, n: nat)
    requires DistinctKeys(members) && |members| == n + 1
    ensures DistinctKeys(members[..n]) && forall i :: 0 <= i < n ==> members[..n][i].key != members[n].key
  {
  }

  lemma {:induction false} DecodeMember(members: seq<Member>, i: int)
    requires 0 <= i < |members| && DistinctKeys(members)
    ensures members[i].key in DecodeMembers(members)
    ensures DecodeMembers(members)[members[i].key] == Decode(members[i].value)
    decreases |members|
  {
    hide Decode, DistinctKeys;
    var n := |members| - 1;
    if i < n {
      FrontDistinct(members, n);
      DecodeMember(members[..n], i);
      assert members[..n][i] == members[i];
    }
  }

  /** Of a repeated key the last value counts. */
  lemma {:induction false} LastValueCounts(members: seq<Member>, i: nat)
    requires i < |members| && forall k :: i < k < |members| ==> members[k].key != members[i].key
    ensures members[i].key in DecodeMembers(members) && DecodeMembers(members)[members[i].key] == Decode(members[i].value)
    decreases |members|
  {
    hide Decode;
    var n := |members| - 1;
    if i < n {
      LastValueCounts(members[..n], i);
      assert members[n].key != members[i].key;
    }
  }
}
