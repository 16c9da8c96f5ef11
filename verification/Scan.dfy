/**
 The one-pass scan of a candidate: observation in document order, the two
 top-level fast scans, and payload capture that stops when no match is possible.
 */
module Scan {
  import opened Bytes
  import opened Json
  import opened Patterns
  import opened Dispatch
  import opened Selectors
  import opened StreamClauses
  import opened Programs
  import opened Engine
  import opened Payload

  /** Case folding never looks across the cuts of any string of the document. */
  predicate CleanDoc(env: Env, d: Doc) {
    match d
    case DStr(segments) => CleanCuts(env, segments)
    case DArr(items) => forall i | 0 <= i < |items| :: CleanDoc(env, items[i])
    case DObj(members) => forall i | 0 <= i < |members| :: CleanDoc(env, members[i].value)
    case _ => true
  }

  /** Some node of the document, at or below the path, satisfies the clause. */
  ghost predicate Seen(env: Env, c: Clause, d: Doc, path: Path, nullExists: bool) {
    NodeHit(env, c, path, d, nullExists) ||
    match d
    case DArr(items) => SeenItems(env, c, items, path, nullExists, |items|)
    case DObj(members) => SeenMembers(env, c, members, path, nullExists, |members|)
    case _ => false
  }

  ghost predicate SeenItems(env: Env, c: Clause, items: seq<Doc>, path: Path, nullExists: bool, n: nat)
    requires n <= |items|
  {
    exists i | 0 <= i < n :: Seen(env, c, items[i], path + [Index(i)], nullExists)
  }

  ghost predicate SeenMembers(env: Env, c: Clause, members: seq<Member>, path: Path, nullExists: bool, n: nat)
    requires n <= |members|
  {
    exists i | 0 <= i < n :: Seen(env, c, members[i].value, path + [Key(members[i].key)], nullExists)
  }

  ghost predicate NeverMatches(p: Program, hits: seq<bool>) {
    forall later :: Grows(hits, later) ==> !MatchProgram(p, later)
  }

  lemma NeverMatchesLater(p: Program, hits: seq<bool>, later: seq<bool>)
    requires NeverMatches(p, hits) && Grows(hits, later)
    ensures NeverMatches(p, later)
  {
    forall last | Grows(later, last) ensures !MatchProgram(p, last) {
      assert Grows(hits, last);
    }
  }

  lemma SeenItemsStep(env: Env, c: Clause, items: seq<Doc>, path: Path, nullExists: bool, n: nat)
    requires n < |items|
    ensures SeenItems(env, c, items, path, nullExists, n + 1) <==>
      SeenItems(env, c, items, path, nullExists, n) || Seen(env, c, items[n], path + [Index(n)], nullExists)
  {
  }

  lemma SeenMembersStep(env: Env, c: Clause, members: seq<Member>, path: Path, nullExists: bool, n: nat)
    requires n < |members|
    ensures SeenMembers(env, c, members, path, nullExists, n + 1) <==>
      SeenMembers(env, c, members, path, nullExists, n) || Seen(env, c, members[n].value, path + [Key(members[n].key)], nullExists)
  {
  }

  /** The hits of a whole document, scanned from all hits off. */
  ghost function SeenHits(e: Engine, d: Doc): seq<bool> {
    seq(|e.clauses|, i requires 0 <= i < |e.clauses| => Seen(e.env, e.clauses[i].clause, d, [], RootNullCounts(e)))
  }

  /** Whether a null member of a root object counts for exists clauses: never in a top-level fast scan. */
  predicate RootNullCounts(e: Engine) {
    e.fastTopLevelEq.None? && e.fastTopLevel.None? && e.HasExistsLike()
  }

  /** The streaming decision on a document. */
  ghost predicate Verdict(e: Engine, d: Doc) {
    e.emptySelector || (d.DObj? && MatchProgram(e.program, SeenHits(e, d)))
  }

  /** Below one level nothing is seen by a plain top-level key. */
  lemma {:induction false} DeepIsSilent(env: Env, c: Clause, d: Doc, path: Path, nullExists: bool)
    requires TopLevelKey(Compile(FieldOf(c).segments)).Some? && |path| > 1
    ensures !Seen(env, c, d, path, nullExists)
    decreases d
  {
    TopLevelOnly(c, path);
    match d
    case DArr(items) =>
      forall i | 0 <= i < |items| ensures !Seen(env, c, items[i], path + [Index(i)], nullExists) {
        DeepIsSilent(env, c, items[i], path + [Index(i)], nullExists);
      }
    case DObj(members) =>
      forall i | 0 <= i < |members| ensures !Seen(env, c, members[i].value, path + [Key(members[i].key)], nullExists) {
        DeepIsSilent(env, c, members[i].value, path + [Key(members[i].key)], nullExists);
      }
    case _ =>
  }

  lemma TopLevelOnly(c: Clause, path: Path)
    requires TopLevelKey(Compile(FieldOf(c).segments)).Some?
    ensures Reaches(c, path) <==> path == [Key(TopLevelKey(Compile(FieldOf(c).segments)).value)]
  {
    FastPatterns(c);
    PointwiseIsMatch(Compile(FieldOf(c).segments), path);
  }

  /** A plain top-level key sees a member of the root object by its key alone. */
  lemma SeenMember(env: Env, c: Clause, m: Member, nullExists: bool)
    requires TopLevelKey(Compile(FieldOf(c).segments)).Some?
    ensures Seen(env, c, m.value, [Key(m.key)], nullExists) <==>
      TopLevelKey(Compile(FieldOf(c).segments)) == Some(m.key) && StreamLeaf(env, c, Decode(m.value), nullExists)
  {
    var path := [Key(m.key)];
    TopLevelOnly(c, path);
    match m.value
    case DArr(items) =>
      forall i | 0 <= i < |items| ensures !Seen(env, c, items[i], path + [Index(i)], nullExists) {
        DeepIsSilent(env, c, items[i], path + [Index(i)], nullExists);
      }
    case DObj(members) =>
      forall i | 0 <= i < |members| ensures !Seen(env, c, members[i].value, path + [Key(members[i].key)], nullExists) {
        DeepIsSilent(env, c, members[i].value, path + [Key(members[i].key)], nullExists);
      }
    case _ =>
  }

  /** The top-level fast scans part from the general scan only over a null under an exists clause's key. */
  lemma FastDiffersOnNulls(env: Env, c: Clause, members: seq<Member>, key: string)
    requires TopLevelKey(Compile(FieldOf(c).segments)) == Some(key)
    ensures Seen(env, c, DObj(members), [], true) <==>
      Seen(env, c, DObj(members), [], false) || (c.Exists? && Member(key, DNull) in members)
  {
    TopLevelOnly(c, []);
    forall i | 0 <= i < |members|
      ensures [] + [Key(members[i].key)] == [Key(members[i].key)]
      ensures Seen(env, c, members[i].value, [Key(members[i].key)], true) <==>
        Seen(env, c, members[i].value, [Key(members[i].key)], false) || (c.Exists? && members[i] == Member(key, DNull))
    {
      SeenMember(env, c, members[i], true);
      SeenMember(env, c, members[i], false);
    }
  }

  /** What a clause vector gains from one event: each clause whose verdict is true turns on. */
  ghost predicate Gains(before: seq<bool>, after: seq<bool>, verdict: int -> bool) {
    |before| == |after| && forall i :: 0 <= i < |before| ==> (after[i] <==> before[i] || verdict(i))
  }

  ghost function NodeVerdict(e: Engine, d: Doc, path: Path, nullExists: bool): int -> bool {
    i => 0 <= i < |e.clauses| && NodeHit(e.env, e.clauses[i].clause, path, d, nullExists)
  }

  ghost function ValueVerdict(e: Engine, d: Doc, path: Path, nullExists: bool): int -> bool {
    i => 0 <= i < |e.clauses| && Seen(e.env, e.clauses[i].clause, d, path, nullExists)
  }

  ghost function ItemsVerdict(e: Engine, items: seq<Doc>, path: Path, nullExists: bool, n: nat): int -> bool
    requires n <= |items|
  {
    i => 0 <= i < |e.clauses| && SeenItems(e.env, e.clauses[i].clause, items, path, nullExists, n)
  }

  ghost function MembersVerdict(e: Engine, members: seq<Member>, path: Path, nullExists: bool, n: nat): int -> bool
    requires n <= |members|
  {
    i => 0 <= i < |e.clauses| && SeenMembers(e.env, e.clauses[i].clause, members, path, nullExists, n)
  }

  lemma GainItem(e: Engine, items: seq<Doc>, path: Path, nullExists: bool, n: nat, start: seq<bool>, before: seq<bool>, after: seq<bool>)
    requires n < |items| && |start| == |e.clauses|
    requires Gains(start, before, ItemsVerdict(e, items, path, nullExists, n))
    requires Gains(before, after, ValueVerdict(e, items[n], path + [Index(n)], nullExists))
    ensures Gains(start, after, ItemsVerdict(e, items, path, nullExists, n + 1))
  {
    forall i | 0 <= i < |start| ensures after[i] <==> start[i] || ItemsVerdict(e, items, path, nullExists, n + 1)(i) {
      SeenItemsStep(e.env, e.clauses[i].clause, items, path, nullExists, n);
    }
  }

  lemma GainMember(e: Engine, members: seq<Member>, path: Path, nullExists: bool, n: nat, start: seq<bool>, before: seq<bool>, after: seq<bool>)
    requires n < |members| && |start| == |e.clauses|
    requires Gains(start, before, MembersVerdict(e, members, path, nullExists, n))
    requires Gains(before, after, ValueVerdict(e, members[n].value, path + [Key(members[n].key)], nullExists))
    ensures Gains(start, after, MembersVerdict(e, members, path, nullExists, n + 1))
  {
    forall i | 0 <= i < |start| ensures after[i] <==> start[i] || MembersVerdict(e, members, path, nullExists, n + 1)(i) {
      SeenMembersStep(e.env, e.clauses[i].clause, members, path, nullExists, n);
    }
  }

  /** A container's own hits and those of its children are those of the whole value. */
  lemma GainContainer(e: Engine, d: Doc, path: Path, nullExists: bool, start: seq<bool>, before: seq<bool>, after: seq<bool>)
    requires (d.DArr? || d.DObj?) && |start| == |e.clauses|
    requires Gains(start, before, NodeVerdict(e, d, path, nullExists))
    requires d.DArr? ==> Gains(before, after, ItemsVerdict(e, d.items, path, nullExists, |d.items|))
    requires d.DObj? ==> Gains(before, after, MembersVerdict(e, d.members, path, nullExists, |d.members|))
    ensures Gains(start, after, ValueVerdict(e, d, path, nullExists))
  {
  }

  lemma GainScalar(e: Engine, d: Doc, path: Path, nullExists: bool, before: seq<bool>, after: seq<bool>)
    requires !d.DArr? && !d.DObj? && Gains(before, after, NodeVerdict(e, d, path, nullExists))
    ensures Gains(before, after, ValueVerdict(e, d, path, nullExists))
  {
  }

  /** What the clauses filed under a member's key make of its value. */
  ghost function FieldVerdict(e: Engine, field: seq<int>, d: Doc): int -> bool {
    i => i in field && 0 <= i < |e.clauses| && StreamLeaf(e.env, e.clauses[i].clause, Decode(d), false)
  }

  lemma FiledInRange(fields: map<string, seq<int>>, clauses: seq<Compiled>, key: string)
    requires FieldsUpTo(fields, clauses, |clauses|)
    ensures FieldOk(fields, clauses, |clauses|, key)
  {
  }

  /** The clauses filed under a key are all that can see that member. */
  lemma FieldIsMember(e: Engine, fields: map<string, seq<int>>, m: Member, before: seq<bool>, after: seq<bool>)
    requires e.Ready() && FieldsOk(fields, e.clauses) && |before| == |e.clauses|
    requires Gains(before, after, FieldVerdict(e, Lookup(fields, m.key), m.value))
    ensures Gains(before, after, ValueVerdict(e, m.value, [Key(m.key)], false))
  {
    forall i | 0 <= i < |before|
      ensures ValueVerdict(e, m.value, [Key(m.key)], false)(i) <==> FieldVerdict(e, Lookup(fields, m.key), m.value)(i)
    {
      assert CompiledOk(e.env, e.clauses[i]);
      assert FieldOk(fields, e.clauses, |e.clauses|, m.key);
      SeenMember(e.env, e.clauses[i].clause, m, false);
    }
  }

  /** The root object itself is no hit of a top-level key. */
  lemma RootIsMembers(e: Engine, members: seq<Member>, before: seq<bool>, after: seq<bool>)
    requires e.Ready() && |before| == |e.clauses|
    requires forall i :: 0 <= i < |e.clauses| ==> TopLevelKey(e.clauses[i].pattern).Some?
    requires Gains(before, after, MembersVerdict(e, members, [], false, |members|))
    ensures Gains(before, after, ValueVerdict(e, DObj(members), [], false))
  {
    forall i | 0 <= i < |before|
      ensures ValueVerdict(e, DObj(members), [], false)(i) <==> MembersVerdict(e, members, [], false, |members|)(i)
    {
      assert CompiledOk(e.env, e.clauses[i]);
      TopLevelOnly(e.clauses[i].clause, []);
    }
  }

  class ScanState {
    const engine: Engine
    const includeJson: bool
    var path: Path
    var payload: seq<Piece>
    var capturePruneActive: bool
    var captureDisabled: bool

    ghost predicate Valid()
      reads `captureDisabled, `capturePruneActive, engine.hits, engine.dispatch
    {
      && engine.Ready() && engine.DispatchOk() && engine.Linked() && engine.env.lower([]) == []
      && engine.hits.Length == |engine.clauses|
      && (captureDisabled ==> capturePruneActive && NeverMatches(engine.program, engine.hits[..]))
    }

    constructor (engine: Engine, includeJson: bool)
      requires engine.Ready() && engine.DispatchOk() && engine.Linked() && engine.env.lower([]) == []
      ensures Valid() && this.engine == engine && this.includeJson == includeJson
      ensures path == [] && payload == [] && !capturePruneActive && !captureDisabled
    {
      this.engine, this.includeJson := engine, includeJson;
      path, payload, capturePruneActive, captureDisabled := [], [], false, false;
    }

    /** Nothing is captured once capture is off; until then everything is. */
    ghost predicate Captured(before: seq<Piece>, wasDisabled: bool, added: seq<Piece>)
      reads this
    {
      (wasDisabled ==> captureDisabled) && (includeJson && !captureDisabled ==> payload == before + added)
    }

    method Write(pieces: seq<Piece>)
      modifies this`payload
      ensures Captured(old(payload), old(captureDisabled), pieces)
    {
      if includeJson && !captureDisabled {
        payload := payload + pieces;
      }
    }

    method MaybeDisableCapture()
      requires Valid()
      modifies this`captureDisabled
      ensures Valid() && (old(captureDisabled) ==> captureDisabled)
    {
      if !capturePruneActive || captureDisabled {
        return;
      }
      var possible := engine.CanStillMatchObjectRoot();
      if possible {
        return;
      }
      forall later | Grows(engine.hits[..], later) ensures !MatchProgram(engine.program, later) {
        NoLateMatch(engine.program, engine.hits[..], later);
      }
      captureDisabled := true;
    }

    twostate lemma StillValid()
      requires old(Valid()) && captureDisabled == old(captureDisabled) && capturePruneActive == old(capturePruneActive)
      requires engine.DispatchOk()
      requires Grows(old(engine.hits[..]), engine.hits[..])
      ensures Valid()
    {
      if captureDisabled {
        NeverMatchesLater(engine.program, old(engine.hits[..]), engine.hits[..]);
      }
    }

    /** What comes before an element: a comma unless it is the first, then its name if it has one. */
    method WriteBefore(n: nat, name: seq<Piece>)
      modifies this`payload
      ensures Captured(old(payload), old(captureDisabled), (if n > 0 then [Mark(',')] else []) + name)
    {
      if n > 0 {
        Write([Mark(',')]);
      }
      Write(name);
    }

    /** Observe a node that is not a string: every clause it satisfies turns on. */
    method ObserveSignal(d: Doc)
      requires Valid() && !d.DStr?
      modifies this`captureDisabled, engine.hits
      ensures Valid() && (old(captureDisabled) ==> captureDisabled)
      ensures Gains(old(engine.hits[..]), engine.hits[..], NodeVerdict(engine, d, path, engine.HasExistsLike()))
    {
      hide Engine.Ready, Engine.Linked, Engine.DispatchOk, NeverMatches, StreamLeaf, Reaches;
      engine.Observe(path, d);
      StillValid();
      MaybeDisableCapture();
    }

    /** A string: copied when no pending clause has to read it, matched while it is read otherwise. */
    method ScanString(d: Doc)
      requires Valid() && d.DStr? && CleanCuts(engine.env, d.segments)
      modifies this`payload, this`captureDisabled, engine.hits
      ensures Valid() && Captured(old(payload), old(captureDisabled), Render(d))
      ensures Gains(old(engine.hits[..]), engine.hits[..], NodeVerdict(engine, d, path, engine.HasExistsLike()))
    {
      hide Engine.Ready, Engine.Linked, Engine.DispatchOk, NeverMatches;
      Write(Render(d));
      var needed := engine.StringValueNeeded(path);
      if needed {
        ReadString(d);
      } else {
        UnneededText(engine.hits[..], d);
        engine.Observe(path, d);
      }
      StillValid();
      MaybeDisableCapture();
    }

    method ReadString(d: Doc)
      requires engine.Ready() && engine.DispatchOk() && engine.env.lower([]) == []
      requires d.DStr? && CleanCuts(engine.env, d.segments)
      modifies engine.hits
      ensures Gains(old(engine.hits[..]), engine.hits[..], NodeVerdict(engine, d, path, engine.HasExistsLike()))
    {
      var reading, noting := engine.CollectStringClauses(path);
      CollectedText(engine.hits[..], d);
      engine.MatchStringClauses(reading, d.segments);
      MarkAll(noting);
    }

    method MarkAll(ids: seq<int>)
      requires forall i :: i in ids ==> 0 <= i < engine.hits.Length
      modifies engine.hits
      ensures forall i :: 0 <= i < engine.hits.Length ==> (engine.hits[i] <==> old(engine.hits[i]) || i in ids)
    {
      for k := 0 to |ids|
        invariant forall i :: 0 <= i < engine.hits.Length ==> (engine.hits[i] <==> old(engine.hits[i]) || i in ids[..k])
      {
        assert ids[..k + 1] == ids[..k] + [ids[k]] && ids[k] in ids;
        engine.hits[ids[k]] := true;
      }
      assert ids[..|ids|] == ids;
    }

    /** What observation leaves out of an unneeded string was already hit. */
    lemma UnneededText(before: seq<bool>, d: Doc)
      requires engine.Ready() && d.DStr? && |before| == |engine.clauses|
      requires forall i :: 0 <= i < |engine.clauses| && !before[i] && engine.NeedsText(i) ==> !Reaches(engine.clauses[i].clause, path)
      ensures forall i :: 0 <= i < |before| && NodeHit(engine.env, engine.clauses[i].clause, path, d, engine.HasExistsLike()) ==>
        before[i] || ObservedHit(engine.env, engine.clauses[i].clause, path, d, engine.HasExistsLike())
      ensures forall i :: 0 <= i < |before| && ObservedHit(engine.env, engine.clauses[i].clause, path, d, engine.HasExistsLike()) ==>
        NodeHit(engine.env, engine.clauses[i].clause, path, d, engine.HasExistsLike())
    {
      forall i | 0 <= i < |before|
        ensures NodeHit(engine.env, engine.clauses[i].clause, path, d, engine.HasExistsLike()) ==>
          before[i] || ObservedHit(engine.env, engine.clauses[i].clause, path, d, engine.HasExistsLike())
      {
        assert CompiledOk(engine.env, engine.clauses[i]);
      }
    }

    lemma CollectedText(before: seq<bool>, d: Doc)
      requires engine.Ready() && d.DStr? && |before| == |engine.clauses|
      ensures forall i :: 0 <= i < |before| && NodeHit(engine.env, engine.clauses[i].clause, path, d, engine.HasExistsLike()) ==>
        engine.clauses[i].body.TermClause? || engine.clauses[i].body.InClause? || engine.clauses[i].body.ExistsClause?
      ensures forall i :: 0 <= i < |before| && engine.clauses[i].body.ExistsClause? ==>
        (NodeHit(engine.env, engine.clauses[i].clause, path, d, engine.HasExistsLike()) <==> Reaches(engine.clauses[i].clause, path))
    {
      forall i | 0 <= i < |before|
        ensures engine.clauses[i].body.RangeClause? <==> engine.clauses[i].clause.Range?
        ensures engine.clauses[i].body.ExistsClause? <==> engine.clauses[i].clause.Exists?
      {
        assert CompiledOk(engine.env, engine.clauses[i]);
      }
    }

    /** Root objects take a top-level fast scan when the engine has one. */
    predicate FastScanned(d: Doc)
      reads this`path
    {
      path == [] && d.DObj? && (engine.fastTopLevelEq.Some? || engine.fastTopLevel.Some?)
    }

    /** Whether an exists clause counts a null in this scan. */
    predicate NullCounts(d: Doc)
      reads this`path
    {
      !FastScanned(d) && engine.HasExistsLike()
    }

    ghost predicate NoHits()
      reads engine.hits
    {
      forall i :: 0 <= i < engine.hits.Length ==> !engine.hits[i]
    }

    /**
     Scan one value. Whatever path it takes, a clause is hit afterwards exactly if it was
     before or some node of the value satisfies it, and unless capture was switched off the
     payload has grown by the whole value.
     */
    method ScanValue(d: Doc)
      requires Valid() && CleanDoc(engine.env, d) && (path == [] ==> NoHits())
      modifies this`path, this`payload, this`captureDisabled, engine.hits
      ensures Valid() && path == old(path) && Captured(old(payload), old(captureDisabled), Render(d))
      ensures Gains(old(engine.hits[..]), engine.hits[..], ValueVerdict(engine, d, path, NullCounts(d)))
      decreases d, 1
    {
      hide Engine.Ready, Engine.Linked, Engine.DispatchOk, NeverMatches;
      match d
      case DObj(members) =>
        if |path| == 0 && engine.fastTopLevelEq.Some? {
          ScanFastTopLevelEq(members, engine.fastTopLevelEq.value);
        } else if |path| == 0 && engine.fastTopLevel.Some? {
          ScanFastTopLevel(members, engine.fastTopLevel.value);
        } else {
          ScanContainer(d);
        }
      case DArr(items) =>
        ScanContainer(d);
      case DStr(_) =>
        ScanString(d);
        GainScalar(engine, d, path, engine.HasExistsLike(), old(engine.hits[..]), engine.hits[..]);
      case _ =>
        ObserveSignal(d);
        Write(Render(d));
        GainScalar(engine, d, path, engine.HasExistsLike(), old(engine.hits[..]), engine.hits[..]);
    }

    /** The general scan of an object or array: first the container, then its children in order. */
    method ScanContainer(d: Doc)
      requires Valid() && CleanDoc(engine.env, d) && (d.DObj? || d.DArr?)
      modifies this`path, this`payload, this`captureDisabled, engine.hits
      ensures Valid() && path == old(path) && Captured(old(payload), old(captureDisabled), Render(d))
      ensures Gains(old(engine.hits[..]), engine.hits[..], ValueVerdict(engine, d, path, engine.HasExistsLike()))
      decreases d, 0
    {
      hide Engine.Ready, Engine.Linked, Engine.DispatchOk, NeverMatches;
      ObserveSignal(d);
      ghost var between := engine.hits[..];
      Write([Mark(if d.DObj? then '{' else '[')]);
      match d {
        case DObj(members) => ScanMembers(members);
        case DArr(items) => ScanItems(items);
      }
      GainContainer(engine, d, path, engine.HasExistsLike(), old(engine.hits[..]), between, engine.hits[..]);
    }

    method ScanItems(items: seq<Doc>)
      requires Valid() && forall i :: 0 <= i < |items| ==> CleanDoc(engine.env, items[i])
      modifies this`path, this`payload, this`captureDisabled, engine.hits
      ensures Valid() && path == old(path) && Captured(old(payload), old(captureDisabled), RenderItems(items) + [Mark(']')])
      ensures Gains(old(engine.hits[..]), engine.hits[..], ItemsVerdict(engine, items, path, engine.HasExistsLike(), |items|))
      decreases items
    {
      hide Engine.Ready, Engine.Linked, Engine.DispatchOk, NeverMatches;
      for n := 0 to |items|
        invariant Valid() && path == old(path) && Captured(old(payload), old(captureDisabled), RenderItems(items[..n]))
        invariant Gains(old(engine.hits[..]), engine.hits[..], ItemsVerdict(engine, items, path, engine.HasExistsLike(), n))
      {
        RenderItemsStep(old(payload), items, n);
        ghost var before := engine.hits[..];
        WriteBefore(n, []);
        path := path + [Index(n)];
        ScanValue(items[n]);
        path := path[..|path| - 1];
        GainItem(engine, items, path, engine.HasExistsLike(), n, old(engine.hits[..]), before, engine.hits[..]);
      }
      assert items[..|items|] == items;
      Write([Mark(']')]);
    }

    method ScanMembers(members: seq<Member>)
      requires Valid() && forall i :: 0 <= i < |members| ==> CleanDoc(engine.env, members[i].value)
      modifies this`path, this`payload, this`captureDisabled, engine.hits
      ensures Valid() && path == old(path) && Captured(old(payload), old(captureDisabled), RenderMembers(members) + [Mark('}')])
      ensures Gains(old(engine.hits[..]), engine.hits[..], MembersVerdict(engine, members, path, engine.HasExistsLike(), |members|))
      decreases members
    {
      hide Engine.Ready, Engine.Linked, Engine.DispatchOk, NeverMatches;
      for n := 0 to |members|
        invariant Valid() && path == old(path) && Captured(old(payload), old(captureDisabled), RenderMembers(members[..n]))
        invariant Gains(old(engine.hits[..]), engine.hits[..], MembersVerdict(engine, members, path, engine.HasExistsLike(), n))
      {
        RenderMembersStep(old(payload), members, n);
        ghost var before := engine.hits[..];
        WriteBefore(n, [KeyPiece(members[n].key), Mark(':')]);
        path := path + [Key(members[n].key)];
        ScanValue(members[n].value);
        path := path[..|path| - 1];
        GainMember(engine, members, path, engine.HasExistsLike(), n, old(engine.hits[..]), before, engine.hits[..]);
      }
      assert members[..|members|] == members;
      Write([Mark('}')]);
    }

    /** The single-eq scan of a root object: only the members under the key are compared. */
    method ScanFastTopLevelEq(members: seq<Member>, key: string)
      requires Valid() && path == [] && NoHits() && engine.fastTopLevelEq == Some(key)
      requires forall i :: 0 <= i < |members| ==> CleanDoc(engine.env, members[i].value)
      modifies this`payload, this`captureDisabled, engine.hits
      ensures Valid() && Captured(old(payload), old(captureDisabled), Render(DObj(members)))
      ensures Gains(old(engine.hits[..]), engine.hits[..], ValueVerdict(engine, DObj(members), [], false))
    {
      hide Engine.Ready, Engine.Linked, Engine.DispatchOk, NeverMatches, CompiledOk, Gains, EqSeen, Render, RenderMembers;
      EqClause(key);
      RenderObject(payload, members);
      Write([Mark('{')]);
      ScanEqMembers(members, key);
      EqVerdict(members, key, old(engine.hits[..]), engine.hits[..]);
    }

    /** The single clause sees the root object exactly when it sees a member. */
    lemma {:induction false} EqVerdict(members: seq<Member>, key: string, before: seq<bool>, after: seq<bool>)
      requires engine.Ready() && engine.fastTopLevelEq == Some(key) && |before| == |after| == |engine.clauses| == 1
      requires !before[0] && (after[0] <==> EqSeen(members, |members|))
      ensures Gains(before, after, ValueVerdict(engine, DObj(members), [], false))
    {
      EqClause(key);
      TopLevelOnly(engine.clauses[0].clause, []);
    }

    lemma EqClause(key: string)
      requires engine.Ready() && engine.fastTopLevelEq == Some(key)
      ensures |engine.clauses| == 1 && engine.clauses[0].clause.Eq? && CompiledOk(engine.env, engine.clauses[0])
      ensures TopLevelKey(engine.clauses[0].pattern) == Some(key)
    {
    }

    lemma EqMember(members: seq<Member>, n: nat)
      requires n < |members| && |engine.clauses| == 1 && CompiledOk(engine.env, engine.clauses[0])
      requires TopLevelKey(engine.clauses[0].pattern).Some?
      ensures EqSeen(members, n + 1) <==> (EqSeen(members, n) ||
        (TopLevelKey(engine.clauses[0].pattern) == Some(members[n].key)
         && StreamLeaf(engine.env, engine.clauses[0].clause, Decode(members[n].value), false)))
    {
      var c := engine.clauses[0].clause;
      SeenMembersStep(engine.env, c, members, [], false, n);
      assert [] + [Key(members[n].key)] == [Key(members[n].key)];
      SeenMember(engine.env, c, members[n], false);
    }

    /** The eq term on one value: strings in one piece are compared as they lie in the buffer. */
    method FastEqValueMatches(d: Doc) returns (matched: bool)
      requires Valid() && CleanDoc(engine.env, d) && |engine.clauses| == 1 && engine.clauses[0].clause.Eq?
      requires CompiledOk(engine.env, engine.clauses[0]) && !engine.hits[0]
      modifies this`payload, engine.hits
      ensures Valid() && Captured(old(payload), old(captureDisabled), Render(d)) && (engine.hits[0] ==> matched)
      ensures matched <==> StreamLeaf(engine.env, engine.clauses[0].clause, Decode(d), false)
    {
      hide Engine.Linked, NeverMatches;
      Write(Render(d));
      var cc := engine.clauses[0];
      var needle := Fold(engine.env, cc.ignoreCase, cc.clause.term.value);
      match d
      case DStr(segments) =>
        if !cc.ignoreCase && |segments| == 1 {
          assert Flatten(segments) == segments[0] + Flatten(segments[1..]) == segments[0];
          return segments[0] == needle;
        }
        engine.MatchStringClauses([0], segments);
        StillValid();
        return engine.hits[0];
      case _ =>
        matched := EqHolds(engine.env, cc, d);
    }

    /** One member's value: compared under the key, copied or skipped otherwise. */
    method ScanEqMember(m: Member, key: string, before: bool) returns (matched: bool)
      requires Valid() && CleanDoc(engine.env, m.value) && |engine.clauses| == 1 && engine.clauses[0].clause.Eq?
      requires CompiledOk(engine.env, engine.clauses[0]) && engine.hits[0] == before
      modifies this`payload, this`captureDisabled, engine.hits
      ensures Valid() && Captured(old(payload), old(captureDisabled), Render(m.value)) && engine.hits[0] == matched
      ensures matched <==> before || (m.key == key && StreamLeaf(engine.env, engine.clauses[0].clause, Decode(m.value), false))
    {
      hide Engine.Ready, Engine.Linked, Engine.DispatchOk, NeverMatches, CompiledOk, StreamLeaf, Render;
      matched := before;
      if !matched && m.key == key {
        matched := FastEqValueMatches(m.value);
      } else {
        Write(Render(m.value));
      }
      engine.hits[0] := matched;
      StillValid();
      MaybeDisableCapture();
    }

    /** The single clause sees one of the first n members. */
    ghost predicate EqSeen(members: seq<Member>, n: nat) {
      |engine.clauses| == 1 && n <= |members| && SeenMembers(engine.env, engine.clauses[0].clause, members, [], false, n)
    }

    lemma EqSeenGrows(members: seq<Member>, n: nat)
      requires n <= |members|
      ensures EqSeen(members, n) ==> n > 0 && EqSeen(members, |members|)
    {
    }

    method ScanEqMembers(members: seq<Member>, key: string)
      requires Valid() && NoHits() && engine.fastTopLevelEq == Some(key) && CleanDoc(engine.env, DObj(members))
      modifies this`payload, this`captureDisabled, engine.hits
      ensures Valid() && Captured(old(payload), old(captureDisabled), RenderMembers(members) + [Mark('}')])
      ensures engine.hits.Length == 1 && (engine.hits[0] <==> EqSeen(members, |members|))
    {
      hide Engine.Ready, Engine.Linked, Engine.DispatchOk, NeverMatches, CompiledOk, StreamLeaf, Render, EqSeen;
      EqClause(key);
      EqSeenGrows(members, 0);
      var matched, n := false, 0;
      // Once matched, an object that is not captured is skipped unread.
      while n < |members| && (includeJson || !matched)
        invariant 0 <= n <= |members| && Valid() && Captured(old(payload), old(captureDisabled), RenderMembers(members[..n]))
        invariant matched == engine.hits[0] == EqSeen(members, n)
      {
        RenderMembersStep(old(payload), members, n);
        WriteBefore(n, [KeyPiece(members[n].key), Mark(':')]);
        EqMember(members, n);
        matched := ScanEqMember(members[n], key, matched);
        n := n + 1;
      }
      assert n == |members| ==> members[..n] == members;
      EqSeenGrows(members, n);
      Write([Mark('}')]);
    }

    /** The per-field scan of a root object: a member is observed only while clauses of its key are pending. */
    method ScanFastTopLevel(members: seq<Member>, fields: map<string, seq<int>>)
      requires Valid() && path == [] && NoHits() && engine.fastTopLevel == Some(fields)
      requires forall i :: 0 <= i < |members| ==> CleanDoc(engine.env, members[i].value)
      modifies this`payload, this`captureDisabled, engine.hits
      ensures Valid() && Captured(old(payload), old(captureDisabled), Render(DObj(members)))
      ensures Gains(old(engine.hits[..]), engine.hits[..], ValueVerdict(engine, DObj(members), [], false))
    {
      hide Engine.Linked, Engine.DispatchOk, NeverMatches, Gains, CompiledOk, Render, RenderMembers;
      RenderObject(payload, members);
      Write([Mark('{')]);
      ScanFieldMembers(members, fields);
      RootIsMembers(engine, members, old(engine.hits[..]), engine.hits[..]);
    }

    method ScanFieldMembers(members: seq<Member>, fields: map<string, seq<int>>)
      requires Valid() && engine.fastTopLevel == Some(fields)
      requires forall i :: 0 <= i < |members| ==> CleanDoc(engine.env, members[i].value)
      modifies this`payload, this`captureDisabled, engine.hits
      ensures Valid() && Captured(old(payload), old(captureDisabled), RenderMembers(members) + [Mark('}')])
      ensures Gains(old(engine.hits[..]), engine.hits[..], MembersVerdict(engine, members, [], false, |members|))
    {
      hide Engine.Ready, Engine.Linked, Engine.DispatchOk, NeverMatches;
      for n := 0 to |members|
        invariant Valid() && Captured(old(payload), old(captureDisabled), RenderMembers(members[..n]))
        invariant Gains(old(engine.hits[..]), engine.hits[..], MembersVerdict(engine, members, [], false, n))
      {
        RenderMembersStep(old(payload), members, n);
        ghost var before := engine.hits[..];
        WriteBefore(n, [KeyPiece(members[n].key), Mark(':')]);
        ScanField(members[n], fields);
        assert [] + [Key(members[n].key)] == [Key(members[n].key)];
        GainMember(engine, members, [], false, n, old(engine.hits[..]), before, engine.hits[..]);
      }
      assert members[..|members|] == members;
      Write([Mark('}')]);
    }

    /** One member: observed only when a clause filed under its key is still pending. */
    method ScanField(m: Member, fields: map<string, seq<int>>)
      requires Valid() && engine.fastTopLevel == Some(fields) && CleanDoc(engine.env, m.value)
      modifies this`payload, this`captureDisabled, engine.hits
      ensures Valid() && Captured(old(payload), old(captureDisabled), Render(m.value))
      ensures Gains(old(engine.hits[..]), engine.hits[..], ValueVerdict(engine, m.value, [Key(m.key)], false))
    {
      hide Engine.Linked, NeverMatches;
      var field := Lookup(fields, m.key);
      FieldInRange(fields, m.key);
      Write(Render(m.value));
      var pending := HasPending(field);
      if pending {
        FastObserveValue(m.value, field);
      }
      FieldIsMember(engine, fields, m, old(engine.hits[..]), engine.hits[..]);
      StillValid();
      MaybeDisableCapture();
    }

    lemma FieldInRange(fields: map<string, seq<int>>, key: string)
      requires engine.Ready() && engine.fastTopLevel == Some(fields)
      ensures FieldsOk(fields, engine.clauses) && forall i :: i in Lookup(fields, key) ==> 0 <= i < |engine.clauses|
    {
      assert FieldsOk(fields, engine.clauses);
      FiledInRange(fields, engine.clauses, key);
    }

    method HasPending(field: seq<int>) returns (pending: bool)
      requires forall i :: i in field ==> 0 <= i < engine.hits.Length
      ensures pending <==> exists i :: i in field && 0 <= i < engine.hits.Length && !engine.hits[i]
    {
      for k := 0 to |field|
        invariant forall i :: i in field[..k] && 0 <= i < engine.hits.Length ==> engine.hits[i]
      {
        assert field[..k + 1] == field[..k] + [field[k]] && field[k] in field;
        if !engine.hits[field[k]] {
          return true;
        }
      }
      assert field[..|field|] == field;
      return false;
    }

    /** The pending clauses of one key on its value; a null satisfies only terms that assert presence. */
    method FastObserveValue(d: Doc, field: seq<int>)
      requires engine.Ready() && CleanDoc(engine.env, d) && engine.env.lower([]) == []
      requires forall i :: i in field ==> 0 <= i < |engine.clauses|
      modifies engine.hits
      ensures Gains(old(engine.hits[..]), engine.hits[..], FieldVerdict(engine, field, d))
    {
      if d.DStr? {
        FastObserveString(d, field);
        return;
      }
      for k := 0 to |field|
        invariant forall i :: 0 <= i < engine.hits.Length ==>
          (engine.hits[i] <==> old(engine.hits[i]) || (i in field[..k] && StreamLeaf(engine.env, engine.clauses[i].clause, Decode(d), false)))
      {
        assert field[..k + 1] == field[..k] + [field[k]] && field[k] in field;
        FastObserveClause(field[k], d);
      }
      assert field[..|field|] == field;
    }

    method FastObserveString(d: Doc, field: seq<int>)
      requires engine.Ready() && d.DStr? && CleanDoc(engine.env, d) && engine.env.lower([]) == []
      requires forall i :: i in field ==> 0 <= i < |engine.clauses|
      modifies engine.hits
      ensures Gains(old(engine.hits[..]), engine.hits[..], FieldVerdict(engine, field, d))
    {
      var reading, noting := [], [];
      for k := 0 to |field|
        invariant forall i :: i in reading <==>
          i in field[..k] && 0 <= i < |engine.clauses| && !engine.hits[i] && (engine.clauses[i].body.TermClause? || engine.clauses[i].body.InClause?)
        invariant forall i :: i in noting <==>
          i in field[..k] && 0 <= i < |engine.clauses| && !engine.hits[i] && engine.clauses[i].body.ExistsClause?
      {
        assert field[..k + 1] == field[..k] + [field[k]] && field[k] in field;
        var i := field[k];
        if !engine.hits[i] {
          match engine.clauses[i].body
          case TermClause(_) => reading := reading + [i];
          case InClause(_) => reading := reading + [i];
          case ExistsClause => noting := noting + [i];
          case RangeClause(_) =>
        }
      }
      assert field[..|field|] == field;
      StringLeaves(d);
      engine.MatchStringClauses(reading, d.segments);
      MarkAll(noting);
    }

    lemma StringLeaves(d: Doc)
      requires engine.Ready() && d.DStr?
      ensures forall i :: 0 <= i < |engine.clauses| ==>
        && (engine.clauses[i].body.RangeClause? ==> !StreamLeaf(engine.env, engine.clauses[i].clause, Decode(d), false))
        && (engine.clauses[i].body.ExistsClause? ==> StreamLeaf(engine.env, engine.clauses[i].clause, Decode(d), false))
        && (StreamLeaf(engine.env, engine.clauses[i].clause, Decode(d), engine.HasExistsLike()) <==>
            StreamLeaf(engine.env, engine.clauses[i].clause, Decode(d), false))
    {
      forall i | 0 <= i < |engine.clauses|
        ensures engine.clauses[i].body.RangeClause? <==> engine.clauses[i].clause.Range?
        ensures engine.clauses[i].body.ExistsClause? <==> engine.clauses[i].clause.Exists?
      {
        assert CompiledOk(engine.env, engine.clauses[i]);
      }
    }

    method FastObserveClause(i: int, d: Doc)
      requires engine.Ready() && 0 <= i < |engine.clauses| && !d.DStr?
      modifies engine.hits
      ensures engine.hits[i] <==> old(engine.hits[i]) || StreamLeaf(engine.env, engine.clauses[i].clause, Decode(d), false)
      ensures forall k :: 0 <= k < engine.hits.Length && k != i ==> engine.hits[k] == old(engine.hits[k])
    {
      hide CompiledOk, StreamLeaf;
      if engine.hits[i] {
        return;
      }
      var verdict := SatisfiedBy(engine.clauses[i], d);
      engine.hits[i] := verdict;
    }

    /** The value against one clause of its key. */
    method SatisfiedBy(cc: Compiled, d: Doc) returns (hit: bool)
      requires CompiledOk(engine.env, cc) && !d.DStr?
      ensures hit <==> StreamLeaf(engine.env, cc.clause, Decode(d), false)
    {
      hide TermOk, StreamString;
      match cc.body {
        case ExistsClause => hit := !d.DNull?;
        case RangeClause(bounds) =>
          hit := d.DNum? && engine.env.parseFloat(d.literal).Some? && InBounds(bounds, engine.env.parseFloat(d.literal).value);
        case InClause(values) => hit := ObservedText(d).Some? && ObservedText(d).value in values;
        case TermClause(_) =>
          hit := cc.existsOnly;
          if !hit && ObservedText(d).Some? {
            hit := StreamClauses.MatchCandidate(engine.env, cc, ObservedText(d).value);
          }
      }
    }

    // ----- one candidate -----

    /**
     Decide one candidate. A value that is handed out, matched or unfiltered, has been
     captured completely, however early capture may be switched off: it reads back as the candidate.
     */
    method ConsumeCandidate(d: Doc, matchedOnly: bool, bestEffort: bool) returns (matched: bool)
      requires Valid() && CleanDoc(engine.env, d)
      modifies this`path, this`payload, this`captureDisabled, this`capturePruneActive, engine.hits
      ensures Valid() && (matched <==> Verdict(engine, d))
      ensures includeJson && (matched || !matchedOnly) ==> payload == Render(d) && Holds(payload, d)
    {
      hide Engine.Ready, Engine.Linked, Engine.DispatchOk, NeverMatches, Seen, CleanDoc, MatchProgram, Render, Holds;
      captureDisabled := false;
      engine.Reset();
      path, payload := [], [];
      var discard := includeJson && bestEffort && matchedOnly && !engine.emptySelector && !d.DObj?;
      capturePruneActive := includeJson && d.DObj? && bestEffort && matchedOnly && !engine.emptySelector;
      PayloadReadsBack(d);
      ghost var start := engine.hits[..];
      ScanValue(d);
      matched := Match(d.DObj?);
      if d.DObj? {
        ScannedHits(d, start, engine.hits[..]);
      }
      if captureDisabled {
        DisabledNeverMatches();
      }
      if discard {
        payload := [];
      }
    }

    /** Scanning from no hits at all reaches exactly the hits of the document. */
    lemma ScannedHits(d: Doc, before: seq<bool>, after: seq<bool>)
      requires d.DObj? && path == [] && |before| == |engine.clauses| && forall i :: 0 <= i < |before| ==> !before[i]
      requires Gains(before, after, ValueVerdict(engine, d, path, NullCounts(d)))
      ensures after == SeenHits(engine, d)
    {
    }

    lemma DisabledNeverMatches()
      requires Valid() && captureDisabled
      ensures !MatchProgram(engine.program, engine.hits[..])
    {
      assert Grows(engine.hits[..], engine.hits[..]);
    }

    method Match(rootIsObject: bool) returns (matched: bool)
      ensures matched <==> engine.emptySelector || (rootIsObject && MatchProgram(engine.program, engine.hits[..]))
    {
      if engine.emptySelector {
        return true;
      }
      if !rootIsObject {
        return false;
      }
      matched := engine.Run(engine.program);
    }
  }
}
