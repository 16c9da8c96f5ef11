/** A whole query run: candidates at the top level and inside top-level arrays, counters, and stop limits. */
module Run {
  import opened Bytes
  import opened Json
  import opened Selectors
  import opened StreamClauses
  import opened Programs
  import opened Engine
  import opened Payload
  import opened Scan
  import opened Query

  /** A candidate lies between two reader offsets; a top-level array only groups candidates. */
  datatype Top = Candidate(doc: Doc, start: nat, size: nat) | TopArray(items: seq<Top>)

  function EndOf(t: Top): nat {
    if t.Candidate? then t.start + t.size else 0
  }

  function Candidates(t: Top): seq<Top> {
    match t
    case Candidate(_, _, _) => [t]
    case TopArray(items) => AllCandidates(items)
  }

  function AllCandidates(items: seq<Top>): seq<Top> {
    if items == [] then []
    else AllCandidates(items[..|items| - 1]) + Candidates(items[|items| - 1])
  }

  /** Why a run ends before its stream; a candidate over the size limit ends it with an error. */
  datatype StopReason = NoStop | MatchLimit | CandidateLimit | ByteLimit | CallbackStop | TooLarge

  /** Zero means no limit. The callbacks may ask to stop at the n-th candidate. */
  datatype Request = Request(includeJson: bool, matchedOnly: bool, bestEffort: bool,
                             maxMatches: nat, maxCandidates: nat, maxBytesRead: nat, maxCandidateBytes: nat,
                             decisionStops: nat -> bool, valueStops: nat -> bool)

  datatype Decision = Decision(matched: bool, size: nat, offset: nat)

  datatype Value = Value(matched: bool, size: nat, payload: Option<seq<Piece>>)

  // ----- what a run delivers, candidate by candidate -----

  ghost predicate Decided(e: Engine, t: Top) {
    t.Candidate? && Verdict(e, t.doc)
  }

  predicate Oversized(req: Request, t: Top) {
    t.Candidate? && req.maxCandidateBytes > 0 && t.size > req.maxCandidateBytes
  }

  /** A candidate over the size limit is counted as seen, and neither decided nor delivered. */
  ghost function Decisions(e: Engine, req: Request, seen: seq<Top>): seq<Decision> {
    if seen == [] then []
    else
      var n := |seen| - 1;
      Decisions(e, req, seen[..n]) +
      (if seen[n].Candidate? && !Oversized(req, seen[n]) then [Decision(Decided(e, seen[n]), seen[n].size, seen[n].start)] else [])
  }

  ghost function MatchCount(e: Engine, req: Request, seen: seq<Top>): nat {
    if seen == [] then 0
    else
      var n := |seen| - 1;
      MatchCount(e, req, seen[..n]) + (if Decided(e, seen[n]) && !Oversized(req, seen[n]) then 1 else 0)
  }

  /** A value is handed out unless the decision callback stops the run or the value is filtered away. */
  ghost predicate HandsOut(e: Engine, req: Request, t: Top, n: nat) {
    !Oversized(req, t) && !req.decisionStops(n) && (Decided(e, t) || !req.matchedOnly)
  }

  ghost function Values(e: Engine, req: Request, seen: seq<Top>): seq<Value> {
    if seen == [] then []
    else
      var n := |seen| - 1;
      Values(e, req, seen[..n]) + (if seen[n].Candidate? && HandsOut(e, req, seen[n], n) then [Handed(e, req, seen[n])] else [])
  }

  /** The value handed out: the verdict, and the whole candidate when payloads are asked for. */
  ghost function Handed(e: Engine, req: Request, t: Top): Value
    requires t.Candidate?
  {
    Value(Decided(e, t), t.size, if req.includeJson then Some(Render(t.doc)) else None)
  }

  function LimitReached(req: Request, matched: nat, candidates: nat, bytesRead: nat): StopReason {
    if req.maxMatches > 0 && matched >= req.maxMatches then MatchLimit
    else if req.maxCandidates > 0 && candidates >= req.maxCandidates then CandidateLimit
    else if req.maxBytesRead > 0 && bytesRead >= req.maxBytesRead then ByteLimit
    else NoStop
  }

  /** Why a run that has seen exactly these candidates stops, if it does. */
  ghost function ReasonAfter(e: Engine, req: Request, seen: seq<Top>): StopReason {
    if seen == [] then NoStop
    else
      var n := |seen| - 1;
      if Oversized(req, seen[n]) then TooLarge
      else if req.decisionStops(n) || (HandsOut(e, req, seen[n], n) && req.valueStops(n)) then CallbackStop
      else LimitReached(req, MatchCount(e, req, seen), |seen|, EndOf(seen[n]))
  }

  /** No proper prefix gave a reason to stop. */
  ghost predicate StillRunning(e: Engine, req: Request, seen: seq<Top>) {
    forall n :: 0 <= n < |seen| ==> ReasonAfter(e, req, seen[..n]) == NoStop
  }

  predicate CleanTop(env: Env, t: Top) {
    match t
    case Candidate(d, _, _) => CleanDoc(env, d)
    case TopArray(items) => forall i | 0 <= i < |items| :: CleanTop(env, items[i])
  }

  class Runner {
    const scan: ScanState
    const req: Request
    var candidatesSeen: nat
    var candidatesMatched: nat
    var bytesRead: nat
    var lastOffset: int
    var stopReason: StopReason
    var decisions: seq<Decision>
    var values: seq<Value>
    ghost var seen: seq<Top>

    /** The deliveries, the counts and the stop reason are those of the candidates seen so far. */
    ghost predicate Delivered()
      reads this
    {
      && (forall i :: 0 <= i < |seen| ==> seen[i].Candidate?)
      && candidatesSeen == |seen| && candidatesMatched == MatchCount(scan.engine, req, seen)
      && decisions == Decisions(scan.engine, req, seen) && values == Values(scan.engine, req, seen)
      && stopReason == ReasonAfter(scan.engine, req, seen) && StillRunning(scan.engine, req, seen)
    }

    /** While candidates come, the reader has been read up to the end of the last one. */
    ghost predicate Describes()
      reads this
    {
      && Delivered()
      && (if seen == [] then bytesRead == 0 && lastOffset == -1 else bytesRead == lastOffset == EndOf(seen[|seen| - 1]))
    }

    ghost predicate Valid()
      reads this, scan, scan.engine.hits, scan.engine.dispatch
    {
      scan.Valid() && scan.includeJson == req.includeJson && Describes()
    }

    constructor (engine: Engine, req: Request)
      requires engine.Ready() && engine.DispatchOk() && engine.Linked() && engine.env.lower([]) == []
      ensures Valid() && this.req == req && scan.engine == engine && seen == [] && stopReason == NoStop && fresh(scan)
    {
      this.req := req;
      scan := new ScanState(engine, req.includeJson);
      candidatesSeen, candidatesMatched, bytesRead, lastOffset, stopReason := 0, 0, 0, -1, NoStop;
      decisions, values, seen := [], [], [];
    }

    /** One candidate: decided, delivered, counted, and checked against the limits. */
    method Consume(d: Doc, start: nat, size: nat)
      requires Valid() && stopReason == NoStop && CleanDoc(scan.engine.env, d)
      modifies this, scan, scan.engine.hits
      ensures Valid() && seen == old(seen) + [Candidate(d, start, size)]
    {
      hide ScanState.Valid, Runner.Describes, Verdict;
      var matched := scan.ConsumeCandidate(d, req.matchedOnly, req.bestEffort);
      Record(d, start, size, matched);
    }

    method Record(d: Doc, start: nat, size: nat, matched: bool)
      requires Describes() && stopReason == NoStop && (matched <==> Verdict(scan.engine, d))
      requires req.includeJson && (matched || !req.matchedOnly) ==> scan.payload == Render(d)
      modifies this
      ensures Describes() && seen == old(seen) + [Candidate(d, start, size)]
    {
      hide StillRunning, Decisions, Verdict, MatchCount, Values, ReasonAfter, HandsOut, Handed, LimitReached;
      var n := candidatesSeen;
      ghost var t := Candidate(d, start, size);
      SeenOneMore(t);
      seen := seen + [t];
      candidatesSeen, bytesRead, lastOffset := candidatesSeen + 1, start + size, start + size;
      if req.maxCandidateBytes > 0 && size > req.maxCandidateBytes {
        stopReason := TooLarge;
        return;
      }
      if matched {
        candidatesMatched := candidatesMatched + 1;
      }
      Deliver(t, d, start, size, matched, n);
    }

    /** The callbacks, and the limits if neither of them stops the run. */
    method Deliver(ghost t: Top, d: Doc, start: nat, size: nat, matched: bool, n: nat)
      requires t == Candidate(d, start, size) && !Oversized(req, t) && stopReason == NoStop && bytesRead == EndOf(t)
      requires (matched <==> Decided(scan.engine, t)) && (req.includeJson && (matched || !req.matchedOnly) ==> scan.payload == Render(d))
      modifies this`decisions, this`values, this`stopReason
      ensures decisions == old(decisions) + [Decision(matched, size, start)]
      ensures values == old(values) + (if HandsOut(scan.engine, req, t, n) then [Handed(scan.engine, req, t)] else [])
      ensures stopReason ==
        if req.decisionStops(n) || (HandsOut(scan.engine, req, t, n) && req.valueStops(n)) then CallbackStop
        else LimitReached(req, candidatesMatched, candidatesSeen, EndOf(t))
    {
      hide Verdict, Decided;
      decisions := decisions + [Decision(matched, size, start)];
      if req.decisionStops(n) {
        stopReason := CallbackStop;
        return;
      }
      if matched || !req.matchedOnly {
        values := values + [Value(matched, size, if req.includeJson then Some(scan.payload) else None)];
        if req.valueStops(n) {
          stopReason := CallbackStop;
          return;
        }
      }
      stopReason := LimitReached(req, candidatesMatched, candidatesSeen, bytesRead);
    }

    /** At the end of the input everything has been read, closing brackets and trailing space included. */
    method ReachEnd(streamEnd: nat)
      requires Delivered()
      modifies this`bytesRead, this`lastOffset
      ensures Delivered() && bytesRead == lastOffset == streamEnd
    {
      bytesRead, lastOffset := streamEnd, streamEnd;
    }

    /** One more candidate after a run that has no reason to stop. */
    lemma SeenOneMore(t: Top)
      requires StillRunning(scan.engine, req, seen) && ReasonAfter(scan.engine, req, seen) == NoStop && t.Candidate?
      ensures var e, more, n := scan.engine, seen + [t], |seen|;
        && StillRunning(e, req, more) && (Oversized(req, t) ==> !HandsOut(e, req, t, n))
        && Decisions(e, req, more) == Decisions(e, req, seen) + (if Oversized(req, t) then [] else [Decision(Decided(e, t), t.size, t.start)])
        && MatchCount(e, req, more) == MatchCount(e, req, seen) + (if Decided(e, t) && !Oversized(req, t) then 1 else 0)
        && Values(e, req, more) == Values(e, req, seen) + (if HandsOut(e, req, t, n) then [Handed(e, req, t)] else [])
        && ReasonAfter(e, req, more) ==
          if Oversized(req, t) then TooLarge
          else if req.decisionStops(n) || (HandsOut(e, req, t, n) && req.valueStops(n)) then CallbackStop
          else LimitReached(req, MatchCount(e, req, more), |more|, EndOf(t))
    {
      hide Decided, Handed, LimitReached, StillRunning;
      var more := seen + [t];
      assert more[..|seen|] == seen && more[|more| - 1] == t;
      StillRunsWith(t);
    }

    lemma StillRunsWith(t: Top)
      requires StillRunning(scan.engine, req, seen) && ReasonAfter(scan.engine, req, seen) == NoStop
      ensures StillRunning(scan.engine, req, seen + [t])
    {
      hide ReasonAfter;
      var more := seen + [t];
      forall n | 0 <= n <= |seen| ensures ReasonAfter(scan.engine, req, more[..n]) == NoStop {
        assert more[..n] == seen[..n];
        assert seen[..|seen|] == seen;
      }
    }

    /** A top-level value: a candidate, or an array of further top-level values. */
    method ConsumeTop(t: Top)
      requires Valid() && stopReason == NoStop && CleanTop(scan.engine.env, t)
      modifies this, scan, scan.engine.hits
      ensures Valid() && seen <= old(seen) + Candidates(t)
      ensures stopReason == NoStop ==> seen == old(seen) + Candidates(t)
      decreases t
    {
      match t
      case Candidate(d, start, size) => Consume(d, start, size);
      case TopArray(items) => ConsumeAll(items);
    }

    method ConsumeAll(items: seq<Top>)
      requires Valid() && stopReason == NoStop && forall i :: 0 <= i < |items| ==> CleanTop(scan.engine.env, items[i])
      modifies this, scan, scan.engine.hits
      ensures Valid() && seen <= old(seen) + AllCandidates(items)
      ensures stopReason == NoStop ==> seen == old(seen) + AllCandidates(items)
      decreases items
    {
      hide ScanState.Valid, Runner.Describes;
      for n := 0 to |items|
        invariant Valid() && stopReason == NoStop && seen == old(seen) + AllCandidates(items[..n])
      {
        CandidatesSplit(items, n);
        ConsumeTop(items[n]);
        if stopReason != NoStop {
          return;
        }
      }
      assert items[..|items|] == items;
    }
  }

  lemma {:induction false} CandidatesSplit(items: seq<Top>, n: nat)
    requires n < |items|
    ensures AllCandidates(items[..n + 1]) == AllCandidates(items[..n]) + Candidates(items[n])
    ensures AllCandidates(items[..n + 1]) <= AllCandidates(items)
    decreases |items|
  {
    assert items[..n + 1][..n] == items[..n];
    if n + 1 < |items| {
      var front := items[..|items| - 1];
      CandidatesSplit(front, n);
      assert front[..n + 1] == items[..n + 1];
    } else {
      assert items[..n + 1] == items;
    }
  }

  /** Grouping does not matter: a candidate is itself, an array its items, and lists one after the other are both. */
  lemma {:induction false} GroupingIsFlattened(a: seq<Top>, b: seq<Top>, t: Top)
    ensures AllCandidates(a + b) == AllCandidates(a) + AllCandidates(b)
    ensures AllCandidates([t]) == if t.Candidate? then [t] else AllCandidates(t.items)
    decreases |b|
  {
    assert [t][..0] == [];
    if b == [] {
      assert a + b == a;
    } else {
      var n := |b| - 1;
      GroupingIsFlattened(a, b[..n], t);
      assert (a + b)[..|a + b| - 1] == a + b[..n];
    }
  }

  /** A candidate whose decision must be the tree evaluator's: an object read alike by both. */
  ghost predicate Comparable(e: Engine, d: Doc) {
    d.DObj? && UniqueKeys(d) && AllNeutral(e, Decode(d))
  }

  /** What the selector says of a candidate, decided on its tree; only an empty selector matches a non-object. */
  ghost predicate TreeDecision(env: Env, sel: Selector, d: Doc) {
    if d.DObj? then Satisfies(env, Simplify(sel), Decode(d)) else IsEmpty(Simplify(sel))
  }

  lemma DecisionIsTree(e: Engine, sel: Selector, t: Top)
    requires e.Ready() && e.Linked() && e.selector == Simplify(sel) && (OwnKeys(sel) || OwnKeys(e.selector)) && t.Candidate?
    requires Comparable(e, t.doc) || !t.doc.DObj?
    ensures Decided(e, t) <==> TreeDecision(e.env, sel, t.doc)
  {
    if t.doc.DObj? {
      StreamIsTree(e, sel, t.doc);
    }
  }

  /** Only the last candidate of a run can be too large, and a run without its last candidate was running. */
  lemma ShorterRun(e: Engine, req: Request, seen: seq<Top>)
    requires StillRunning(e, req, seen) && seen != []
    ensures var front := seen[..|seen| - 1];
      StillRunning(e, req, front) && forall k :: 0 <= k < |front| ==> !Oversized(req, front[k])
  {
    hide Decided, MatchCount, HandsOut, LimitReached;
    var front := seen[..|seen| - 1];
    forall k | 0 <= k < |front| ensures ReasonAfter(e, req, front[..k]) == NoStop {
      assert front[..k] == seen[..k];
    }
    forall k | 0 <= k < |front| ensures !Oversized(req, front[k]) {
      var more := seen[..k + 1];
      assert more[|more| - 1] == front[k] && ReasonAfter(e, req, more) == NoStop;
    }
  }

  /** Decisions of a run line up with its candidates, but for a last one that was too large. */
  lemma {:induction false} DecisionsLineUp(e: Engine, req: Request, seen: seq<Top>, i: nat)
    requires StillRunning(e, req, seen) && i < |seen| && !Oversized(req, seen[i])
    requires forall k :: 0 <= k < |seen| ==> seen[k].Candidate?
    ensures i < |Decisions(e, req, seen)| && Decisions(e, req, seen)[i] == Decision(Decided(e, seen[i]), seen[i].size, seen[i].start)
    ensures |Decisions(e, req, seen)| == if Oversized(req, seen[|seen| - 1]) then |seen| - 1 else |seen|
    decreases |seen|
  {
    hide Decided, StillRunning, Oversized;
    var n := |seen| - 1;
    if n > 0 {
      ShorterRun(e, req, seen);
      DecisionsLineUp(e, req, seen[..n], if i < n then i else 0);
    }
  }

  /** A callback asks to stop at the n-th candidate. */
  ghost predicate CalledBack(e: Engine, req: Request, t: Top, n: nat) {
    req.decisionStops(n) || ((Decided(e, t) || !req.matchedOnly) && req.valueStops(n))
  }

  /** No limit is passed, and before the last candidate, or at all in a run that goes on, none is reached. */
  ghost predicate WithinLimits(req: Request, seen: seq<Top>, matched: nat, reason: StopReason) {
    && (req.maxMatches > 0 ==> matched <= req.maxMatches && (reason == NoStop ==> matched < req.maxMatches))
    && (req.maxCandidates > 0 ==> |seen| <= req.maxCandidates && (reason == NoStop ==> |seen| < req.maxCandidates))
    && (req.maxBytesRead > 0 ==> forall i :: 0 <= i < |seen| && (i < |seen| - 1 || reason == NoStop) ==> EndOf(seen[i]) < req.maxBytesRead)
  }

  /** The reason is what the last candidate met first: its size, a callback, then the limits on matches, candidates and bytes. */
  ghost predicate ReasonIsFirst(e: Engine, req: Request, seen: seq<Top>, matched: nat, reason: StopReason)
    requires seen != []
  {
    var last := seen[|seen| - 1];
    var large := last.Candidate? && 0 < req.maxCandidateBytes < last.size;
    var called := !large && CalledBack(e, req, last, |seen| - 1);
    var allMatched, allSeen := 0 < req.maxMatches == matched, 0 < req.maxCandidates == |seen|;
    var allRead := req.maxBytesRead > 0 && EndOf(last) >= req.maxBytesRead;
    && (reason == TooLarge <==> large)
    && (reason == CallbackStop <==> called)
    && (reason == MatchLimit <==> !large && !called && allMatched)
    && (reason == CandidateLimit <==> !large && !called && !allMatched && allSeen)
    && (reason == ByteLimit <==> !large && !called && !allMatched && !allSeen && allRead)
  }

  /** Where there is no reason to stop, no limit has been reached. */
  lemma NotReached(e: Engine, req: Request, seen: seq<Top>)
    requires ReasonAfter(e, req, seen) == NoStop
    ensures req.maxMatches > 0 ==> MatchCount(e, req, seen) < req.maxMatches
    ensures req.maxCandidates > 0 ==> |seen| < req.maxCandidates
    ensures req.maxBytesRead > 0 && seen != [] ==> EndOf(seen[|seen| - 1]) < req.maxBytesRead
  {
    hide Decided, EndOf, Oversized, HandsOut;
  }

  /** The end of every candidate but the last is before the byte limit. */
  lemma BytesUnread(e: Engine, req: Request, seen: seq<Top>, i: nat)
    requires StillRunning(e, req, seen) && i + 1 < |seen| && req.maxBytesRead > 0
    ensures EndOf(seen[i]) < req.maxBytesRead
  {
    hide ReasonAfter, EndOf;
    var front := seen[..i + 1];
    assert front[|front| - 1] == seen[i];
    NotReached(e, req, front);
  }

  lemma OneMoreMatch(e: Engine, req: Request, seen: seq<Top>)
    requires seen != []
    ensures MatchCount(e, req, seen) <= MatchCount(e, req, seen[..|seen| - 1]) + 1
  {
  }

  lemma FirstReason(e: Engine, req: Request, seen: seq<Top>)
    requires seen != [] && seen[|seen| - 1].Candidate? && ReasonAfter(e, req, seen[..|seen| - 1]) == NoStop
    ensures ReasonIsFirst(e, req, seen, MatchCount(e, req, seen), ReasonAfter(e, req, seen))
  {
    NotReached(e, req, seen[..|seen| - 1]);
    OneMoreMatch(e, req, seen);
    hide Decided, EndOf, MatchCount;
  }

  /** A run never goes past a limit, and names the first one it meets. */
  lemma LimitsHold(e: Engine, req: Request, seen: seq<Top>)
    requires StillRunning(e, req, seen) && forall i :: 0 <= i < |seen| ==> seen[i].Candidate?
    ensures WithinLimits(req, seen, MatchCount(e, req, seen), ReasonAfter(e, req, seen))
    ensures seen != [] ==> ReasonIsFirst(e, req, seen, MatchCount(e, req, seen), ReasonAfter(e, req, seen))
  {
    hide ReasonIsFirst, ReasonAfter, EndOf;
    if seen != [] {
      var front := seen[..|seen| - 1];
      assert ReasonAfter(e, req, front) == NoStop;
      NotReached(e, req, front);
      OneMoreMatch(e, req, seen);
      FirstReason(e, req, seen);
      forall i | 0 <= i < |seen| - 1 && req.maxBytesRead > 0 ensures EndOf(seen[i]) < req.maxBytesRead {
        BytesUnread(e, req, seen, i);
      }
    }
    if ReasonAfter(e, req, seen) == NoStop {
      NotReached(e, req, seen);
    }
  }

  /** A candidate's value: its verdict, and, when payloads are asked for, a payload that reads back as the candidate. */
  ghost predicate IsValueOf(e: Engine, req: Request, v: Value, t: Top)
    requires t.Candidate?
  {
    && v.matched == Decided(e, t) && v.size == t.size
    && (v.payload.Some? <==> req.includeJson)
    && (v.payload.Some? ==> Holds(v.payload.value, t.doc))
  }

  /** Which of the values handed out is the i-th candidate's. */
  ghost function ValueOf(e: Engine, req: Request, seen: seq<Top>, i: nat): nat
    requires i < |seen|
  {
    |Values(e, req, seen[..i])|
  }

  /** Every candidate that is handed out has its value, in order. */
  lemma {:induction false} ValuesLineUp(e: Engine, req: Request, seen: seq<Top>, i: nat)
    requires i < |seen| && seen[i].Candidate? && HandsOut(e, req, seen[i], i)
    ensures var k := ValueOf(e, req, seen, i); k < |Values(e, req, seen)| && IsValueOf(e, req, Values(e, req, seen)[k], seen[i])
    decreases |seen|
  {
    hide Decided, Holds, Render, HandsOut;
    var n := |seen| - 1;
    if i < n {
      ValuesLineUp(e, req, seen[..n], i);
      assert seen[..n][..i] == seen[..i];
    } else {
      PayloadReadsBack(seen[i].doc);
    }
  }

  /** Which candidates are handed out: not too large, not stopped by the decision callback, and matched or unfiltered. */
  ghost function HandedAt(e: Engine, req: Request, seen: seq<Top>): set<int> {
    set i | 0 <= i < |seen| && seen[i].Candidate? && !(0 < req.maxCandidateBytes < seen[i].size) &&
      !req.decisionStops(i) && (req.matchedOnly ==> Decided(e, seen[i]))
  }

  ghost predicate EachHasItsValue(e: Engine, req: Request, seen: seq<Top>, values: seq<Value>) {
    forall i :: i in HandedAt(e, req, seen) ==>
      var k := ValueOf(e, req, seen, i); k < |values| && IsValueOf(e, req, values[k], seen[i])
  }

  lemma EachIsHanded(e: Engine, req: Request, seen: seq<Top>)
    ensures EachHasItsValue(e, req, seen, Values(e, req, seen))
  {
    hide Decided, IsValueOf, Values;
    forall i | i in HandedAt(e, req, seen)
      ensures var k := ValueOf(e, req, seen, i); k < |Values(e, req, seen)| && IsValueOf(e, req, Values(e, req, seen)[k], seen[i])
    {
      ValuesLineUp(e, req, seen, i);
    }
  }

  /** Which of the decisions are matches. */
  ghost function MatchedAt(decisions: seq<Decision>): set<int> {
    set i | 0 <= i < |decisions| && decisions[i].matched
  }

  lemma OneMoreDecision(front: seq<Decision>, last: Decision)
    ensures |MatchedAt(front + [last])| == |MatchedAt(front)| + if last.matched then 1 else 0
  {
    assert MatchedAt(front + [last]) == MatchedAt(front) + if last.matched then {|front|} else {};
  }

  /** The matches counted are the decisions that say so. */
  lemma {:induction false} MatchesAreDecisions(e: Engine, req: Request, seen: seq<Top>)
    requires forall i :: 0 <= i < |seen| ==> seen[i].Candidate?
    ensures MatchCount(e, req, seen) == |MatchedAt(Decisions(e, req, seen))|
    decreases |seen|
  {
    hide Decided, Oversized;
    if seen != [] {
      var n := |seen| - 1;
      MatchesAreDecisions(e, req, seen[..n]);
      if !Oversized(req, seen[n]) {
        OneMoreDecision(Decisions(e, req, seen[..n]), Decision(Decided(e, seen[n]), seen[n].size, seen[n].start));
      } else {
        assert Decisions(e, req, seen[..n]) + [] == Decisions(e, req, seen[..n]);
      }
    } else {
      assert MatchedAt(Decisions(e, req, seen)) == {};
    }
  }

  lemma OneMoreHanded(e: Engine, req: Request, seen: seq<Top>)
    requires seen != []
    ensures var n := |seen| - 1;
      HandedAt(e, req, seen) == HandedAt(e, req, seen[..n]) + if seen[n].Candidate? && HandsOut(e, req, seen[n], n) then {n} else {}
    ensures |seen| - 1 !in HandedAt(e, req, seen[..|seen| - 1])
  {
    hide Decided;
  }

  /** No value but those of the candidates handed out. */
  lemma {:induction false} NoOtherValues(e: Engine, req: Request, seen: seq<Top>)
    ensures |Values(e, req, seen)| == |HandedAt(e, req, seen)|
    decreases |seen|
  {
    hide Handed, HandsOut;
    if seen != [] {
      hide HandedAt;
      NoOtherValues(e, req, seen[..|seen| - 1]);
      OneMoreHanded(e, req, seen);
    } else {
      assert HandedAt(e, req, seen) == {};
    }
  }

  /** The decisions on candidates the two evaluators read alike are the tree evaluator's. */
  ghost predicate DecidedOnTrees(e: Engine, env: Env, sel: Selector, req: Request, seen: seq<Top>, decisions: seq<Decision>) {
    forall i :: 0 <= i < |seen| && seen[i].Candidate? && !Oversized(req, seen[i]) && (Comparable(e, seen[i].doc) || !seen[i].doc.DObj?) ==>
      i < |decisions| && decisions[i] == Decision(TreeDecision(env, sel, seen[i].doc), seen[i].size, seen[i].start)
  }

  lemma DecidesOnTrees(e: Engine, sel: Selector, req: Request, seen: seq<Top>)
    requires e.Ready() && e.Linked() && e.selector == Simplify(sel) && (OwnKeys(sel) || OwnKeys(e.selector))
    requires StillRunning(e, req, seen) && forall i :: 0 <= i < |seen| ==> seen[i].Candidate?
    ensures DecidedOnTrees(e, e.env, sel, req, seen, Decisions(e, req, seen))
  {
    hide Engine.Ready, Engine.Linked, OwnKeys, Comparable, TreeDecision, Decisions, StillRunning;
    forall i | 0 <= i < |seen| && !Oversized(req, seen[i]) && (Comparable(e, seen[i].doc) || !seen[i].doc.DObj?)
      ensures i < |Decisions(e, req, seen)|
      ensures Decisions(e, req, seen)[i] == Decision(TreeDecision(e.env, sel, seen[i].doc), seen[i].size, seen[i].start)
    {
      DecisionsLineUp(e, req, seen, i);
      DecisionIsTree(e, sel, seen[i]);
    }
  }

  /** The counters, deliveries and stop reason of a run, in terms of the request and of what was seen. */
  ghost predicate Accounted(e: Engine, req: Request, seen: seq<Top>, matched: nat, reason: StopReason,
                            decisions: seq<Decision>, values: seq<Value>) {
    && WithinLimits(req, seen, matched, reason) && (seen != [] ==> ReasonIsFirst(e, req, seen, matched, reason))
    && EachHasItsValue(e, req, seen, values) && |values| == |HandedAt(e, req, seen)|
    && matched == |MatchedAt(decisions)|
  }

  lemma RunIsAccounted(e: Engine, req: Request, seen: seq<Top>)
    requires StillRunning(e, req, seen) && forall i :: 0 <= i < |seen| ==> seen[i].Candidate?
    ensures Accounted(e, req, seen, MatchCount(e, req, seen), ReasonAfter(e, req, seen), Decisions(e, req, seen), Values(e, req, seen))
  {
    LimitsHold(e, req, seen);
    EachIsHanded(e, req, seen);
    NoOtherValues(e, req, seen);
    MatchesAreDecisions(e, req, seen);
    hide StillRunning, WithinLimits, ReasonIsFirst, EachHasItsValue, MatchCount, ReasonAfter, Decisions, Values, HandedAt, MatchedAt;
  }

  /**
   A whole run. It sees a prefix of the stream's candidates, the shortest one at whose end there
   is a reason to stop or else all of them; its counters, deliveries and stop reason are those of
   that prefix, and its decisions are the tree evaluator's. An unstopped run has read the whole
   stream, a stopped one has read up to the end of its last candidate.
   */
  method QueryStream(env: Env, sel: Selector, req: Request, items: seq<Top>, streamEnd: nat) returns (run: Option<Runner>)
    requires env.lower([]) == [] && forall i :: 0 <= i < |items| ==> CleanTop(env, items[i])
    ensures run.None? ==> SomeDoesNotCompile(Simplify(sel))
    ensures OwnKeys(Simplify(sel)) ==> (run.None? <==> SomeDoesNotCompile(Simplify(sel)))
    ensures run.Some? ==> var r := run.value;
      && r.Delivered() && r.req == req && r.seen <= AllCandidates(items)
      && (if r.stopReason == NoStop then r.seen == AllCandidates(items) && r.bytesRead == r.lastOffset == streamEnd
          else r.seen != [] && r.bytesRead == r.lastOffset == EndOf(r.seen[|r.seen| - 1]))
      && Accounted(r.scan.engine, req, r.seen, r.candidatesMatched, r.stopReason, r.decisions, r.values)
    ensures run.Some? && (OwnKeys(sel) || OwnKeys(Simplify(sel))) ==>
      DecidedOnTrees(run.value.scan.engine, env, sel, req, run.value.seen, run.value.decisions)
  {
    hide ScanState.Valid, Comparable, TreeDecision, OwnKeys, Engine.Ready, Engine.Linked, Engine.DispatchOk, StillRunning, Decisions;
    hide Accounted, DecidedOnTrees, ReasonAfter, Values, MatchCount;
    var e := NewEngine(env, sel);
    if e.None? {
      return None;
    }
    var r := new Runner(e.value, req);
    r.ConsumeAll(items);
    if OwnKeys(sel) || OwnKeys(Simplify(sel)) {
      DecidesOnTrees(r.scan.engine, sel, req, r.seen);
    }
    RunIsAccounted(r.scan.engine, req, r.seen);
    if r.stopReason == NoStop {
      r.ReachEnd(streamEnd);
    }
    return Some(r);
  }
}
