/** Selector clauses as the streaming engine compiles and evaluates them. */
module StreamClauses {
  import opened Bytes
  import opened Json
  import opened Patterns
  import opened Dispatch
  import opened Selectors
  import opened TermMatchers
  import AhoCorasick
  import Kmp

  // ----- meaning of one clause on one streamed value -----

  predicate IsStringTerm(c: Clause) {
    c.Eq? || c.Contains? || c.Prefix?
  }

  function IgnoresCase(c: Clause): bool {
    match c
    case Eq(t) => t.ignoreCase
    case Contains(t, force) => force || t.ignoreCase
    case Prefix(t, force) => force || t.ignoreCase
    case _ => false
  }

  /** A string term that only asserts its path; eq terms always compare. */
  predicate ExistsOnly(c: Clause) {
    (c.Contains? || c.Prefix?) && OmittedValue(c.term)
  }

  function Dedup(texts: seq<Text>): seq<Text> {
    if texts == [] then []
    else
      var front, last := Dedup(texts[..|texts| - 1]), texts[|texts| - 1];
      if last in front then front else front + [last]
  }

  lemma {:induction false} DedupKeepsMembers(texts: seq<Text>)
    ensures forall t :: t in Dedup(texts) <==> t in texts
  {
    if texts != [] {
      DedupKeepsMembers(texts[..|texts| - 1]);
      assert texts == texts[..|texts| - 1] + [texts[|texts| - 1]];
    }
  }

  function DistinctNeedles(env: Env, c: Clause): seq<Text>
    requires IsStringTerm(c)
  {
    if c.term.any == [] then [] else Dedup(Needles(env, c.term, IgnoresCase(c)))
  }

  /** A string term on a candidate string; with several distinct needles the empty candidate never matches. */
  ghost predicate StreamString(env: Env, c: Clause, s: Text)
    requires IsStringTerm(c)
  {
    var f := Fold(env, IgnoresCase(c), s);
    var needle := Fold(env, IgnoresCase(c), c.term.value);
    match c
    case Eq(t) => f == needle
    case Prefix(t, _) => HasPrefix(f, needle)
    case Contains(t, _) =>
      if t.any == [] then Bytes.Contains(f, needle)
      else if |DistinctNeedles(env, c)| == 1 then Bytes.Contains(f, DistinctNeedles(env, c)[0])
      else f != [] && AhoCorasick.AnyContained(f, DistinctNeedles(env, c))
  }

  /** One clause on one value; nullExists says whether a null counts as existing. */
  ghost predicate StreamLeaf(env: Env, c: Clause, v: Json, nullExists: bool) {
    match c
    case Range(_, _, b) => v.Num? && env.parseFloat(v.literal).Some? && InBounds(b, env.parseFloat(v.literal).value)
    case In(_, _, values) => ValueToString(v).Some? && ValueToString(v).value in values
    case Exists(_) => v != Null || nullExists
    case _ => ExistsOnly(c) || (ValueToString(v).Some? && StreamString(env, c, ValueToString(v).value))
  }

  // ----- compiled clauses -----

  datatype Body = TermClause(body: TermBody) | RangeClause(bounds: Bounds) | InClause(values: seq<Text>) | ExistsClause

  datatype Compiled = Compiled(clause: Clause, pattern: Pattern, info: RecursiveInfo, tail: TailFilter,
                               ignoreCase: bool, existsOnly: bool, body: Body)

  /** The compiled tables decide StreamString. */
  ghost predicate TermOk(env: Env, c: Clause, body: TermBody, words: seq<Text>)
    requires IsStringTerm(c)
  {
    var distinct := DistinctNeedles(env, c);
    && BodyOk(body, distinct, words)
    && body.mode == (match c case Eq(_) => EqMode case Prefix(_, _) => PrefixMode case _ => ContainsMode)
    && (c.term.any != [] ==> c.Contains?)
    && (body.automaton.Some? <==> |distinct| > 1)
    && (body.automaton.None? ==> body.needle == if |distinct| == 1 then distinct[0] else Fold(env, IgnoresCase(c), c.term.value))
  }

  ghost predicate CompiledOk(env: Env, cc: Compiled) {
    var c := cc.clause;
    && Compiles(c) && cc.pattern == Compile(FieldOf(c).segments)
    && InfoOk(cc.pattern, cc.info) && cc.tail == PatternTailFilter(cc.pattern)
    && cc.ignoreCase == IgnoresCase(c) && cc.existsOnly == ExistsOnly(c)
    && match c
       case Range(_, _, b) => cc.body == RangeClause(b)
       case In(_, _, values) => cc.body.InClause? && (forall t :: t in cc.body.values <==> t in values)
       case Exists(_) => cc.body.ExistsClause?
       case _ => cc.body.TermClause? && exists words :: TermOk(env, c, cc.body.body, words)
  }

  /** Distinct needles are never none when the term lists any. */
  lemma DistinctIsNonEmpty(env: Env, c: Clause)
    requires IsStringTerm(c)
    ensures DistinctNeedles(env, c) == [] <==> c.term.any == []
  {
    DedupKeepsMembers(Needles(env, c.term, IgnoresCase(c)));
    if c.term.any != [] {
      assert Needles(env, c.term, IgnoresCase(c))[0] in Needles(env, c.term, IgnoresCase(c));
    }
  }

  lemma TermAccepts(env: Env, c: Clause, body: TermBody, words: seq<Text>, s: Text)
    requires IsStringTerm(c) && TermOk(env, c, body, words)
    ensures Accepts(body, DistinctNeedles(env, c), Fold(env, IgnoresCase(c), s)) <==> StreamString(env, c, s)
  {
    DistinctIsNonEmpty(env, c);
  }

  /** A string term that only asserts its path accepts every string. */
  lemma ExistsOnlyAccepts(env: Env, c: Clause, s: Text)
    requires ExistsOnly(c) && env.lower([]) == []
    ensures StreamString(env, c, s)
  {
    var f := Fold(env, IgnoresCase(c), s);
    assert OccursAt(f, [], 0);
  }

  /** Which clauses the engine refuses at compile time. */
  predicate Compiles(c: Clause) {
    && FieldOf(c).segments != []
    && (IsStringTerm(c) ==> c.term.any == [] || c.Contains?)
    && (c.Range? ==> HasBound(c.bounds))
  }

  method CompileTerm(env: Env, c: Clause) returns (body: TermBody, ghost words: seq<Text>)
    requires IsStringTerm(c) && (c.term.any == [] || c.Contains?)
    ensures TermOk(env, c, body, words)
  {
    DistinctIsNonEmpty(env, c);
    var mode := if c.Eq? then EqMode else if c.Prefix? then PrefixMode else ContainsMode;
    var needle, automaton, lps := Fold(env, IgnoresCase(c), c.term.value), None, [];
    words := [];
    if |c.term.any| > 0 {
      var all := Needles(env, c.term, IgnoresCase(c));
      var normalized := [];
      for i := 0 to |all|
        invariant normalized == Dedup(all[..i])
      {
        assert all[..i + 1][..i] == all[..i];
        if all[i] !in normalized {
          normalized := normalized + [all[i]];
        }
      }
      assert all[..|all|] == all;
      if |normalized| == 1 {
        needle := normalized[0];
      } else if |normalized| > 1 {
        needle := [];
        var built;
        built, words := AhoCorasick.Build(normalized);
        automaton := Some(built);
      }
    }
    if mode.ContainsMode? && automaton.None? && |needle| > 0 {
      var table := Kmp.BuildPrefixTable(needle);
      lps := table[..];
    }
    body := TermBody(mode, needle, lps, automaton);
  }

  method CompileClause(env: Env, c: Clause) returns (r: Option<Compiled>)
    ensures r.Some? <==> Compiles(c)
    ensures r.Some? ==> r.value.clause == c && CompiledOk(env, r.value)
  {
    if !Compiles(c) {
      return None;
    }
    var pattern := Compile(FieldOf(c).segments);
    var info := PatternRecursiveInfo(pattern);
    var body;
    match c {
      case Range(_, _, bounds) => body := RangeClause(bounds);
      case In(_, _, values) =>
        DedupKeepsMembers(values);
        body := InClause(Dedup(values));
      case Exists(_) => body := ExistsClause;
      case _ =>
        var term, words := CompileTerm(env, c);
        assert TermOk(env, c, term, words);
        body := TermClause(term);
    }
    return Some(Compiled(c, pattern, info, PatternTailFilter(pattern), IgnoresCase(c), ExistsOnly(c), body));
  }

  // ----- agreement with the tree evaluator -----

  /** A string on which the stream's contains loses an empty needle: it is empty itself, and several needles are told apart. */
  ghost predicate LosesEmptyNeedle(env: Env, c: Clause, s: Text)
    requires c.Contains?
  {
    Fold(env, IgnoresCase(c), s) == [] && [] in Needles(env, c.term, IgnoresCase(c)) && |DistinctNeedles(env, c)| > 1
  }

  /** The values on which the two evaluators read a clause alike. */
  ghost predicate Alike(env: Env, c: Clause, v: Json, nullExists: bool) {
    match c
    case Eq(t) => t.ignoreCase && ValueToString(v).Some? && ValueToString(v).value != t.value ==>
      env.lower(ValueToString(v).value) != env.lower(t.value)
    case Contains(t, _) => ValueToString(v).Some? && !OmittedValue(t) ==> !LosesEmptyNeedle(env, c, ValueToString(v).value)
    case Prefix(_, _) => true
    case Range(_, _, b) => v.Str? && env.parseFloat(v.text).Some? ==> !InBounds(b, env.parseFloat(v.text).value)
    case In(_, _, _) => true
    case Exists(_) => v == Null ==> !nullExists
  }

  /** Value by value, a clause that compiles means the same to both evaluators exactly on those values. */
  lemma LeavesAgree(env: Env, c: Clause, v: Json, nullExists: bool)
    requires Compiles(c)
    ensures (StreamLeaf(env, c, v, nullExists) <==> TreeLeaf(env, c, v)) <==> Alike(env, c, v, nullExists)
  {
    if (c.Contains? || c.Prefix?) && ValueToString(v).Some? {
      StringTermsAgree(env, c, ValueToString(v).value);
    }
  }

  /** Distinct needles, the single-needle shortcut and the automaton agree with trying every needle, one case aside. */
  lemma StringTermsAgree(env: Env, c: Clause, s: Text)
    requires Compiles(c) && (c.Contains? || c.Prefix?)
    ensures var f := Fold(env, IgnoresCase(c), s); var needles := Needles(env, c.term, IgnoresCase(c));
      (StreamString(env, c, s) <==>
       exists n :: n in needles && (if c.Contains? then Bytes.Contains(f, n) else HasPrefix(f, n))) <==>
      (c.Contains? ==> !LosesEmptyNeedle(env, c, s))
  {
    var f, needles := Fold(env, IgnoresCase(c), s), Needles(env, c.term, IgnoresCase(c));
    DistinctIsNonEmpty(env, c);
    if c.term.any == [] {
      var needle := Fold(env, IgnoresCase(c), c.term.value);
      assert needles == [needle] && needle in needles;
    } else {
      DedupKeepsMembers(needles);
      var distinct := DistinctNeedles(env, c);
      if |distinct| == 1 {
        assert distinct[0] in distinct;
        assert forall n :: n in distinct ==> n == distinct[0];
      } else if f == [] {
        assert OccursAt(f, [], 0);
        forall n | n in needles && n != [] ensures !Bytes.Contains(f, n) {
        }
      }
    }
  }

  // ----- matching a segmented string -----

  function FoldAll(env: Env, ignoreCase: bool, segments: seq<Text>): seq<Text> {
    seq(|segments|, i requires 0 <= i < |segments| => Fold(env, ignoreCase, segments[i]))
  }

  /** The reader cuts strings where case folding does not look across the cut. */
  predicate CleanCuts(env: Env, segments: seq<Text>) {
    env.lower(Flatten(segments)) == Flatten(FoldAll(env, true, segments))
  }

  lemma FoldedCuts(env: Env, ignoreCase: bool, segments: seq<Text>)
    requires ignoreCase ==> CleanCuts(env, segments)
    ensures Flatten(FoldAll(env, ignoreCase, segments)) == Fold(env, ignoreCase, Flatten(segments))
  {
    if !ignoreCase {
      assert FoldAll(env, ignoreCase, segments) == segments;
    }
  }

  /** Case folding that works byte by byte, as on ASCII, is clean at every cut. */
  lemma {:induction false} BytewiseFoldingIsClean(env: Env, fold: byte -> byte, segments: seq<Text>)
    requires forall t :: env.lower(t) == FoldBytes(fold, t)
    ensures CleanCuts(env, segments)
  {
    var folded := FoldAll(env, true, segments);
    if segments != [] {
      BytewiseFoldingIsClean(env, fold, segments[1..]);
      assert folded[1..] == FoldAll(env, true, segments[1..]);
    }
  }

  function FoldBytes(fold: byte -> byte, t: Text): Text {
    seq(|t|, i requires 0 <= i < |t| => fold(t[i]))
  }

  ghost function TermWords(env: Env, cc: Compiled): (words: seq<Text>)
    requires CompiledOk(env, cc) && cc.body.TermClause?
    ensures TermOk(env, cc.clause, cc.body.body, words)
  {
    var words :| TermOk(env, cc.clause, cc.body.body, words);
    words
  }

  /** The single-term fast path. */
  method MatchOneTerm(env: Env, cc: Compiled, segments: seq<Text>) returns (matched: bool)
    requires CompiledOk(env, cc) && cc.body.TermClause? && (cc.ignoreCase ==> CleanCuts(env, segments))
    ensures matched <==> StreamString(env, cc.clause, Flatten(segments))
  {
    FoldedCuts(env, cc.ignoreCase, segments);
    TermAccepts(env, cc.clause, cc.body.body, TermWords(env, cc), Flatten(segments));
    matched := MatchSingleTerm(cc.body.body, FoldAll(env, cc.ignoreCase, segments),
                               DistinctNeedles(env, cc.clause), TermWords(env, cc));
  }

  method MatchCandidate(env: Env, cc: Compiled, candidate: Text) returns (matched: bool)
    requires CompiledOk(env, cc) && cc.body.TermClause?
    ensures matched <==> StreamString(env, cc.clause, candidate)
  {
    TermAccepts(env, cc.clause, cc.body.body, TermWords(env, cc), candidate);
    matched := MatchesString(cc.body.body, Fold(env, cc.ignoreCase, candidate),
                             DistinctNeedles(env, cc.clause), TermWords(env, cc));
  }

  /** The matcher has read the first n segments, folded its own way. */
  ghost predicate MatcherAt(env: Env, cc: Compiled, st: TermState, segments: seq<Text>, n: int)
    requires CompiledOk(env, cc) && cc.body.TermClause? && 0 <= n <= |segments|
  {
    StateOk(cc.body.body, DistinctNeedles(env, cc.clause), TermWords(env, cc), st,
            Flatten(FoldAll(env, cc.ignoreCase, segments[..n])))
  }

  lemma FoldOneMore(env: Env, ignoreCase: bool, segments: seq<Text>, n: int)
    requires 0 <= n < |segments|
    ensures FoldAll(env, ignoreCase, segments[..n + 1]) == FoldAll(env, ignoreCase, segments[..n]) + [Fold(env, ignoreCase, segments[n])]
  {
  }

  lemma TermIsOk(env: Env, cc: Compiled)
    requires CompiledOk(env, cc) && cc.body.TermClause?
    ensures IsStringTerm(cc.clause) && BodyOk(cc.body.body, DistinctNeedles(env, cc.clause), TermWords(env, cc))
  {
    assert TermOk(env, cc.clause, cc.body.body, TermWords(env, cc));
  }

  /** A piece of text fed byte by byte. */
  method FeedAll(body: TermBody, st: TermState, data: Text, ghost t: Text, ghost needles: seq<Text>, ghost words: seq<Text>)
      returns (next: TermState)
    requires BodyOk(body, needles, words) && StateOk(body, needles, words, st, t)
    ensures StateOk(body, needles, words, next, t + data)
  {
    hide StateOk, BodyOk;
    next := st;
    ghost var fed := t;
    for i := 0 to |data|
      invariant fed == t + data[..i] && StateOk(body, needles, words, next, fed)
    {
      next := FeedByte(body, next, data[i], fed, needles, words);
      assert data[..i + 1] == data[..i] + [data[i]];
      fed := fed + [data[i]];
    }
    assert data[..|data|] == data;
  }

  method FeedBytes(env: Env, cc: Compiled, st: TermState, segments: seq<Text>, n: int) returns (next: TermState)
    requires CompiledOk(env, cc) && cc.body.TermClause? && 0 <= n < |segments| && MatcherAt(env, cc, st, segments, n)
    ensures MatcherAt(env, cc, next, segments, n + 1)
  {
    hide StateOk, FoldAll, CompiledOk;
    var data := Fold(env, cc.ignoreCase, segments[n]);
    ghost var t := Flatten(FoldAll(env, cc.ignoreCase, segments[..n]));
    TermIsOk(env, cc);
    next := FeedAll(cc.body.body, st, data, t, DistinctNeedles(env, cc.clause), TermWords(env, cc));
    FoldOneMore(env, cc.ignoreCase, segments, n);
    FlattenAppend(FoldAll(env, cc.ignoreCase, segments[..n]), data);
  }

  /** One of several pending terms reads the string byte by byte. */
  method MatchTermByBytes(env: Env, cc: Compiled, segments: seq<Text>) returns (matched: bool)
    requires CompiledOk(env, cc) && cc.body.TermClause? && (cc.ignoreCase ==> CleanCuts(env, segments))
    ensures matched <==> StreamString(env, cc.clause, Flatten(segments))
  {
    var st := NewTermState(cc.body.body, DistinctNeedles(env, cc.clause), TermWords(env, cc));
    assert FoldAll(env, cc.ignoreCase, segments[..0]) == [];
    for n := 0 to |segments|
      invariant MatcherAt(env, cc, st, segments, n)
    {
      st := FeedBytes(env, cc, st, segments, n);
    }
    assert segments[..|segments|] == segments;
    FoldedCuts(env, cc.ignoreCase, segments);
    TermAccepts(env, cc.clause, cc.body.body, TermWords(env, cc), Flatten(segments));
    matched := FinalMatch(cc.body.body, st, Fold(env, cc.ignoreCase, Flatten(segments)),
                          DistinctNeedles(env, cc.clause), TermWords(env, cc));
  }
}
