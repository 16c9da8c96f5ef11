/**
 String terms as the stream evaluates them: compiled once, then fed a value's
 bytes one by one or segment by segment.
 */
module TermMatchers {
  import opened Bytes
  import opened Json
  import Kmp
  import opened AhoCorasick

  datatype Mode = EqMode | ContainsMode | PrefixMode

  datatype TermBody = TermBody(mode: Mode, needle: Text, lps: seq<int>, automaton: Option<Automaton>)

  /** The compiled tables fit the needles they were built from. */
  ghost predicate BodyOk(body: TermBody, needles: seq<Text>, words: seq<Text>) {
    && (body.automaton.Some? ==> body.mode.ContainsMode? && IsAutomaton(body.automaton.value, words, needles))
    && (body.mode.ContainsMode? && body.automaton.None? && body.needle != [] ==> Kmp.IsPrefixTable(body.needle, body.lps))
  }

  /** What a compiled term accepts; several needles never accept the empty text. */
  ghost predicate Accepts(body: TermBody, needles: seq<Text>, t: Text) {
    match body.mode
    case EqMode => t == body.needle
    case PrefixMode => HasPrefix(t, body.needle)
    case ContainsMode =>
      if body.automaton.Some? then t != [] && AnyContained(t, needles) else Contains(t, body.needle)
  }

  datatype TermState = TermState(eqPos: int, eqMismatch: bool, prefixPos: int, prefixDone: bool,
                                 containsPos: int, acState: int, matched: bool)

  /** The matcher's variables after the text t. */
  ghost predicate StateOk(body: TermBody, needles: seq<Text>, words: seq<Text>, st: TermState, t: Text) {
    match body.mode
    case EqMode =>
      if st.eqMismatch then !HasPrefix(body.needle, t) else st.eqPos == |t| && HasPrefix(body.needle, t)
    case PrefixMode =>
      if st.prefixDone then (if st.matched then HasPrefix(t, body.needle) else !HasPrefix(body.needle, t) && !HasPrefix(t, body.needle))
      else !st.matched && st.prefixPos == |t| < |body.needle| && HasPrefix(body.needle, t)
    case ContainsMode =>
      if body.automaton.Some? then
        AutomatonOk(needles, words, st.acState, st.matched, t)
      else
        (st.matched <==> Contains(t, body.needle)) && (!st.matched ==> body.needle != [] && Kmp.Longest(body.needle, t, st.containsPos))
  }

  method NewTermState(body: TermBody, ghost needles: seq<Text>, ghost words: seq<Text>) returns (st: TermState)
    requires BodyOk(body, needles, words)
    ensures StateOk(body, needles, words, st, [])
  {
    st := TermState(0, false, 0, false, 0, 0, false);
    match body.mode
    case ContainsMode =>
      if body.automaton.None? && |body.needle| == 0 {
        assert OccursAt([], body.needle, 0);
        st := st.(matched := true);
      }
      if body.automaton.Some? {
        WordIsItsLongestSuffix(words, 0);
      }
    case PrefixMode =>
      if |body.needle| == 0 {
        st := st.(matched := true, prefixDone := true);
      }
    case EqMode =>
  }

  lemma PrefixExtend(p: Text, t: Text, s: Text)
    ensures HasPrefix(p, t + s) <==> HasPrefix(p, t) && |t| + |s| <= |p| && p[|t|..|t| + |s|] == s
    ensures HasPrefix(t, p) ==> HasPrefix(t + s, p)
    ensures !HasPrefix(p, t) && !HasPrefix(t, p) ==> !HasPrefix(t + s, p)
  {
    var u := t + s;
    assert u[..|t|] == t;
    if |u| <= |p| {
      assert p[..|u|] == p[..|t|] + p[|t|..|u|];
      assert p[..|u|][..|t|] == p[..|t|];
    }
    if HasPrefix(u, p) {
      if |p| <= |t| {
        assert t[..|p|] == u[..|p|];
      } else {
        assert p[..|t|] == u[..|p|][..|t|] == t;
      }
    }
    if HasPrefix(t, p) {
      assert u[..|p|] == t[..|p|];
    }
  }

  /** Feeding one byte. */
  method FeedByte(body: TermBody, st: TermState, b: byte, ghost t: Text, ghost needles: seq<Text>, ghost words: seq<Text>)
      returns (next: TermState)
    requires BodyOk(body, needles, words) && StateOk(body, needles, words, st, t)
    ensures StateOk(body, needles, words, next, t + [b])
  {
    next := st;
    PrefixExtend(body.needle, t, [b]);
    match body.mode
    case EqMode =>
      if st.eqMismatch {
        return;
      }
      if st.eqPos < |body.needle| {
        if body.needle[st.eqPos] == b {
          next := st.(eqPos := st.eqPos + 1);
        } else {
          next := st.(eqMismatch := true);
        }
        return;
      }
      next := st.(eqMismatch := true);
    case ContainsMode =>
      if body.automaton.Some? {
        if st.matched {
          ReportedStays(needles, t, [b]);
        } else {
          var state, matched := FeedAutomaton(body.automaton.value, st.acState, b, t, needles, words);
          next := st.(acState := state, matched := matched);
        }
      } else {
        ContainsExtend(t, b, body.needle);
        if !st.matched && |body.needle| > 0 {
          var pos, matched := Kmp.FeedByte(body.needle, body.lps, st.containsPos, b, t);
          next := st.(containsPos := pos, matched := matched);
        }
      }
    case PrefixMode =>
      if st.prefixDone {
        return;
      }
      if st.prefixPos < |body.needle| && body.needle[st.prefixPos] == b {
        next := st.(prefixPos := st.prefixPos + 1);
        if next.prefixPos == |body.needle| {
          assert (t + [b])[..|body.needle|] == body.needle;
          next := next.(matched := true, prefixDone := true);
        }
        return;
      }
      MismatchIsFinal(body.needle, t, b);
      next := st.(prefixDone := true);
  }

  lemma MismatchIsFinal(p: Text, t: Text, b: byte)
    requires |t| < |p| && HasPrefix(p, t) && p[|t|] != b
    ensures !HasPrefix(p, t + [b]) && !HasPrefix(t + [b], p)
  {
    assert (t + [b])[|t|] == b;
    assert |p| <= |t| + 1 ==> (t + [b])[..|p|][|t|] == b;
  }

  /** The verdict at the closing quote. */
  method FinalMatch(body: TermBody, st: TermState, ghost t: Text, ghost needles: seq<Text>, ghost words: seq<Text>) returns (matched: bool)
    requires BodyOk(body, needles, words) && StateOk(body, needles, words, st, t)
    ensures matched <==> Accepts(body, needles, t)
  {
    match body.mode
    case EqMode =>
      matched := !st.eqMismatch && st.eqPos == |body.needle|;
    case ContainsMode =>
      if body.automaton.Some? {
        matched := st.matched;
        ReportedIsContained(needles, t);
      } else {
        matched := |body.needle| == 0 || st.matched;
        assert |body.needle| == 0 ==> OccursAt(t, body.needle, 0);
      }
    case PrefixMode =>
      matched := |body.needle| == 0 || st.matched;
  }

  /** Feeding a whole segment, with the bulk comparisons and the block search. */
  method FeedSegment(body: TermBody, st: TermState, segment: Text, ghost t: Text, ghost needles: seq<Text>, ghost words: seq<Text>)
      returns (next: TermState)
    requires BodyOk(body, needles, words) && StateOk(body, needles, words, st, t)
    ensures StateOk(body, needles, words, next, t + segment)
  {
    next := st;
    if |segment| == 0 {
      assert t + segment == t;
      return;
    }
    PrefixExtend(body.needle, t, segment);
    match body.mode
    case EqMode =>
      if st.eqMismatch {
        return;
      }
      var rem := |body.needle| - st.eqPos;
      if rem <= 0 || |segment| > rem {
        next := st.(eqMismatch := true);
        return;
      }
      if segment != body.needle[st.eqPos..st.eqPos + |segment|] {
        next := st.(eqMismatch := true);
        return;
      }
      next := st.(eqPos := st.eqPos + |segment|);
    case PrefixMode =>
      if st.prefixDone {
        return;
      }
      var rem := |body.needle| - st.prefixPos;
      if |segment| >= rem {
        PrefixDecided(body.needle, t, segment);
        next := st.(matched := segment[..rem] == body.needle[st.prefixPos..], prefixDone := true);
        return;
      }
      if segment != body.needle[st.prefixPos..st.prefixPos + |segment|] {
        assert !HasPrefix(t + segment, body.needle);
        next := st.(prefixDone := true);
        return;
      }
      next := st.(prefixPos := st.prefixPos + |segment|);
    case ContainsMode =>
      if st.matched {
        MatchedStays(body, st, t, segment, needles, words);
        return;
      }
      if body.automaton.Some? {
        var state, matched := FeedAutomatonSegment(body.automaton.value, st.acState, segment, t, needles, words);
        next := st.(acState := state, matched := matched);
      } else if |body.needle| > 0 {
        var pos, matched := Kmp.FeedSegment(body.needle, body.lps, st.containsPos, segment, t);
        next := st.(containsPos := pos, matched := matched);
      }
  }

  lemma PrefixDecided(p: Text, t: Text, s: Text)
    requires |t| < |p| <= |t| + |s| && HasPrefix(p, t)
    ensures HasPrefix(t + s, p) <==> s[..|p| - |t|] == p[|t|..]
    ensures !HasPrefix(t + s, p) ==> !HasPrefix(p, t + s)
  {
    assert (t + s)[..|p|] == t + s[..|p| - |t|];
    assert p == p[..|t|] + p[|t|..];
    assert (t + s)[..|p|][|t|..] == s[..|p| - |t|];
    if HasPrefix(p, t + s) {
      assert |p| == |t + s| && p[..|p|] == p;
      assert (t + s)[..|p|] == t + s;
    }
  }

  lemma MatchedStays(body: TermBody, st: TermState, t: Text, s: Text, needles: seq<Text>, words: seq<Text>)
    requires StateOk(body, needles, words, st, t) && body.mode.ContainsMode? && st.matched
    ensures StateOk(body, needles, words, st, t + s)
  {
    if body.automaton.Some? {
      ReportedStays(needles, t, s);
    } else {
      ContainsMonotone(t, s, body.needle);
    }
  }

  /** A value delivered in any segments is matched as the whole text. */
  method MatchSingleTerm(body: TermBody, segments: seq<Text>, ghost needles: seq<Text>, ghost words: seq<Text>) returns (matched: bool)
    requires BodyOk(body, needles, words)
    ensures matched <==> Accepts(body, needles, Flatten(segments))
  {
    var st := NewTermState(body, needles, words);
    assert segments[..0] == [];
    for i := 0 to |segments|
      invariant StateOk(body, needles, words, st, Flatten(segments[..i]))
    {
      assert segments[..i + 1] == segments[..i] + [segments[i]];
      FlattenAppend(segments[..i], segments[i]);
      st := FeedSegment(body, st, segments[i], Flatten(segments[..i]), needles, words);
    }
    assert segments[..|segments|] == segments;
    matched := FinalMatch(body, st, Flatten(segments), needles, words);
  }

  /** A value already in memory. */
  method MatchesString(body: TermBody, candidate: Text, ghost needles: seq<Text>, ghost words: seq<Text>) returns (matched: bool)
    requires BodyOk(body, needles, words)
    ensures matched <==> Accepts(body, needles, candidate)
  {
    match body.mode
    case EqMode => matched := candidate == body.needle;
    case ContainsMode =>
      if body.automaton.Some? {
        matched := Search(body.automaton.value, candidate, words, needles);
      } else {
        matched := Kmp.FindBlock(candidate, body.needle);
      }
    case PrefixMode => matched := HasPrefix(candidate, body.needle);
  }

  // ----- membership -----

  datatype InState = InState(alive: seq<bool>, activeCount: int, pos: int)

  function CountTrue(flags: seq<bool>): nat {
    if flags == [] then 0 else CountTrue(flags[..|flags| - 1]) + (if flags[|flags| - 1] then 1 else 0)
  }

  lemma {:induction false} CountTrueClear(flags: seq<bool>, i: int)
    requires 0 <= i < |flags| && flags[i]
    ensures CountTrue(flags[i := false]) == CountTrue(flags) - 1
  {
    var n := |flags| - 1;
    if i == n {
      assert flags[i := false][..n] == flags[..n];
    } else {
      assert flags[i := false][..n] == flags[..n][i := false];
      CountTrueClear(flags[..n], i);
    }
  }

  lemma {:induction false} CountTrueZero(flags: seq<bool>)
    ensures CountTrue(flags) == 0 <==> forall i :: 0 <= i < |flags| ==> !flags[i]
  {
    if flags != [] {
      var front := flags[..|flags| - 1];
      CountTrueZero(front);
      assert forall i :: 0 <= i < |front| ==> front[i] == flags[i];
    }
  }

  lemma {:induction false} CountTrueAll(flags: seq<bool>)
    requires forall i :: 0 <= i < |flags| ==> flags[i]
    ensures CountTrue(flags) == |flags|
  {
    if flags != [] {
      CountTrueAll(flags[..|flags| - 1]);
    }
  }

  ghost predicate InStateOk(values: seq<Text>, st: InState, t: Text) {
    && |st.alive| == |values| && st.activeCount == CountTrue(st.alive) && st.pos == |t|
    && forall i :: 0 <= i < |values| ==> (st.alive[i] <==> HasPrefix(values[i], t))
  }

  method NewInState(values: seq<Text>) returns (st: InState)
    ensures InStateOk(values, st, [])
  {
    var alive := seq(|values|, _ => true);
    CountTrueAll(alive);
    st := InState(alive, |alive|, 0);
  }

  /** Feeding a segment (or, with one byte, a byte): values that fall behind are dropped. */
  method FeedInSegment(values: seq<Text>, st: InState, segment: Text, ghost t: Text) returns (next: InState)
    requires InStateOk(values, st, t)
    ensures InStateOk(values, next, t + segment)
  {
    next := st;
    CountTrueZero(st.alive);
    if st.activeCount == 0 {
      forall i | 0 <= i < |values| ensures !HasPrefix(values[i], t + segment) {
        PrefixExtend(values[i], t, segment);
      }
      next := next.(pos := st.pos + |segment|);
      return;
    }
    for i := 0 to |values|
      invariant |next.alive| == |values| && next.activeCount == CountTrue(next.alive) && next.pos == st.pos
      invariant forall k :: 0 <= k < i ==> (next.alive[k] <==> HasPrefix(values[k], t + segment))
      invariant forall k :: i <= k < |values| ==> next.alive[k] == st.alive[k]
    {
      PrefixExtend(values[i], t, segment);
      if next.alive[i] {
        var rem := |values[i]| - st.pos;
        if |segment| > rem || segment != values[i][st.pos..st.pos + |segment|] {
          CountTrueClear(next.alive, i);
          next := next.(alive := next.alive[i := false], activeCount := next.activeCount - 1);
        }
      }
    }
    next := next.(pos := st.pos + |segment|);
  }

  method FinalInMatch(values: seq<Text>, st: InState, ghost t: Text) returns (matched: bool)
    requires InStateOk(values, st, t)
    ensures matched <==> t in values
  {
    CountTrueZero(st.alive);
    forall i | 0 <= i < |values| ensures values[i] == t <==> st.alive[i] && |values[i]| == st.pos {
      assert |values[i]| == |t| ==> values[i][..|t|] == values[i];
    }
    if st.activeCount == 0 {
      return false;
    }
    for i := 0 to |values|
      invariant forall k :: 0 <= k < i ==> values[k] != t
    {
      if st.alive[i] && |values[i]| == st.pos {
        return true;
      }
    }
    return false;
  }

  method MatchSingleIn(values: seq<Text>, segments: seq<Text>) returns (matched: bool)
    ensures matched <==> Flatten(segments) in values
  {
    var st := NewInState(values);
    assert segments[..0] == [];
    for i := 0 to |segments|
      invariant InStateOk(values, st, Flatten(segments[..i]))
    {
      assert segments[..i + 1] == segments[..i] + [segments[i]];
      FlattenAppend(segments[..i], segments[i]);
      st := FeedInSegment(values, st, segments[i], Flatten(segments[..i]));
    }
    assert segments[..|segments|] == segments;
    matched := FinalInMatch(values, st, Flatten(segments));
  }
}
