/**
 The multi-needle contains automaton: a trie of the needles completed, breadth
 first, into a full transition table.
 */
module AhoCorasick {
  import opened Bytes

  datatype Automaton = Automaton(next: seq<seq<int>>, accept: seq<bool>)

  /** One step; out-of-range states fall back to the root. */
  function Advance(a: Automaton, state: int, b: byte): (int, bool)
    requires WellShaped(a)
  {
    if |a.next| == 0 then (state, false)
    else
      var from := if state < 0 || state >= |a.next| then 0 else state;
      var to := a.next[from][b as int];
      var target := if to < 0 || to >= |a.accept| then 0 else to;
      (target, a.accept[target])
  }

  predicate WellShaped(a: Automaton) {
    |a.accept| == |a.next| && forall s | 0 <= s < |a.next| :: |a.next[s]| == 256
  }

  // ----- what the tables mean -----

  /** words[s] is the longest word that ends x. */
  ghost predicate IsLongestSuffix(words: seq<Text>, x: Text, s: int) {
    0 <= s < |words| && IsSuffix(words[s], x) &&
    forall u :: 0 <= u < |words| && IsSuffix(words[u], x) ==> |words[u]| <= |words[s]|
  }

  ghost predicate EndsWithNeedle(needles: seq<Text>, x: Text) {
    exists n :: n in needles && IsSuffix(n, x)
  }

  /** words[s] spells the path from the root to s; edge[s][b] is the child along b, or -1. */
  ghost predicate IsTrie(words: seq<Text>, edge: seq<seq<int>>) {
    && |words| == |edge| > 0
    && words[0] == []
    && (forall s :: 0 <= s < |edge| ==> |edge[s]| == 256)
    && (forall s, b: byte :: 0 <= s < |edge| ==> EdgeOk(words, edge, s, b))
    && (forall s, t :: 0 <= s < t < |words| ==> words[s] != words[t])
    && (forall t :: 0 < t < |words| ==> HasParent(words, edge, t))
  }

  ghost predicate EdgeOk(words: seq<Text>, edge: seq<seq<int>>, s: int, b: byte)
    requires |words| == |edge| && 0 <= s < |edge| && |edge[s]| == 256
  {
    var c := edge[s][b as int];
    -1 <= c < |edge| && (c >= 0 ==> words[c] == words[s] + [b])
  }

  ghost predicate HasParent(words: seq<Text>, edge: seq<seq<int>>, t: int)
    requires |words| == |edge| && 0 <= t < |words| && forall s :: 0 <= s < |edge| ==> |edge[s]| == 256
  {
    words[t] != [] &&
    exists s :: 0 <= s < |words| && words[s] == Front(words[t]) && edge[s][Last(words[t]) as int] == t
  }

  function Front(x: Text): Text
    requires x != []
  {
    x[..|x| - 1]
  }

  function Last(x: Text): byte
    requires x != []
  {
    x[|x| - 1]
  }

  ghost function Parent(words: seq<Text>, edge: seq<seq<int>>, t: int): (s: int)
    requires IsTrie(words, edge) && 0 < t < |words|
    ensures 0 <= s < |words| && words[s] == Front(words[t]) && edge[s][Last(words[t]) as int] == t
  {
    assert HasParent(words, edge, t);
    var s :| 0 <= s < |words| && words[s] == Front(words[t]) && edge[s][Last(words[t]) as int] == t;
    s
  }

  ghost predicate HasFront(words: seq<Text>, u: int)
    requires 0 <= u < |words|
  {
    words[u] != [] ==> exists p :: 0 <= p < |words| && words[p] == Front(words[u])
  }

  /** Every prefix of a word is a word. */
  ghost predicate PrefixClosed(words: seq<Text>) {
    forall u :: 0 <= u < |words| ==> HasFront(words, u)
  }

  lemma TrieIsPrefixClosed(words: seq<Text>, edge: seq<seq<int>>)
    requires IsTrie(words, edge)
    ensures PrefixClosed(words)
  {
    forall u | 0 <= u < |words| ensures HasFront(words, u) {
      if u != 0 {
        var p := Parent(words, edge, u);
      }
    }
  }

  /** A missing edge means the extended word is not in the trie. */
  lemma EdgeIsComplete(words: seq<Text>, edge: seq<seq<int>>, s: int, b: byte, t: int)
    requires IsTrie(words, edge) && 0 <= s < |words| && 0 <= t < |words|
    requires words[t] == words[s] + [b]
    ensures edge[s][b as int] == t
  {
    var p := Parent(words, edge, t);
    assert words[p] == words[s];
  }

  lemma SuffixExtend(w: Text, x: Text, b: byte)
    requires IsSuffix(w, x)
    ensures IsSuffix(w + [b], x + [b])
  {
    assert (x + [b])[|x| - |w|..] == x[|x| - |w|..] + [b];
  }

  lemma SuffixFront(w: Text, x: Text, b: byte)
    requires w != [] && IsSuffix(w, x + [b])
    ensures Last(w) == b && IsSuffix(Front(w), x)
  {
    var u := x + [b];
    assert u[|u| - |w|..] == w;
    assert x[|x| - |Front(w)|..] == Front(u[|u| - |w|..]);
  }

  lemma SuffixOfSuffix(w: Text, x: Text, y: Text)
    requires IsSuffix(x, y)
    ensures IsSuffix(w, x) ==> IsSuffix(w, y)
    ensures IsSuffix(w, y) && |w| <= |x| ==> IsSuffix(w, x)
  {
    if |w| <= |x| {
      assert y[|y| - |x|..][|x| - |w|..] == y[|y| - |w|..];
    }
  }

  /** The longest suffix after one more byte is found from the longest suffix before it. */
  lemma LongestSuffixStep(words: seq<Text>, x: Text, b: byte, s: int, t: int)
    requires PrefixClosed(words)
    requires IsLongestSuffix(words, x, s) && IsLongestSuffix(words, words[s] + [b], t)
    ensures IsLongestSuffix(words, x + [b], t)
  {
    SuffixExtend(words[s], x, b);
    SuffixOfSuffix(words[t], words[s] + [b], x + [b]);
    forall u | 0 <= u < |words| && IsSuffix(words[u], x + [b]) ensures |words[u]| <= |words[t]| {
      if words[u] != [] {
        assert HasFront(words, u);
        var p :| 0 <= p < |words| && words[p] == Front(words[u]);
        SuffixFront(words[u], x, b);
        SuffixOfSuffix(words[p], words[s], x);
        SuffixExtend(words[p], words[s], b);
        assert words[u] == words[p] + [b];
      }
    }
  }

  /** A text that is not itself a word has the longest suffix of its tail. */
  lemma LongestSuffixOfTail(words: seq<Text>, x: Text, t: int)
    requires x != [] && IsLongestSuffix(words, x[1..], t)
    requires forall u :: 0 <= u < |words| ==> words[u] != x
    ensures IsLongestSuffix(words, x, t)
  {
    assert x[|x| - |x[1..]|..] == x[1..];
    SuffixOfSuffix(words[t], x[1..], x);
    forall u | 0 <= u < |words| && IsSuffix(words[u], x) ensures |words[u]| <= |words[t]| {
      assert x[0..] == x;
      SuffixOfSuffix(words[u], x[1..], x);
    }
  }

  lemma WordIsItsLongestSuffix(words: seq<Text>, s: int)
    requires 0 <= s < |words|
    ensures IsLongestSuffix(words, words[s], s)
  {
    assert words[s][0..] == words[s];
  }

  /** A needle ends a non-empty x when it is x or ends x's tail. */
  lemma EndsWithNeedleSplit(needles: seq<Text>, x: Text)
    requires x != []
    ensures EndsWithNeedle(needles, x) <==> x in needles || EndsWithNeedle(needles, x[1..])
  {
    assert x[0..] == x && x[|x| - |x[1..]|..] == x[1..];
    forall n | n in needles ensures IsSuffix(n, x) <==> n == x || IsSuffix(n, x[1..]) {
      SuffixOfSuffix(n, x[1..], x);
    }
    if EndsWithNeedle(needles, x) {
      var n :| n in needles && IsSuffix(n, x);
      assert n == x || IsSuffix(n, x[1..]);
    }
    if EndsWithNeedle(needles, x[1..]) {
      var n :| n in needles && IsSuffix(n, x[1..]);
      assert IsSuffix(n, x);
    }
  }

  /** Needles are words, so the longest suffix that is a word decides whether a needle ends x. */
  lemma EndsWithNeedleByState(needles: seq<Text>, words: seq<Text>, x: Text, s: int)
    requires forall n :: n in needles ==> n in words
    requires IsLongestSuffix(words, x, s)
    ensures EndsWithNeedle(needles, x) <==> EndsWithNeedle(needles, words[s])
  {
    if EndsWithNeedle(needles, x) {
      var n :| n in needles && IsSuffix(n, x);
      assert n in words;
      SuffixOfSuffix(n, words[s], x);
      assert IsSuffix(n, words[s]);
    }
    if EndsWithNeedle(needles, words[s]) {
      var n :| n in needles && IsSuffix(n, words[s]);
      SuffixOfSuffix(n, words[s], x);
      assert IsSuffix(n, x);
    }
  }

  // ----- first phase: the trie -----

  ghost predicate AcceptsWords(words: seq<Text>, needles: seq<Text>, accept: seq<bool>) {
    |accept| == |words| && forall s :: 0 <= s < |words| ==> (accept[s] <==> words[s] in needles)
  }

  method BuildTrie(needles: seq<Text>) returns (next: seq<seq<int>>, accept: seq<bool>, ghost words: seq<Text>)
    ensures IsTrie(words, next)
    ensures AcceptsWords(words, needles, accept)
    ensures forall n :: n in needles ==> n in words
  {
    next, accept, words := [seq(256, _ => -1)], [false], [[]];
    var i := 0;
    while i < |needles|
      invariant 0 <= i <= |needles|
      invariant IsTrie(words, next)
      invariant AcceptsWords(words, needles[..i], accept)
      invariant forall n :: n in needles[..i] ==> n in words
    {
      var needle := needles[i];
      assert needles[..i + 1] == needles[..i] + [needle];
      if |needle| == 0 {
        accept := accept[0 := true];
        assert words[0] in words;
      } else {
        var state;
        state, next, accept, words := InsertNeedle(needle, needles[..i], next, accept, words);
        accept := accept[state := true];
        assert words[state] in words;
      }
      i := i + 1;
    }
    assert needles[..i] == needles;
  }

  method InsertNeedle(needle: Text, ghost done: seq<Text>, next0: seq<seq<int>>, accept0: seq<bool>, ghost words0: seq<Text>)
      returns (state: int, next: seq<seq<int>>, accept: seq<bool>, ghost words: seq<Text>)
    requires IsTrie(words0, next0) && AcceptsWords(words0, done, accept0)
    requires forall n :: n in done ==> n in words0
    ensures IsTrie(words, next) && AcceptsWords(words, done, accept)
    ensures words0 <= words && 0 <= state < |words| && words[state] == needle
  {
    state, next, accept, words := 0, next0, accept0, words0;
    var j := 0;
    while j < |needle|
      invariant 0 <= j <= |needle|
      invariant IsTrie(words, next) && AcceptsWords(words, done, accept)
      invariant words0 <= words && 0 <= state < |words| && words[state] == needle[..j]
    {
      var b := needle[j];
      assert needle[..j + 1] == needle[..j] + [b];
      assert EdgeOk(words, next, state, b);
      var nextState := next[state][b as int];
      if nextState < 0 {
        nextState := |next|;
        AddChildKeepsTrie(words, next, state, b);
        NewWordIsNoNeedle(words, next, state, b, words0, done);
        next := next + [seq(256, _ => -1)];
        accept := accept + [false];
        next := next[state := next[state][b as int := nextState]];
        words := words + [words[state] + [b]];
      }
      state := nextState;
      j := j + 1;
    }
    assert needle[..j] == needle;
  }

  ghost function AddChild(edge: seq<seq<int>>, s: int, b: byte): seq<seq<int>>
    requires 0 <= s < |edge| && |edge[s]| == 256
  {
    (edge + [seq(256, _ => -1)])[s := edge[s][b as int := |edge|]]
  }

  lemma AddChildKeepsTrie(words: seq<Text>, edge: seq<seq<int>>, s: int, b: byte)
    requires IsTrie(words, edge) && 0 <= s < |edge| && edge[s][b as int] < 0
    ensures IsTrie(words + [words[s] + [b]], AddChild(edge, s, b))
  {
    var words', edge' := words + [words[s] + [b]], AddChild(edge, s, b);
    forall u, c: byte | 0 <= u < |edge'| ensures EdgeOk(words', edge', u, c) {
      if u < |edge| {
        assert EdgeOk(words, edge, u, c);
      }
    }
    forall t | 0 <= t < |words| ensures words[t] != words[s] + [b] {
      if words[t] == words[s] + [b] {
        EdgeIsComplete(words, edge, s, b, t);
      }
    }
    forall t | 0 < t < |words'| ensures HasParent(words', edge', t) {
      var p := if t < |words| then Parent(words, edge, t) else s;
      assert words'[p] == Front(words'[t]) && edge'[p][Last(words'[t]) as int] == t;
    }
  }

  lemma NewWordIsNoNeedle(words: seq<Text>, edge: seq<seq<int>>, s: int, b: byte, words0: seq<Text>, done: seq<Text>)
    requires IsTrie(words, edge) && 0 <= s < |edge| && edge[s][b as int] < 0
    requires words0 <= words && forall n :: n in done ==> n in words0
    ensures words[s] + [b] !in done
  {
    if words[s] + [b] in words0 {
      var t :| 0 <= t < |words0| && words0[t] == words[s] + [b];
      assert words[t] == words0[t];
      EdgeIsComplete(words, edge, s, b, t);
    }
  }

  // ----- second phase: breadth-first completion -----

  /** Entry i of a completed row leads to the longest word ending the state's word followed by byte i. */
  ghost predicate EntryOk(words: seq<Text>, row: seq<int>, s: int, i: int)
    requires 0 <= s < |words| && |row| == 256 && 0 <= i < 256
  {
    IsLongestSuffix(words, words[s] + [i as byte], row[i])
  }

  ghost predicate RowDone(words: seq<Text>, row: seq<int>, s: int) {
    0 <= s < |words| && |row| == 256 && forall i :: 0 <= i < 256 ==> EntryOk(words, row, s, i)
  }

  ghost predicate FailOk(words: seq<Text>, s: int, f: int) {
    0 <= s < |words| && words[s] != [] && IsLongestSuffix(words, words[s][1..], f)
  }

  ghost predicate IsChild(words: seq<Text>, s: int, t: int) {
    0 <= s < |words| && 0 <= t < |words| && words[t] != [] && Front(words[t]) == words[s]
  }

  ghost predicate FailsOk(words: seq<Text>, fail: seq<int>, states: seq<int>) {
    |fail| == |words| && forall s :: s in states ==> 0 < s < |words| && FailOk(words, s, fail[s])
  }

  /** Accept flags: exact on completed states, between "is a needle" and "ends with a needle" on the others. */
  ghost predicate AcceptOk(words: seq<Text>, needles: seq<Text>, accept: seq<bool>, done: set<int>) {
    |accept| == |words| && forall s :: 0 <= s < |words| ==>
      && (words[s] in needles ==> accept[s])
      && (accept[s] ==> EndsWithNeedle(needles, words[s]))
      && (s in done && EndsWithNeedle(needles, words[s]) ==> accept[s])
  }

  /** Completed rows are final, the others are still trie edges. */
  ghost predicate RowsOk(words: seq<Text>, edge: seq<seq<int>>, next: seq<seq<int>>, done: set<int>) {
    && IsTrie(words, edge) && |next| == |words|
    && (forall s :: s in done ==> 0 <= s < |words| && RowDone(words, next[s], s))
    && (forall s :: 0 <= s < |words| && s !in done ==> next[s] == edge[s])
  }

  ghost predicate Distinct(q: seq<int>) {
    forall i, j :: 0 <= i < j < |q| ==> q[i] != q[j]
  }

  ghost function Depth(words: seq<Text>, s: int): nat {
    if 0 <= s < |words| then |words[s]| else 0
  }

  /** Depths never decrease along the queue and span at most two levels. */
  ghost predicate DepthOk(words: seq<Text>, q: seq<int>) {
    forall i, j :: 0 <= i < j < |q| ==> Depth(words, q[i]) <= Depth(words, q[j]) <= Depth(words, q[0]) + 1
  }

  /** The queue is the frontier of the completed states, in order of depth. */
  ghost predicate FrontierOk(words: seq<Text>, queue: seq<int>, done: set<int>) {
    && (forall s :: s in queue ==> 0 < s < |words| && s !in done)
    && Distinct(queue) && DepthOk(words, queue)
    && (forall s, t :: IsChild(words, s, t) ==> (s in done <==> t in done || t in queue))
    && (queue != [] ==> forall u :: 0 <= u < |words| && u !in done ==> Depth(words, queue[0]) <= Depth(words, u))
  }

  /** The children of s along bytes below c, in order. */
  ghost predicate KidsBelow(words: seq<Text>, s: int, c: int, kids: seq<int>) {
    && (forall t :: t in kids ==> IsChild(words, s, t) && Last(words[t]) as int < c)
    && Distinct(kids)
    && (forall t :: IsChild(words, s, t) && Last(words[t]) as int < c ==> t in kids)
  }

  /** Column c of the state's row has been looked at. */
  lemma KidsStep(words: seq<Text>, edge: seq<seq<int>>, s: int, c: int, kids: seq<int>)
    requires IsTrie(words, edge) && 0 <= s < |words| && 0 <= c < 256 && KidsBelow(words, s, c, kids)
    ensures KidsBelow(words, s, c + 1, if edge[s][c] < 0 then kids else kids + [edge[s][c]])
  {
    assert EdgeOk(words, edge, s, c as byte);
    var child := edge[s][c];
    if child >= 0 {
      assert Front(words[child]) == words[s] && Last(words[child]) == c as byte;
    }
    forall t | IsChild(words, s, t) && Last(words[t]) as int < c + 1
      ensures t in (if child < 0 then kids else kids + [child])
    {
      if Last(words[t]) as int == c {
        assert words[t] == words[s] + [c as byte];
        EdgeIsComplete(words, edge, s, c as byte, t);
      }
    }
  }

  /** A row completed for the bytes below c and untouched from c on. */
  ghost predicate RowPart(words: seq<Text>, edge: seq<seq<int>>, row: seq<int>, s: int, c: int)
    requires |words| == |edge| && 0 <= s < |words| && |edge[s]| == 256
  {
    && |row| == 256
    && (forall i :: 0 <= i < c && i < 256 ==> EntryOk(words, row, s, i))
    && (forall i :: 0 <= i && c <= i < 256 ==> row[i] == edge[s][i])
  }

  lemma RowPartStep(words: seq<Text>, edge: seq<seq<int>>, row: seq<int>, s: int, c: int, v: int)
    requires |words| == |edge| && 0 <= s < |words| && |edge[s]| == 256
    requires 0 <= c < 256 && RowPart(words, edge, row, s, c)
    requires IsLongestSuffix(words, words[s] + [c as byte], v)
    ensures RowPart(words, edge, row[c := v], s, c + 1)
    ensures row[c] == v ==> RowPart(words, edge, row, s, c + 1)
  {
    var row' := row[c := v];
    forall i | 0 <= i < c + 1 ensures EntryOk(words, row', s, i) {
      assert i < c ==> EntryOk(words, row, s, i);
    }
    assert row[c] == v ==> row == row';
  }

  /** The children of the root get the root as their fail link. */
  method CompleteRoot(edge: seq<seq<int>>, ghost words: seq<Text>) returns (next: seq<seq<int>>, fail: seq<int>, queue: seq<int>)
    requires IsTrie(words, edge)
    ensures RowsOk(words, edge, next, {0})
    ensures FailsOk(words, fail, queue)
    ensures FrontierOk(words, queue, {0})
  {
    hide KidsBelow, EdgeOk, RowPart, RowsOk, FailsOk, FrontierOk;
    fail, queue := seq(|edge|, _ => 0), [];
    ghost var zeros := fail;
    var row := edge[0];
    var c := 0;
    RootAtStart(words, edge);
    while c < 256
      invariant 0 <= c <= 256 && fail == zeros
      invariant |row| == 256 && RowPart(words, edge, row, 0, c)
      invariant KidsBelow(words, 0, c, queue)
    {
      RootColumn(words, edge, row, c);
      KidsStep(words, edge, 0, c, queue);
      var child := row[c];
      if child < 0 {
        RootRow(words, edge, c as byte);
        RowPartStep(words, edge, row, 0, c, 0);
        row := row[c := 0];
      } else {
        WordIsItsLongestSuffix(words, child);
        RowPartStep(words, edge, row, 0, c, child);
        fail := fail[child := 0];
        queue := queue + [child];
      }
      c := c + 1;
    }
    next := edge[0 := row];
    RootRowsDone(words, edge, row);
    RootFrontier(words, edge, queue, fail);
  }

  lemma RootAtStart(words: seq<Text>, edge: seq<seq<int>>)
    requires IsTrie(words, edge)
    ensures |edge[0]| == 256 && RowPart(words, edge, edge[0], 0, 0) && KidsBelow(words, 0, 0, [])
  {
  }

  /** A column not yet looked at holds the trie's edge. */
  lemma RootColumn(words: seq<Text>, edge: seq<seq<int>>, row: seq<int>, c: int)
    requires IsTrie(words, edge) && 0 <= c < 256 && RowPart(words, edge, row, 0, c)
    ensures |row| == 256 && row[c] == edge[0][c] && (row[c] >= 0 ==> 0 < row[c] < |words| && words[row[c]] == words[0] + [c as byte])
  {
    assert EdgeOk(words, edge, 0, c as byte);
  }

  lemma RootRowsDone(words: seq<Text>, edge: seq<seq<int>>, row: seq<int>)
    requires IsTrie(words, edge) && RowPart(words, edge, row, 0, 256)
    ensures RowsOk(words, edge, edge[0 := row], {0})
  {
  }

  lemma RootFrontier(words: seq<Text>, edge: seq<seq<int>>, queue: seq<int>, fail: seq<int>)
    requires IsTrie(words, edge) && KidsBelow(words, 0, 256, queue)
    requires |fail| == |words| && forall i :: 0 <= i < |fail| ==> fail[i] == 0
    ensures FailsOk(words, fail, queue) && FrontierOk(words, queue, {0})
  {
    hide IsLongestSuffix, EdgeOk;
    WordIsItsLongestSuffix(words, 0);
    forall s | s in queue ensures 0 < s < |words| && |words[s]| == 1 && FailOk(words, s, fail[s]) {
      assert IsChild(words, 0, s);
      assert words[s][1..] == words[0];
    }
    forall s, t | IsChild(words, s, t) ensures s == 0 <==> t in queue {
      assert t in queue ==> IsChild(words, 0, t);
      assert s != 0 ==> words[s] != words[0];
    }
    assert forall s, t :: IsChild(words, s, t) ==> t != 0;
    AllAtDepthOne(words, queue);
    forall u | 0 <= u < |words| && u !in {0} ensures Depth(words, u) >= 1 {
      assert HasParent(words, edge, u);
    }
    assert queue != [] ==> queue[0] in queue;
  }

  lemma AllAtDepthOne(words: seq<Text>, queue: seq<int>)
    requires forall s :: s in queue ==> Depth(words, s) == 1
    ensures DepthOk(words, queue)
  {
    forall i, j | 0 <= i < j < |queue|
      ensures Depth(words, queue[i]) <= Depth(words, queue[j]) <= Depth(words, queue[0]) + 1
    {
      assert queue[i] in queue && queue[j] in queue && queue[0] in queue;
    }
  }

  lemma RootRow(words: seq<Text>, edge: seq<seq<int>>, b: byte)
    requires IsTrie(words, edge) && edge[0][b as int] < 0
    ensures IsLongestSuffix(words, words[0] + [b], 0)
  {
    WordIsItsLongestSuffix(words, 0);
    forall u | 0 <= u < |words| ensures words[u] != words[0] + [b] {
      if words[u] == words[0] + [b] {
        EdgeIsComplete(words, edge, 0, b, u);
      }
    }
    assert (words[0] + [b])[1..] == words[0];
    LongestSuffixOfTail(words, words[0] + [b], 0);
  }

  /** One entry of a row: through the fail link, both the missing transition and the child's own fail link. */
  lemma RowEntry(words: seq<Text>, edge: seq<seq<int>>, s: int, f: int, b: byte, g: int)
    requires IsTrie(words, edge) && 0 < s < |words| && FailOk(words, s, f)
    requires IsLongestSuffix(words, words[f] + [b], g)
    ensures IsLongestSuffix(words, words[s] + [b], if edge[s][b as int] < 0 then g else edge[s][b as int])
    ensures edge[s][b as int] >= 0 ==> 0 < edge[s][b as int] < |words| && FailOk(words, edge[s][b as int], g)
  {
    var x := words[s] + [b];
    assert x[1..] == words[s][1..] + [b];
    TrieIsPrefixClosed(words, edge);
    LongestSuffixStep(words, words[s][1..], b, f, g);
    var child := edge[s][b as int];
    assert EdgeOk(words, edge, s, b);
    if child < 0 {
      forall u | 0 <= u < |words| ensures words[u] != x {
        if words[u] == x {
          EdgeIsComplete(words, edge, s, b, u);
        }
      }
      LongestSuffixOfTail(words, x, g);
    } else {
      WordIsItsLongestSuffix(words, child);
    }
  }

  /** The fail link of the queue's head leads to a completed state. */
  lemma FailIsDone(words: seq<Text>, queue: seq<int>, done: set<int>, f: int)
    requires FrontierOk(words, queue, done) && queue != [] && FailOk(words, queue[0], f)
    ensures f in done
  {
    assert Depth(words, f) < Depth(words, queue[0]);
  }

  /** A child's fail link, and its accept flag if a needle ends where the link leads. */
  method LinkChild(child: int, g: int, accept0: seq<bool>, fail1: seq<int>, ghost fail0: seq<int>, ghost kids: seq<int>,
                   ghost words: seq<Text>, ghost needles: seq<Text>, ghost done: set<int>)
      returns (accept: seq<bool>, fail: seq<int>)
    requires FailsOk(words, fail1, kids) && SameExcept(fail1, fail0, kids) && AcceptOk(words, needles, accept0, done)
    requires 0 < child < |words| && child !in kids && child !in done && FailOk(words, child, g)
    requires forall n :: n in needles ==> n in words
    ensures FailsOk(words, fail, kids + [child]) && SameExcept(fail, fail0, kids + [child])
    ensures AcceptOk(words, needles, accept, done)
    ensures |accept| == |accept0| && forall s :: 0 <= s < |accept| && s != child ==> accept[s] == accept0[s]
  {
    hide SameExcept;
    FailsStep(words, fail1, fail0, kids, child, g);
    accept, fail := accept0, fail1[child := g];
    if accept[fail[child]] {
      AcceptThroughFail(needles, words, child, fail[child]);
      AcceptStep(words, needles, accept, done, child);
      accept := accept[child := true];
    }
  }

  /** Completing one dequeued state: its row, the fail links and early accept flags of its children. */
  method CompleteRow(state: int, next0: seq<seq<int>>, accept0: seq<bool>, fail0: seq<int>,
                     ghost words: seq<Text>, ghost edge: seq<seq<int>>, ghost needles: seq<Text>, ghost done: set<int>)
      returns (next: seq<seq<int>>, accept: seq<bool>, fail: seq<int>, kids: seq<int>)
    requires RowsOk(words, edge, next0, done) && AcceptOk(words, needles, accept0, done)
    requires 0 < state < |words| && state !in done && |fail0| == |words|
    requires FailOk(words, state, fail0[state]) && fail0[state] in done
    requires forall n :: n in needles ==> n in words
    requires forall t :: IsChild(words, state, t) ==> t !in done
    ensures RowsOk(words, edge, next, done + {state}) && AcceptOk(words, needles, accept, done)
    ensures accept[state] == accept0[state]
    ensures |fail| == |words| && FailsOk(words, fail, kids)
    ensures SameExcept(fail, fail0, kids)
    ensures KidsBelow(words, state, 256, kids)
  {
    accept, fail, kids := accept0, fail0, [];
    var row := next0[state];
    var f := fail[state];
    assert RowDone(words, next0[f], f);
    var c := 0;
    while c < 256
      invariant 0 <= c <= 256
      invariant RowPart(words, edge, row, state, c)
      invariant KidsBelow(words, state, c, kids)
      invariant FailsOk(words, fail, kids)
      invariant SameExcept(fail, fail0, kids)
      invariant AcceptOk(words, needles, accept, done) && accept[state] == accept0[state]
    {
      assert EntryOk(words, next0[f], f, c);
      RowEntry(words, edge, state, f, c as byte, next0[f][c]);
      KidsStep(words, edge, state, c, kids);
      var child := row[c];
      if child < 0 {
        RowPartStep(words, edge, row, state, c, next0[f][c]);
        row := row[c := next0[f][c]];
      } else {
        RowPartStep(words, edge, row, state, c, child);
        KidIsNew(words, edge, state, c, kids);
        accept, fail := LinkChild(child, next0[f][c], accept, fail, fail0, kids, words, needles, done);
        kids := kids + [child];
      }
      c := c + 1;
    }
    RowsStep(words, edge, next0, done, state, row);
    next := next0[state := row];
  }

  ghost predicate SameExcept(fail: seq<int>, fail0: seq<int>, kids: seq<int>) {
    |fail| == |fail0| && forall s :: 0 <= s < |fail| && s !in kids ==> fail[s] == fail0[s]
  }

  lemma FailsStep(words: seq<Text>, fail: seq<int>, fail0: seq<int>, kids: seq<int>, child: int, g: int)
    requires FailsOk(words, fail, kids) && SameExcept(fail, fail0, kids)
    requires 0 < child < |words| && child !in kids && FailOk(words, child, g)
    ensures FailsOk(words, fail[child := g], kids + [child]) && SameExcept(fail[child := g], fail0, kids + [child])
  {
    assert forall s :: s in kids + [child] <==> s in kids || s == child;
  }

  lemma AcceptStep(words: seq<Text>, needles: seq<Text>, accept: seq<bool>, done: set<int>, s: int)
    requires AcceptOk(words, needles, accept, done) && 0 <= s < |words| && EndsWithNeedle(needles, words[s])
    ensures AcceptOk(words, needles, accept[s := true], done)
  {
  }

  lemma RowsStep(words: seq<Text>, edge: seq<seq<int>>, next: seq<seq<int>>, done: set<int>, s: int, row: seq<int>)
    requires RowsOk(words, edge, next, done) && 0 <= s < |words| && RowPart(words, edge, row, s, 256)
    ensures RowsOk(words, edge, next[s := row], done + {s})
  {
    var next' := next[s := row];
    forall u | u in done + {s} ensures RowDone(words, next'[u], u) {
      if u != s {
        assert RowDone(words, next[u], u);
      }
    }
  }

  lemma KidIsNew(words: seq<Text>, edge: seq<seq<int>>, s: int, c: int, kids: seq<int>)
    requires IsTrie(words, edge) && 0 <= s < |words| && 0 <= c < 256 && KidsBelow(words, s, c, kids)
    requires edge[s][c] >= 0
    ensures 0 < edge[s][c] < |words| && IsChild(words, s, edge[s][c]) && edge[s][c] !in kids && edge[s][c] != s
  {
    assert EdgeOk(words, edge, s, c as byte);
  }

  lemma AcceptThroughFail(needles: seq<Text>, words: seq<Text>, s: int, f: int)
    requires FailOk(words, s, f) && forall n :: n in needles ==> n in words
    ensures EndsWithNeedle(needles, words[s]) <==> words[s] in needles || EndsWithNeedle(needles, words[f])
  {
    EndsWithNeedleSplit(needles, words[s]);
    EndsWithNeedleByState(needles, words, words[s][1..], f);
  }

  /** Dequeuing a state and appending its children keeps the frontier. */
  lemma FrontierStep(words: seq<Text>, edge: seq<seq<int>>, queue: seq<int>, done: set<int>, kids: seq<int>)
    requires IsTrie(words, edge) && FrontierOk(words, queue, done) && queue != [] && 0 in done
    requires KidsBelow(words, queue[0], 256, kids)
    ensures FrontierOk(words, queue[1..] + kids, done + {queue[0]})
  {
    var s, queue', done' := queue[0], queue[1..] + kids, done + {queue[0]};
    forall k | k in kids ensures 0 < k < |words| && k !in done' && k !in queue && Depth(words, k) == Depth(words, s) + 1 {
      assert IsChild(words, s, k);
    }
    DistinctAppend(queue[1..], kids);
    forall p, t | IsChild(words, p, t) ensures p in done' <==> t in done' || t in queue' {
      FrontierStepChildren(words, edge, queue, done, kids, p, t);
    }
    DepthAppend(words, queue, kids);
    if queue' != [] {
      forall u | 0 <= u < |words| && u !in done' ensures Depth(words, queue'[0]) <= Depth(words, u) {
        if u !in queue' {
          var p := Parent(words, edge, u);
          assert IsChild(words, p, u);
          assert p !in done';
        }
      }
    }
  }

  lemma DistinctAppend(a: seq<int>, b: seq<int>)
    requires Distinct(a) && Distinct(b) && forall k :: k in b ==> k !in a
    ensures Distinct(a + b)
  {
    var q := a + b;
    forall i, j | 0 <= i < j < |q| ensures q[i] != q[j] {
      assert if i < |a| then q[i] == a[i] && q[i] in a else q[i] == b[i - |a|];
      assert if j < |a| then q[j] == a[j] else q[j] == b[j - |a|] && q[j] in b;
    }
  }

  lemma DepthAppend(words: seq<Text>, queue: seq<int>, kids: seq<int>)
    requires queue != [] && DepthOk(words, queue)
    requires forall k :: k in kids ==> Depth(words, k) == Depth(words, queue[0]) + 1
    ensures DepthOk(words, queue[1..] + kids)
  {
    var q, d := queue[1..] + kids, Depth(words, queue[0]);
    forall i | 0 <= i < |q|
      ensures d <= Depth(words, q[i]) <= d + 1
      ensures i >= |queue| - 1 ==> Depth(words, q[i]) == d + 1
      ensures i < |queue| - 1 ==> q[i] == queue[i + 1]
    {
      assert i >= |queue| - 1 ==> q[i] in kids;
    }
    forall i, j | 0 <= i < j < |q| ensures Depth(words, q[i]) <= Depth(words, q[j]) {
      if j < |queue| - 1 {
        assert q[i] == queue[i + 1] && q[j] == queue[j + 1];
      }
    }
  }

  lemma FrontierStepChildren(words: seq<Text>, edge: seq<seq<int>>, queue: seq<int>, done: set<int>, kids: seq<int>, p: int, t: int)
    requires IsTrie(words, edge) && FrontierOk(words, queue, done) && queue != [] && 0 in done
    requires KidsBelow(words, queue[0], 256, kids) && IsChild(words, p, t)
    ensures p in done + {queue[0]} <==> t in done + {queue[0]} || t in queue[1..] + kids
  {
    assert queue == [queue[0]] + queue[1..];
    if t in kids {
      assert words[p] == words[queue[0]];
    }
    if p == queue[0] {
      assert t in kids;
    }
  }

  lemma {:induction false} AllDone(words: seq<Text>, edge: seq<seq<int>>, done: set<int>, u: int)
    requires IsTrie(words, edge) && FrontierOk(words, [], done) && 0 in done && 0 <= u < |words|
    ensures u in done
    decreases |words[u]|
  {
    if u != 0 {
      var p := Parent(words, edge, u);
      AllDone(words, edge, done, p);
      assert IsChild(words, p, u);
    }
  }

  // ----- the automaton -----

  /** The completed tables: longest-suffix transitions and exact accept flags. */
  ghost predicate IsAutomaton(a: Automaton, words: seq<Text>, needles: seq<Text>) {
    && WellShaped(a) && |a.next| == |words| > 0 && words[0] == []
    && PrefixClosed(words)
    && (forall n :: n in needles ==> n in words)
    && (forall s :: 0 <= s < |words| ==> RowDone(words, a.next[s], s))
    && (forall s :: 0 <= s < |words| ==> (a.accept[s] <==> EndsWithNeedle(needles, words[s])))
  }

  ghost function States(n: nat): (r: set<int>)
    ensures forall s :: s in r <==> 0 <= s < n
  {
    if n == 0 then {} else States(n - 1) + {n - 1}
  }

  ghost predicate Progress(words: seq<Text>, edge: seq<seq<int>>, needles: seq<Text>, next: seq<seq<int>>,
                           accept: seq<bool>, fail: seq<int>, queue: seq<int>, done: set<int>) {
    && RowsOk(words, edge, next, done) && AcceptOk(words, needles, accept, done)
    && FailsOk(words, fail, queue) && FrontierOk(words, queue, done) && 0 in done
  }

  method Build(needles: seq<Text>) returns (a: Automaton, ghost words: seq<Text>)
    ensures IsAutomaton(a, words, needles)
    ensures WellShaped(a) && forall text :: Reports(a, 0, text) <==> text != [] && AnyContained(text, needles)
  {
    var edge, accept;
    edge, accept, words := BuildTrie(needles);
    var next, fail, queue := CompleteRoot(edge, words);
    ghost var done := {0};
    RootAccept(words, needles, accept);
    while queue != []
      invariant Progress(words, edge, needles, next, accept, fail, queue, done)
      decreases States(|words|) - done
    {
      ghost var before, fail0 := queue, fail;
      var state := queue[0];
      HeadIsReady(words, edge, needles, next, accept, fail, queue, done);
      queue := queue[1..];
      if accept[fail[state]] {
        AcceptStep(words, needles, accept, done, state);
        accept := accept[state := true];
      }
      var kids;
      next, accept, fail, kids := CompleteRow(state, next, accept, fail, words, edge, needles, done);
      AcceptDone(words, needles, accept, done, state);
      FrontierStep(words, edge, before, done, kids);
      FailsAppend(words, fail0, fail, before, kids, done);
      queue := queue + kids;
      done := done + {state};
    }
    a := Automaton(next, accept);
    Finished(words, edge, needles, next, accept, fail, done);
    forall text ensures Reports(a, 0, text) <==> text != [] && AnyContained(text, needles) {
      RunDecides(a, words, needles, text);
    }
  }

  /** What CompleteRow and the accept update need of the queue's head. */
  lemma HeadIsReady(words: seq<Text>, edge: seq<seq<int>>, needles: seq<Text>, next: seq<seq<int>>,
                    accept: seq<bool>, fail: seq<int>, queue: seq<int>, done: set<int>)
    requires Progress(words, edge, needles, next, accept, fail, queue, done) && queue != []
    requires forall n :: n in needles ==> n in words
    ensures 0 < queue[0] < |words| && queue[0] !in done && |fail| == |accept| == |words|
    ensures FailOk(words, queue[0], fail[queue[0]]) && fail[queue[0]] in done && 0 <= fail[queue[0]] < |words|
    ensures forall t :: IsChild(words, queue[0], t) ==> t !in done
    ensures EndsWithNeedle(needles, words[queue[0]]) <==> words[queue[0]] in needles || accept[fail[queue[0]]]
  {
    assert queue[0] in queue;
    FailIsDone(words, queue, done, fail[queue[0]]);
    AcceptThroughFail(needles, words, queue[0], fail[queue[0]]);
  }

  lemma AcceptDone(words: seq<Text>, needles: seq<Text>, accept: seq<bool>, done: set<int>, s: int)
    requires AcceptOk(words, needles, accept, done) && 0 <= s < |words|
    requires EndsWithNeedle(needles, words[s]) ==> accept[s]
    ensures AcceptOk(words, needles, accept, done + {s})
  {
  }

  lemma FailsAppend(words: seq<Text>, fail0: seq<int>, fail: seq<int>, queue: seq<int>, kids: seq<int>, done: set<int>)
    requires queue != [] && FrontierOk(words, queue, done) && KidsBelow(words, queue[0], 256, kids)
    requires FailsOk(words, fail0, queue) && FailsOk(words, fail, kids) && SameExcept(fail, fail0, kids)
    ensures FailsOk(words, fail, queue[1..] + kids)
  {
    forall s | s in queue[1..] + kids ensures 0 < s < |words| && FailOk(words, s, fail[s]) {
      assert s in queue || s in kids;
    }
  }

  lemma Finished(words: seq<Text>, edge: seq<seq<int>>, needles: seq<Text>, next: seq<seq<int>>,
                 accept: seq<bool>, fail: seq<int>, done: set<int>)
    requires Progress(words, edge, needles, next, accept, fail, [], done)
    requires forall n :: n in needles ==> n in words
    ensures IsAutomaton(Automaton(next, accept), words, needles)
  {
    TrieIsPrefixClosed(words, edge);
    forall s | 0 <= s < |words| ensures s in done {
      AllDone(words, edge, done, s);
    }
    forall s | 0 <= s < |words| ensures RowDone(words, next[s], s) {
      assert s in done;
    }
  }

  /** Only the empty needle ends the empty word. */
  lemma RootAccept(words: seq<Text>, needles: seq<Text>, accept: seq<bool>)
    requires AcceptsWords(words, needles, accept) && |words| > 0 && words[0] == []
    ensures AcceptOk(words, needles, accept, {0})
  {
    forall s | 0 <= s < |words| && words[s] in needles ensures EndsWithNeedle(needles, words[s]) {
      WordIsItsLongestSuffix(words, s);
    }
  }

  // ----- running it -----

  /** The state after x is the longest suffix of x in the trie; it accepts when a needle has just ended. */
  lemma AdvanceStep(a: Automaton, words: seq<Text>, needles: seq<Text>, x: Text, b: byte, s: int)
    requires IsAutomaton(a, words, needles) && IsLongestSuffix(words, x, s)
    ensures var (t, hit) := Advance(a, s, b);
      IsLongestSuffix(words, x + [b], t) && (hit <==> EndsWithNeedle(needles, x + [b]))
  {
    var t := a.next[s][b as int];
    assert EntryOk(words, a.next[s], s, b as int);
    LongestSuffixStep(words, x, b, s, t);
    EndsWithNeedleByState(needles, words, x + [b], t);
  }

  ghost predicate AnyContained(text: Text, needles: seq<Text>) {
    exists n :: n in needles && Contains(text, n)
  }

  /** Some step of feeding the text has reported a match. */
  ghost predicate Reported(needles: seq<Text>, text: Text) {
    text != [] && (EndsWithNeedle(needles, text) || Reported(needles, text[..|text| - 1]))
  }

  lemma ReportedStep(needles: seq<Text>, text: Text, b: byte)
    ensures Reported(needles, text + [b]) <==> Reported(needles, text) || EndsWithNeedle(needles, text + [b])
  {
    assert (text + [b])[..|text|] == text;
  }

  lemma {:induction false} ReportedStays(needles: seq<Text>, text: Text, rest: Text)
    requires Reported(needles, text)
    ensures Reported(needles, text + rest)
  {
    if rest == [] {
      assert text + rest == text;
    } else {
      var front, last := rest[..|rest| - 1], rest[|rest| - 1];
      ReportedStays(needles, text, front);
      ReportedStep(needles, text + front, last);
      assert (text + front) + [last] == text + rest;
    }
  }

  /** A report is made exactly when some needle occurs in a non-empty text. */
  lemma {:induction false} ReportedIsContained(needles: seq<Text>, text: Text)
    ensures Reported(needles, text) <==> text != [] && AnyContained(text, needles)
  {
    if text != [] {
      var front, last := text[..|text| - 1], text[|text| - 1];
      assert text == front + [last];
      ReportedIsContained(needles, front);
      forall n | n in needles ensures Contains(text, n) <==> Contains(front, n) || IsSuffix(n, text) {
        ContainsExtend(front, last, n);
      }
      if front == [] {
        forall n | n in needles && Contains(front, n) ensures IsSuffix(n, text) {
          assert n == [];
        }
      }
    }
  }

  /** The automaton, run over the text from a state, reports a match at some step. */
  predicate Reports(a: Automaton, state: int, text: Text)
    requires WellShaped(a)
    decreases text
  {
    text != [] && (Advance(a, state, text[0]).1 || Reports(a, Advance(a, state, text[0]).0, text[1..]))
  }

  lemma {:induction false} RunReports(a: Automaton, words: seq<Text>, needles: seq<Text>, fed: Text, state: int, text: Text)
    requires IsAutomaton(a, words, needles) && IsLongestSuffix(words, fed, state)
    ensures Reported(needles, fed) || Reports(a, state, text) <==> Reported(needles, fed + text)
    decreases text
  {
    if text == [] {
      assert fed + text == fed;
    } else {
      var b := text[0];
      AdvanceStep(a, words, needles, fed, b, state);
      ReportedStep(needles, fed, b);
      RunReports(a, words, needles, fed + [b], Advance(a, state, b).0, text[1..]);
      assert fed + [b] + text[1..] == fed + text;
    }
  }

  /** From the root, some step reports a match exactly if a needle occurs in the text. */
  lemma RunDecides(a: Automaton, words: seq<Text>, needles: seq<Text>, text: Text)
    requires IsAutomaton(a, words, needles)
    ensures Reports(a, 0, text) <==> text != [] && AnyContained(text, needles)
  {
    WordIsItsLongestSuffix(words, 0);
    RunReports(a, words, needles, [], 0, text);
    assert [] + text == text;
    ReportedIsContained(needles, text);
  }

  /** The matcher's state and verdict after t. */
  ghost predicate AutomatonOk(needles: seq<Text>, words: seq<Text>, state: int, matched: bool, t: Text) {
    (matched <==> Reported(needles, t)) && (!matched ==> IsLongestSuffix(words, t, state))
  }

  method FeedAutomaton(a: Automaton, state: int, b: byte, ghost t: Text, ghost needles: seq<Text>, ghost words: seq<Text>)
      returns (next: int, matched: bool)
    requires IsAutomaton(a, words, needles) && AutomatonOk(needles, words, state, false, t)
    ensures AutomatonOk(needles, words, next, matched, t + [b])
  {
    ReportedStep(needles, t, b);
    AdvanceStep(a, words, needles, t, b, state);
    var (to, hit) := Advance(a, state, b);
    next, matched := to, hit;
  }

  lemma FedAll(needles: seq<Text>, words: seq<Text>, state: int, matched: bool, fed: Text, rest: Text)
    requires AutomatonOk(needles, words, state, matched, fed) && (matched || rest == [])
    ensures AutomatonOk(needles, words, state, matched, fed + rest)
  {
    if matched {
      ReportedStays(needles, fed, rest);
    } else {
      assert fed + rest == fed;
    }
  }

  /** Feed a segment until the first report. */
  method FeedAutomatonSegment(a: Automaton, state: int, segment: Text, ghost t: Text, ghost needles: seq<Text>, ghost words: seq<Text>)
      returns (next: int, matched: bool)
    requires IsAutomaton(a, words, needles) && AutomatonOk(needles, words, state, false, t)
    ensures AutomatonOk(needles, words, next, matched, t + segment)
  {
    hide IsAutomaton, AutomatonOk;
    next, matched := state, false;
    ghost var fed := t;
    var i := 0;
    while i < |segment| && !matched
      invariant 0 <= i <= |segment| && fed == t + segment[..i]
      invariant AutomatonOk(needles, words, next, matched, fed)
    {
      next, matched := FeedAutomaton(a, next, segment[i], fed, needles, words);
      assert segment[..i + 1] == segment[..i] + [segment[i]];
      fed := fed + [segment[i]];
      i := i + 1;
    }
    assert segment == segment[..i] + segment[i..];
    assert fed + segment[i..] == t + segment;
    FedAll(needles, words, next, matched, fed, segment[i..]);
  }

  /** A whole text from the root. */
  method Search(a: Automaton, text: Text, ghost words: seq<Text>, ghost needles: seq<Text>) returns (found: bool)
    requires IsAutomaton(a, words, needles)
    ensures found <==> text != [] && AnyContained(text, needles)
  {
    ReportedIsContained(needles, text);
    WordIsItsLongestSuffix(words, 0);
    var state;
    state, found := FeedAutomatonSegment(a, 0, text, [], needles, words);
    assert [] + text == text;
  }
}
