/**
 The contains matcher: the prefix table, feeding one byte, and feeding a whole
 segment with the block search that skips everything but the segment's tail.
 */
module Kmp {
  import opened Bytes

  /** The first k bytes of p are the last k bytes of t. */
  ghost predicate Overlap(p: Text, t: Text, k: int) {
    0 <= k <= |p| && k <= |t| && p[..k] == t[|t| - k..]
  }

  /** k is the length of the longest prefix of p, at most bound bytes long, that ends t. */
  ghost predicate LongestWithin(p: Text, t: Text, bound: int, k: int) {
    k <= bound && Overlap(p, t, k) && forall j :: k < j <= bound ==> !Overlap(p, t, j)
  }

  /** The state of the matcher after t, as long as p has not occurred. */
  ghost predicate Longest(p: Text, t: Text, k: int) {
    LongestWithin(p, t, |p| - 1, k)
  }

  /** Entry i is the longest proper border of p[..i + 1]. */
  ghost predicate IsPrefixTable(p: Text, lps: seq<int>) {
    |lps| == |p| && forall i :: 0 <= i < |p| ==> LongestWithin(p, p[..i + 1], i, lps[i])
  }

  /** A fallback chain position: an overlap such that no longer one below bound continues with b. */
  ghost predicate Candidate(p: Text, t: Text, bound: int, b: byte, k: int)
    requires bound <= |p|
  {
    0 <= k < bound && Overlap(p, t, k) && forall j :: k < j < bound && Overlap(p, t, j) ==> p[j] != b
  }

  lemma OverlapNested(p: Text, t: Text, k: int, j: int)
    requires Overlap(p, t, k) && 0 <= j <= k
    ensures Overlap(p, t, j) <==> Overlap(p, p[..k], j)
  {
    assert p[..k][k - j..] == t[|t| - k..][k - j..] == t[|t| - j..];
  }

  lemma OverlapStep(p: Text, t: Text, b: byte, k: int)
    requires 0 <= k < |p|
    ensures Overlap(p, t + [b], k + 1) <==> Overlap(p, t, k) && p[k] == b
  {
    var u := t + [b];
    if k <= |t| {
      assert u[|u| - (k + 1)..] == t[|t| - k..] + [b];
      assert p[..k + 1] == p[..k] + [p[k]];
      if Overlap(p, u, k + 1) {
        assert p[..k] == p[..k + 1][..k] == t[|t| - k..];
        assert p[k] == p[..k + 1][k];
      }
    }
  }

  /** Following the table entry of a mismatching candidate reaches the next candidate. */
  lemma Fallback(p: Text, t: Text, bound: int, b: byte, k: int, next: int)
    requires bound <= |p| && Candidate(p, t, bound, b, k)
    requires 0 < k && b != p[k] && LongestWithin(p, p[..k], k - 1, next)
    ensures Candidate(p, t, bound, b, next)
  {
    OverlapNested(p, t, k, next);
    forall j | next < j < bound && Overlap(p, t, j) ensures p[j] != b {
      if j < k {
        OverlapNested(p, t, k, j);
      }
    }
  }

  /** The chain ends with the longest overlap of the extended text. */
  lemma ChainEnd(p: Text, t: Text, bound: int, b: byte, k: int)
    requires bound <= |p| && Candidate(p, t, bound, b, k) && (k == 0 || p[k] == b)
    ensures LongestWithin(p, t + [b], bound, if p[k] == b then k + 1 else 0)
  {
    forall j | 0 < j <= bound ensures Overlap(p, t + [b], j) <==> Overlap(p, t, j - 1) && p[j - 1] == b {
      OverlapStep(p, t, b, j - 1);
    }
  }

  method BuildPrefixTable(p: Text) returns (lps: array<int>)
    ensures fresh(lps)
    ensures IsPrefixTable(p, lps[..])
  {
    lps := new int[|p|](_ => 0);
    var length, i := 0, 1;
    while i < |p|
      invariant |p| > 0 ==> 0 <= length < i <= |p|
      invariant forall k :: 0 <= k < i && k < |p| ==> LongestWithin(p, p[..k + 1], k, lps[k])
      invariant |p| > 0 ==> Overlap(p, p[..i], length)
      invariant i < |p| ==> Candidate(p, p[..i], i, p[i], length)
      decreases 2 * (|p| - i) + length
    {
      assert p[..i] + [p[i]] == p[..i + 1];
      if p[i] == p[length] {
        ChainEnd(p, p[..i], i, p[i], length);
        length := length + 1;
        lps[i] := length;
        i := i + 1;
      } else if length != 0 {
        assert LongestWithin(p, p[..length - 1 + 1], length - 1, lps[length - 1]);
        Fallback(p, p[..i], i, p[i], length, lps[length - 1]);
        length := lps[length - 1];
      } else {
        ChainEnd(p, p[..i], i, p[i], length);
        lps[i] := 0;
        i := i + 1;
      }
    }
  }

  /** One byte of the contains matcher; the ghost t is the text fed so far. */
  method FeedByte(p: Text, lps: seq<int>, pos: int, b: byte, ghost t: Text) returns (next: int, matched: bool)
    requires p != [] && IsPrefixTable(p, lps) && Longest(p, t, pos)
    ensures matched <==> IsSuffix(p, t + [b])
    ensures 0 <= next < |p|
    ensures !matched ==> Longest(p, t + [b], next)
  {
    next := pos;
    while next > 0 && b != p[next]
      invariant Candidate(p, t, |p|, b, next)
    {
      assert LongestWithin(p, p[..next - 1 + 1], next - 1, lps[next - 1]);
      Fallback(p, t, |p|, b, next, lps[next - 1]);
      next := lps[next - 1];
    }
    ChainEnd(p, t, |p|, b, next);
    FullOverlapIsSuffix(p, t + [b]);
    matched := false;
    if b == p[next] {
      next := next + 1;
      if next == |p| {
        matched := true;
        assert LongestWithin(p, p[..next - 1 + 1], next - 1, lps[next - 1]);
        next := lps[next - 1];
      }
    }
  }

  lemma FullOverlapIsSuffix(p: Text, t: Text)
    ensures Overlap(p, t, |p|) <==> IsSuffix(p, t)
  {
    assert p[..|p|] == p;
  }

  /** Feeding a segment: the search result and the state are those of the whole text. */
  method FeedSegment(p: Text, lps: seq<int>, pos: int, segment: Text, ghost t: Text) returns (next: int, matched: bool)
    requires p != [] && IsPrefixTable(p, lps) && Longest(p, t, pos) && !Contains(t, p)
    ensures matched <==> Contains(t + segment, p)
    ensures !matched ==> Longest(p, t + segment, next)
  {
    if pos == 0 {
      var found := FindBlock(segment, p);
      if found {
        ContainsMonotone(t, segment, p);
        return 0, true;
      }
      NoOccurrenceAcross(p, t, segment);
      if |p| <= 1 {
        return 0, false;
      }
      var start := |segment| - (|p| - 1);
      if start < 0 {
        start := 0;
      }
      var tail := segment[start..];
      ShortTextHasNoMatch(p, []);
      ShortTextHasNoMatch(p, tail);
      next, matched := FeedAll(p, lps, 0, tail, []);
      assert [] + tail == tail;
      TailIsEnough(p, t, segment, start, next);
      return next, false;
    }
    next, matched := FeedAll(p, lps, pos, segment, t);
  }

  /** The library block search: is the needle somewhere in the segment? */
  method FindBlock(segment: Text, p: Text) returns (found: bool)
    ensures found <==> Contains(segment, p)
  {
    var i := 0;
    while i <= |segment|
      invariant 0 <= i <= |segment| + 1
      invariant forall k :: 0 <= k < i ==> !OccursAt(segment, p, k)
    {
      if OccursAt(segment, p, i) {
        return true;
      }
      i := i + 1;
    }
    return false;
  }

  /** Byte by byte; once matched, the matcher ignores the rest. */
  method FeedAll(p: Text, lps: seq<int>, pos: int, segment: Text, ghost t: Text) returns (next: int, matched: bool)
    requires p != [] && IsPrefixTable(p, lps) && Longest(p, t, pos) && !Contains(t, p)
    ensures matched <==> Contains(t + segment, p)
    ensures !matched ==> Longest(p, t + segment, next)
  {
    next, matched := pos, false;
    var i := 0;
    assert t + segment[..0] == t;
    while i < |segment|
      invariant 0 <= i <= |segment|
      invariant matched <==> Contains(t + segment[..i], p)
      invariant !matched ==> Longest(p, t + segment[..i], next)
    {
      var b := segment[i];
      assert t + segment[..i + 1] == (t + segment[..i]) + [b];
      ContainsExtend(t + segment[..i], b, p);
      if !matched {
        next, matched := FeedByte(p, lps, next, b, t + segment[..i]);
      }
      i := i + 1;
    }
    assert t + segment[..i] == t + segment;
  }

  lemma ShortTextHasNoMatch(p: Text, t: Text)
    requires |t| < |p|
    ensures !Contains(t, p)
  {
  }

  lemma AcrossIsOverlap(p: Text, t: Text, segment: Text, i: int)
    requires OccursAt(t + segment, p, i) && i < |t| < i + |p|
    ensures Overlap(p, t, |t| - i)
  {
    var u, k := t + segment, |t| - i;
    assert p[..k] == u[i..i + |p|][..k] == t[|t| - k..];
  }

  /** With no overlap pending, a needle missing from the segment is missing from the whole text. */
  lemma NoOccurrenceAcross(p: Text, t: Text, segment: Text)
    requires p != [] && Longest(p, t, 0) && !Contains(t, p) && !Contains(segment, p)
    ensures !Contains(t + segment, p)
  {
    forall i ensures !OccursAt(t + segment, p, i) {
      if OccursAt(t + segment, p, i) {
        ContainsAppend(t, segment, p, i);
        AcrossIsOverlap(p, t, segment, i);
        assert false;
      }
    }
  }

  /** Re-feeding only the last |p| - 1 bytes reaches the state of feeding every byte. */
  lemma TailIsEnough(p: Text, t: Text, segment: Text, start: int, k: int)
    requires |p| > 1 && Longest(p, t, 0)
    requires 0 <= start <= |segment|
    requires start == if |segment| < |p| - 1 then 0 else |segment| - (|p| - 1)
    requires Longest(p, segment[start..], k)
    ensures Longest(p, t + segment, k)
  {
    var u, tail := t + segment, segment[start..];
    assert u[|u| - k..] == tail[|tail| - k..];
    forall j | k < j < |p| ensures !Overlap(p, u, j) {
      assert !Overlap(p, tail, j);
      assert j > |segment| ==> !Overlap(p, t, j - |segment|);
      if Overlap(p, u, j) {
        OverlapOfConcat(p, t, segment, start, j);
      }
    }
  }

  lemma OverlapOfConcat(p: Text, t: Text, segment: Text, start: int, j: int)
    requires 0 <= start <= |segment| && (start == 0 || j <= |segment| - start)
    requires Overlap(p, t + segment, j)
    ensures if j <= |segment| then Overlap(p, segment[start..], j) else Overlap(p, t, j - |segment|)
  {
    var u := t + segment;
    if j <= |segment| {
      assert u[|u| - j..] == segment[start..][|segment| - start - j..];
    } else {
      var over := j - |segment|;
      assert u[|u| - j..][..over] == t[|t| - over..];
      assert p[..over] == p[..j][..over];
    }
  }
}
