/**
 Selector path patterns and the matchers the streaming engine chooses between:
 linear, single-recursive and memoised, each against one declarative relation.
 */
module Patterns {
  import opened Bytes
  import opened Json

  datatype Token =
    | Literal(raw: string, arrayOnly: bool, index: int)
    | ObjectWildcard
    | ArrayWildcard
    | AnyChild
    | Recursive

  type Pattern = seq<Token>

  const MAX_INT := 0x7fff_ffff_ffff_ffff

  predicate IsDigit(c: char) { '0' <= c <= '9' }

  predicate AllDigits(s: string) {
    forall i | 0 <= i < |s| :: IsDigit(s[i])
  }

  function DigitsValue(s: string): int {
    if s == "" then 0 else 10 * DigitsValue(s[..|s| - 1]) + (s[|s| - 1] as int - '0' as int)
  }

  /** The library's decimal conversion to a 64-bit integer: optional sign, digits, range check. */
  function Atoi(s: string): Option<int> {
    var body := if s != "" && (s[0] == '+' || s[0] == '-') then s[1..] else s;
    if body == "" || !AllDigits(body) then None
    else
      var v := if s[0] == '-' then -DigitsValue(body) else DigitsValue(body);
      if -MAX_INT - 1 <= v <= MAX_INT then Some(v) else None
  }

  function CompileToken(segment: string): Token {
    if segment == "*" then ObjectWildcard
    else if segment == "[]" then ArrayWildcard
    else if segment == "**" then AnyChild
    else if segment == "..." then Recursive
    else match Atoi(segment)
      case Some(index) => if index >= 0 then Literal(segment, true, index) else Literal(segment, false, 0)
      case None => Literal(segment, false, 0)
  }

  function Compile(segments: seq<string>): Pattern {
    seq(|segments|, i requires 0 <= i < |segments| => CompileToken(segments[i]))
  }

  function TokenMatches(token: Token, s: Segment): bool {
    match token
    case ObjectWildcard => s.Key?
    case ArrayWildcard => s.Index?
    case AnyChild => true
    case Literal(raw, arrayOnly, index) =>
      (match s
       case Key(k) => raw == k
       case Index(i) => arrayOnly && index == i)
    case Recursive => false
  }

  /** The meaning of a pattern: a recursive token spans any number of steps, every other token exactly one. */
  predicate Matches(pattern: Pattern, path: Path)
    decreases |pattern| + |path|
  {
    if pattern == [] then path == []
    else if pattern[0].Recursive? then
      Matches(pattern[1..], path) || (path != [] && Matches(pattern, path[1..]))
    else
      path != [] && TokenMatches(pattern[0], path[0]) && Matches(pattern[1..], path[1..])
  }

  /** The paths that end below a trailing descent: a descent spans any steps, a trailing one at least one. */
  predicate Hits(tokens: Pattern, path: Path)
    decreases |tokens| + |path|
  {
    if tokens == [] then path == []
    else if !tokens[0].Recursive? then path != [] && TokenMatches(tokens[0], path[0]) && Hits(tokens[1..], path[1..])
    else if |tokens| == 1 then path != []
    else Hits(tokens[1..], path) || (path != [] && Hits(tokens, path[1..]))
  }

  ghost predicate NoRecursive(pattern: Pattern) {
    forall i :: 0 <= i < |pattern| ==> !pattern[i].Recursive?
  }

  /** Segment by segment match of equally long sequences. */
  ghost predicate Pointwise(pattern: Pattern, path: Path) {
    |pattern| == |path| && forall i :: 0 <= i < |pattern| ==> TokenMatches(pattern[i], path[i])
  }

  lemma {:induction false} PointwiseIsMatch(pattern: Pattern, path: Path)
    requires NoRecursive(pattern)
    ensures Matches(pattern, path) <==> Pointwise(pattern, path)
    decreases |pattern|
  {
    if pattern != [] && path != [] {
      PointwiseIsMatch(pattern[1..], path[1..]);
      if Pointwise(pattern[1..], path[1..]) && TokenMatches(pattern[0], path[0]) {
        assert forall i :: 0 < i < |pattern| ==> pattern[i] == pattern[1..][i - 1] && path[i] == path[1..][i - 1];
      }
    }
  }

  method MatchesLinear(pattern: Pattern, path: Path) returns (matched: bool)
    requires NoRecursive(pattern)
    ensures matched <==> Matches(pattern, path)
  {
    PointwiseIsMatch(pattern, path);
    if |pattern| != |path| {
      return false;
    }
    for i := 0 to |pattern|
      invariant forall k :: 0 <= k < i ==> TokenMatches(pattern[k], path[k])
    {
      if !TokenMatches(pattern[i], path[i]) {
        return false;
      }
    }
    return true;
  }

  // ----- one recursive token -----

  /** A recursive head spans some number k of steps. */
  lemma {:induction false} RecursiveSpan(pattern: Pattern, path: Path)
    requires pattern != [] && pattern[0].Recursive?
    ensures Matches(pattern, path) <==> exists k :: 0 <= k <= |path| && Matches(pattern[1..], path[k..])
    decreases |path|
  {
    assert path[0..] == path;
    if path == [] {
      assert forall k :: 0 <= k <= |path| ==> path[k..] == path;
    } else {
      RecursiveSpan(pattern, path[1..]);
      if Matches(pattern, path[1..]) {
        var k :| 0 <= k <= |path| - 1 && Matches(pattern[1..], path[1..][k..]);
        assert path[1..][k..] == path[k + 1..];
      }
      if k :| 0 < k <= |path| && Matches(pattern[1..], path[k..]) {
        assert path[1..][k - 1..] == path[k..];
      }
    }
  }

  /** Tokens before the recursive one match their segments one by one. */
  lemma {:induction false} PrefixSplit(pattern: Pattern, path: Path, n: nat)
    requires n <= |pattern| && NoRecursive(pattern[..n])
    ensures Matches(pattern, path) <==> n <= |path| && Pointwise(pattern[..n], path[..n]) && Matches(pattern[n..], path[n..])
  {
    if n > 0 {
      if path != [] {
        assert pattern[..n][1..] == pattern[1..][..n - 1] && pattern[n..] == pattern[1..][n - 1..];
        PrefixSplit(pattern[1..], path[1..], n - 1);
        if n <= |path| {
          assert path[n..] == path[1..][n - 1..];
          assert path[..n][1..] == path[1..][..n - 1];
          PointwiseCons(pattern[..n], path[..n]);
        }
      }
      assert !pattern[..n][0].Recursive?;
    } else {
      assert pattern[0..] == pattern && path[0..] == path;
    }
  }

  lemma PointwiseCons(pattern: Pattern, path: Path)
    requires pattern != [] && path != []
    ensures Pointwise(pattern, path) <==> TokenMatches(pattern[0], path[0]) && Pointwise(pattern[1..], path[1..])
  {
    if TokenMatches(pattern[0], path[0]) && Pointwise(pattern[1..], path[1..]) {
      assert forall i :: 0 < i < |pattern| ==> pattern[i] == pattern[1..][i - 1] && path[i] == path[1..][i - 1];
    }
  }

  ghost predicate SingleRecursive(pattern: Pattern, r: int) {
    0 <= r < |pattern| && pattern[r].Recursive? && NoRecursive(pattern[..r]) && NoRecursive(pattern[r + 1..])
  }

  lemma SingleRecursiveSplit(pattern: Pattern, path: Path, r: int)
    requires SingleRecursive(pattern, r)
    ensures var right := pattern[r + 1..]; var start := |path| - |right|;
      Matches(pattern, path) <==> r <= start && Pointwise(pattern[..r], path[..r]) && Pointwise(right, path[start..])
  {
    var right := pattern[r + 1..];
    var start := |path| - |right|;
    PrefixSplit(pattern, path, r);
    if r <= |path| {
      assert pattern[r..][1..] == right;
      RecursiveSpan(pattern[r..], path[r..]);
      forall k | 0 <= k <= |path| - r ensures Matches(right, path[r..][k..]) <==> k == start - r && Pointwise(right, path[start..]) {
        PointwiseIsMatch(right, path[r..][k..]);
        assert path[r..][k..] == path[r + k..];
      }
      if r <= start && Pointwise(right, path[start..]) {
        assert Matches(pattern[r..][1..], path[r..][start - r..]);
      }
    }
  }

  method MatchesSingleRecursive(pattern: Pattern, path: Path, recursiveIdx: int) returns (matched: bool)
    requires SingleRecursive(pattern, recursiveIdx)
    ensures matched <==> Matches(pattern, path)
  {
    SingleRecursiveSplit(pattern, path, recursiveIdx);
    for i := 0 to recursiveIdx
      invariant i <= |path|
      invariant forall k :: 0 <= k < i ==> TokenMatches(pattern[k], path[k])
    {
      if i >= |path| || !TokenMatches(pattern[i], path[i]) {
        assert i < |path| ==> !TokenMatches(pattern[..recursiveIdx][i], path[i]);
        return false;
      }
    }
    if recursiveIdx == |pattern| - 1 {
      return true;
    }
    var right := pattern[recursiveIdx + 1..];
    if |path| < recursiveIdx + |right| {
      return false;
    }
    var start := |path| - |right|;
    if start < recursiveIdx {
      return false;
    }
    for i := 0 to |right|
      invariant forall k :: 0 <= k < i ==> TokenMatches(right[k], path[start + k])
    {
      if !TokenMatches(right[i], path[start + i]) {
        assert path[start..][i] == path[start + i];
        return false;
      }
    }
    return true;
  }

  // ----- several recursive tokens: the memo table -----

  function CellAt(pi: nat, si: nat, stride: nat): nat {
    pi * stride + si
  }

  /** The cell of a suffix pair: 0 unknown, 1 no match, 2 match. */
  ghost predicate CellOk(memo: seq<int>, pattern: Pattern, path: Path, pi: nat, si: nat) {
    pi <= |pattern| && si <= |path| ==>
      var c := CellAt(pi, si, |path| + 1);
      c < |memo| &&
      (memo[c] == 1 ==> !Matches(pattern[pi..], path[si..])) &&
      (memo[c] == 2 ==> Matches(pattern[pi..], path[si..]))
  }

  /** Every answer the table holds is right. */
  ghost predicate MemoOk(memo: seq<int>, pattern: Pattern, path: Path) {
    |memo| == (|pattern| + 1) * (|path| + 1) &&
    forall pi: nat, si: nat :: CellOk(memo, pattern, path, pi, si)
  }

  lemma CellInRange(pattern: Pattern, path: Path, pi: nat, si: nat)
    requires pi <= |pattern| && si <= |path|
    ensures CellAt(pi, si, |path| + 1) < (|pattern| + 1) * (|path| + 1)
  {
    var stride := |path| + 1;
    assert pi * stride <= |pattern| * stride;
    assert (|pattern| + 1) * stride == |pattern| * stride + stride;
  }

  lemma CellsOrdered(pi: nat, si: nat, pj: nat, sj: nat, stride: nat)
    requires si < stride && pi < pj
    ensures CellAt(pi, si, stride) < CellAt(pj, sj, stride)
  {
    assert (pi + 1) * stride <= pj * stride;
    assert (pi + 1) * stride == pi * stride + stride;
  }

  lemma MemoUpdate(memo: seq<int>, pattern: Pattern, path: Path, pi: nat, si: nat, matched: bool)
    requires MemoOk(memo, pattern, path) && pi <= |pattern| && si <= |path|
    requires matched <==> Matches(pattern[pi..], path[si..])
    ensures CellAt(pi, si, |path| + 1) < |memo|
    ensures MemoOk(memo[CellAt(pi, si, |path| + 1) := if matched then 2 else 1], pattern, path)
  {
    CellInRange(pattern, path, pi, si);
    var c := CellAt(pi, si, |path| + 1);
    var memo' := memo[c := if matched then 2 else 1];
    forall pj: nat, sj: nat ensures CellOk(memo', pattern, path, pj, sj) {
      assert CellOk(memo, pattern, path, pj, sj);
      if pj <= |pattern| && sj <= |path| {
        if pj < pi {
          CellsOrdered(pj, sj, pi, si, |path| + 1);
        } else if pi < pj {
          CellsOrdered(pi, si, pj, sj, |path| + 1);
        }
      }
    }
  }

  method MatchesRecursiveMemo(pattern: Pattern, path: Path) returns (matched: bool)
    ensures matched <==> Matches(pattern, path)
  {
    var stride := |path| + 1;
    var memo := new int[(|pattern| + 1) * stride](_ => 0);
    forall pi: nat, si: nat ensures CellOk(memo[..], pattern, path, pi, si) {
      if pi <= |pattern| && si <= |path| {
        CellInRange(pattern, path, pi, si);
      }
    }
    matched := MatchesFrom(pattern, path, 0, 0, memo, stride);
    assert pattern[0..] == pattern && path[0..] == path;
  }

  method MatchesFrom(pattern: Pattern, path: Path, pi: nat, si: nat, memo: array<int>, stride: nat) returns (matched: bool)
    requires pi <= |pattern| && si <= |path| && stride == |path| + 1
    requires MemoOk(memo[..], pattern, path)
    modifies memo
    ensures matched <==> Matches(pattern[pi..], path[si..])
    ensures MemoOk(memo[..], pattern, path)
    decreases |pattern| - pi
  {
    CellInRange(pattern, path, pi, si);
    assert CellOk(memo[..], pattern, path, pi, si);
    var memoIdx := CellAt(pi, si, stride);
    if memo[memoIdx] == 1 {
      return false;
    } else if memo[memoIdx] == 2 {
      return true;
    }
    matched := false;
    if pi == |pattern| {
      matched := si == |path|;
    } else {
      var token := pattern[pi];
      assert pattern[pi..][1..] == pattern[pi + 1..];
      if token.Recursive? {
        RecursiveSpan(pattern[pi..], path[si..]);
        if pi == |pattern| - 1 {
          assert Matches(pattern[pi..][1..], path[si..][|path| - si..]);
          matched := true;
        } else {
          var i := si;
          while i <= |path| && !matched
            invariant si <= i <= |path| + 1
            invariant matched ==> Matches(pattern[pi..], path[si..])
            invariant !matched ==> forall k :: 0 <= k < i - si ==> !Matches(pattern[pi + 1..], path[si..][k..])
            invariant MemoOk(memo[..], pattern, path)
            decreases |path| + 1 - i, !matched
          {
            assert path[si..][i - si..] == path[i..];
            matched := MatchesFrom(pattern, path, pi + 1, i, memo, stride);
            if !matched {
              i := i + 1;
            }
          }
        }
      } else if si < |path| && TokenMatches(token, path[si]) {
        assert path[si..][1..] == path[si + 1..];
        matched := MatchesFrom(pattern, path, pi + 1, si + 1, memo, stride);
      }
    }
    MemoUpdate(memo[..], pattern, path, pi, si, matched);
    memo[memoIdx] := if matched then 2 else 1;
  }

  // ----- choosing a matcher -----

  datatype RecursiveInfo = RecursiveInfo(hasRecursive: bool, single: bool, index: int)

  /** Which matcher a pattern needs. */
  method PatternRecursiveInfo(pattern: Pattern) returns (info: RecursiveInfo)
    ensures InfoOk(pattern, info)
  {
    hide NoRecursive, SingleRecursive;
    var recursiveIdx := -1;
    NoneYet(pattern[..0]);
    for i := 0 to |pattern|
      invariant recursiveIdx < 0 ==> recursiveIdx == -1 && NoRecursive(pattern[..i])
      invariant recursiveIdx >= 0 ==> SingleRecursive(pattern[..i], recursiveIdx)
    {
      assert pattern[..i + 1] == pattern[..i] + [pattern[i]];
      OneMoreToken(pattern[..i], pattern[i], recursiveIdx);
      if pattern[i].Recursive? {
        if recursiveIdx >= 0 {
          return RecursiveInfo(true, false, -1);
        }
        recursiveIdx := i;
      }
    }
    assert pattern[..|pattern|] == pattern;
    if recursiveIdx >= 0 {
      return RecursiveInfo(true, true, recursiveIdx);
    }
    return RecursiveInfo(false, false, -1);
  }

  lemma NoneYet(pattern: Pattern)
    requires pattern == []
    ensures NoRecursive(pattern)
  {
  }

  lemma OneMoreToken(pattern: Pattern, t: Token, index: int)
    ensures NoRecursive(pattern) ==>
      if t.Recursive? then SingleRecursive(pattern + [t], |pattern|) else NoRecursive(pattern + [t])
    ensures SingleRecursive(pattern, index) && !t.Recursive? ==> SingleRecursive(pattern + [t], index)
  {
    var more := pattern + [t];
    if NoRecursive(pattern) {
      assert more[..|pattern|] == pattern;
    }
    if SingleRecursive(pattern, index) {
      assert more[..index] == pattern[..index];
      assert more[index + 1..] == pattern[index + 1..] + [t];
    }
  }

  ghost predicate InfoOk(pattern: Pattern, info: RecursiveInfo) {
    (!info.hasRecursive ==> NoRecursive(pattern)) && (info.hasRecursive && info.single ==> SingleRecursive(pattern, info.index))
  }

  method MatchesKnownRecursive(pattern: Pattern, path: Path, info: RecursiveInfo) returns (matched: bool)
    requires InfoOk(pattern, info)
    ensures matched <==> Matches(pattern, path)
  {
    if !info.hasRecursive {
      matched := MatchesLinear(pattern, path);
    } else if info.single {
      matched := MatchesSingleRecursive(pattern, path, info.index);
    } else {
      matched := MatchesRecursiveMemo(pattern, path);
    }
  }

  // ----- numbers in fields -----

  /** A number in decimal, without leading zeros. */
  function Decimal(n: nat): (s: string)
    ensures s != "" && AllDigits(s) && DigitsValue(s) == n && (s[0] == '0' <==> n == 0)
  {
    var last := [('0' as int + n % 10) as char];
    assert last[..0] == "";
    if n < 10 then last
    else
      var s := Decimal(n / 10) + last;
      assert s[..|s| - 1] == Decimal(n / 10);
      s
  }

  predicate AllZeros(s: string) {
    forall i | 0 <= i < |s| :: s[i] == '0'
  }

  lemma {:induction false} ZerosCountNothing(zeros: string, s: string)
    requires AllZeros(zeros) && AllDigits(s)
    ensures AllDigits(zeros + s) && DigitsValue(zeros + s) == DigitsValue(s) >= 0
    decreases |zeros| + |s|
  {
    var t := zeros + s;
    if s != "" {
      ZerosCountNothing(zeros, s[..|s| - 1]);
      assert t[..|t| - 1] == zeros + s[..|s| - 1];
    } else if zeros != "" {
      ZerosCountNothing(zeros[..|zeros| - 1], s);
      assert t[..|t| - 1] == zeros[..|zeros| - 1] + s;
    }
  }

  /** Digits are a decimal after zeros. */
  lemma {:induction false} DigitsAreDecimal(s: string) returns (zeros: string)
    requires s != "" && AllDigits(s)
    ensures DigitsValue(s) >= 0 && AllZeros(zeros) && s == zeros + Decimal(DigitsValue(s))
  {
    var front, last := s[..|s| - 1], s[|s| - 1];
    var digit := last as int - '0' as int;
    assert IsDigit(last);
    if front == "" {
      return "";
    }
    zeros := DigitsAreDecimal(front);
    var m, n := DigitsValue(front), DigitsValue(s);
    assert n / 10 == m && n % 10 == digit;
    if m == 0 {
      assert Decimal(0) == "0";
      zeros := zeros + "0";
    }
  }

  /** How a number may be written: with a sign or without, and with leading zeros. */
  predicate WritesAs(s: string, v: int, sign: string, zeros: string) {
    && AllZeros(zeros) && ((sign == "" && v >= 0) || (sign == "+" && v >= 0) || (sign == "-" && v <= 0))
    && s == sign + (zeros + Decimal(if v >= 0 then v else -v))
  }

  ghost predicate Writes(s: string, v: int) {
    exists sign, zeros :: WritesAs(s, v, sign, zeros)
  }

  lemma WrittenIsRead(s: string, v: int, sign: string, zeros: string)
    requires WritesAs(s, v, sign, zeros) && -MAX_INT - 1 <= v <= MAX_INT
    ensures Atoi(s) == Some(v)
  {
    hide Decimal;
    var body := zeros + Decimal(if v >= 0 then v else -v);
    ZerosCountNothing(zeros, Decimal(if v >= 0 then v else -v));
    assert IsDigit(body[0]);
    assert sign == "" ==> s == body;
    assert sign != "" ==> s[1..] == body && s[0] == sign[0];
  }

  lemma ReadIsWritten(s: string) returns (sign: string, zeros: string)
    requires Atoi(s).Some?
    ensures WritesAs(s, Atoi(s).value, sign, zeros)
  {
    hide Decimal, DigitsValue;
    sign := if s[0] == '+' || s[0] == '-' then s[..1] else "";
    var body := s[|sign|..];
    zeros := DigitsAreDecimal(body);
    assert s == sign + body;
  }

  /** A segment reads as a number exactly if it writes one of 64 bits. */
  lemma AtoiReadsDecimals(s: string, v: int)
    ensures Atoi(s) == Some(v) <==> Writes(s, v) && -MAX_INT - 1 <= v <= MAX_INT
  {
    if Atoi(s) == Some(v) {
      var sign, zeros := ReadIsWritten(s);
    }
    if -MAX_INT - 1 <= v <= MAX_INT {
      if sign, zeros :| WritesAs(s, v, sign, zeros) {
        WrittenIsRead(s, v, sign, zeros);
      }
    }
  }

  /** Decimals as they are written. */
  lemma DecimalExamples()
    ensures Decimal(0) == "0" && Decimal(7) == "7" && Decimal(10) == "10" && Decimal(205) == "205"
  {
    assert Decimal(20) == Decimal(2) + "0";
  }

  /** The wildcards, segment by segment: any member, any element, any child, and any descendant or the node itself. */
  lemma WildcardsMean(path: Path)
    ensures Matches(Compile(["*"]), path) <==> |path| == 1 && path[0].Key?
    ensures Matches(Compile(["[]"]), path) <==> |path| == 1 && path[0].Index?
    ensures Matches(Compile(["**"]), path) <==> |path| == 1
    ensures Matches(Compile(["..."]), path)
  {
    CompiledAlone("*");
    CompiledAlone("[]");
    CompiledAlone("**");
    CompiledAlone("...");
    DescentReachesAll(path);
    OneTokenMatches(ObjectWildcard, path);
    OneTokenMatches(ArrayWildcard, path);
    OneTokenMatches(AnyChild, path);
    hide Matches, Compile;
  }

  /** Every other segment is a name. */
  lemma NamesMean(segment: string, path: Path)
    requires segment !in ["*", "[]", "**", "..."]
    ensures Matches(Compile([segment]), path) <==> |path| == 1 && Named(segment, path[0])
  {
    CompiledAlone(segment);
    OneTokenMatches(CompileToken(segment), path);
    hide Atoi, Writes, Matches, Compile;
    if |path| == 1 && path[0].Index? {
      AtoiReadsDecimals(segment, path[0].index);
    }
  }

  lemma CompiledAlone(segment: string)
    ensures Compile([segment]) == [CompileToken(segment)]
  {
  }

  lemma OneTokenMatches(t: Token, path: Path)
    requires !t.Recursive?
    ensures Matches([t], path) <==> |path| == 1 && TokenMatches(t, path[0])
  {
    PointwiseIsMatch([t], path);
  }

  /** A name leads to the member it is the key of and to the element whose index it writes. */
  ghost predicate Named(segment: string, s: Segment) {
    match s
    case Key(k) => k == segment
    case Index(i) => i <= MAX_INT && Writes(segment, i)
  }

  lemma {:induction false} DescentReachesAll(path: Path)
    ensures Matches([Recursive], path)
    decreases |path|
  {
    assert [Recursive][1..] == [];
    if path != [] {
      DescentReachesAll(path[1..]);
    }
  }
}
