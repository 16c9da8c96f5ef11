# LQL streaming engines, verified

A Dafny 4.11 model of the two streaming engines of LQL and of the simple forms they
are meant to agree with, with proofs that they do.

**Queries.** A selector is simplified, compiled to a boolean program over a vector of
hits, and fed one observation per node while a candidate is scanned. The model holds the
clause table, the three path matchers, the tail-dispatch index, the incremental string
matchers (prefix table, Aho-Corasick automaton, eq, prefix and membership matchers), the
observation of a node with its fast paths, the scan of a value with the two top-level
fast scans, payload capture that stops early, and a whole run with its counters and stop
limits. On the other side stands the tree evaluator, which decodes a document and walks it.
The main results:

* `Query.StreamIsTree`: on every object document on which each clause reads every node it
  reaches alike (`StreamClauses.Alike`) the streaming decision is the tree evaluator's answer;
  `Query.DiffersExactlyWhereNotAlike` shows the condition on a value to be exact.
* `Scan.ScanState.ScanValue`: general scan, single-eq scan and per-field scan leave the
  same hits; `Scan.FastDiffersOnNulls` says where they can part.
* `Scan.ScanState.ConsumeCandidate`: every value handed out was captured completely and reads
  back as the candidate (`Payload.Holds`).
* `Run.QueryStream`: a run delivers the shortest prefix of decisions at whose end there
  is a reason to stop; it never passes a limit and names the first one it meets
  (`Run.WithinLimits`, `Run.ReasonIsFirst`).
* `ClauseMeaning.BoundsJoin`, `ClausesOnValues`: what a clause says of a value, in concatenations of
  texts and the order of numbers, without the evaluator's own functions.
* `AhoCorasick.Build`, `Kmp.FeedSegment`, `Patterns.MatchesFrom`,
  `Dispatch.DispatchIndex.Candidates`, `Selectors.SimplifyMeaning`: the parts, each
  against an independent definition.

**Text.** Underneath, values are skipped, copied compactly or written with their keys
decoded and escaped again, straight from a buffered input. `JsonGrammar.AcceptedIffGenerated`
says what is accepted, `Compaction.CompactTextIsFixed` what compaction keeps, and
`Scanners.Scanner.CopyValue` and `SkipValue` that the scanners do this on every input,
malformed ones included, however the input arrives in the buffer.

**Mutations.** All mutations run in one traversal that carries a set of rules, each a
mutation and a position in its path, from node to node. The simple form applies the
mutations one after another, each walking the document and changing it in place. Both are
proved against one specification: `Mutations.Apply` says what one wildcard mutation does
from a set of positions, `Mutations.Create` what a literal set or increment does, and
`Mutations.Meaning` applies a program's mutations in turn. What that does to a document is said
place by place (`Reference.OnlyRemoved`, `OnlyWritten`, `OnlyTargetsChanged`). `Reference.Document.ApplyMutations`
and `MutateStream.MutateState.MutateCandidate` both compute `Reference.Sequential`, so the
one pass gives the same tree and fails exactly if the sequential form fails or the pass needs
the text of a number out of the finite range (`Overflow.RunJams`). The two families of programs are
those on which the forms agree: sets of scalars and increments along literal paths, and
wildcard paths throughout with no set or increment after a removal.

## Layout

| file | content |
|---|---|
| Bytes, Kmp, AhoCorasick, TermMatchers | byte strings and the incremental string matchers |
| JsonAlphabet, ClauseMeaning | the bytes of JSON text by their letters; clauses on values in the terms of the selector language |
| Json, Patterns, Dispatch, TreeEval | documents and trees, path matchers, dispatch index, the tree evaluator's walk |
| Selectors, Programs, StreamClauses | selectors, simplification, the boolean program and its forecast, clause compilation |
| Engine, Payload, Scan, Query, Run | the engine, captured payloads and reading them back, the scan, the agreement with the tree evaluator, whole runs |
| Mutations, Reference | what mutations mean, and the sequential form |
| ActiveRules, Overflow, MutateStream | rule sets, sums out of range, and the one-pass rewriter |
| Utf8, JsonText, JsonSyntax, JsonGrammar, Compaction, Scanners, FastScans | JSON text byte by byte: strings, what is accepted and the grammar it equals, the compact form, the scanners, the extent of the fast scans |
| Base64, Spool, Projection | the base64 form of a file, the spill-to-disk spool, field projection |

`hide` statements keep definitions that a proof does not need out of the solver's way.

## Where the code and its description differ

These are results about the code as it is; each is stated by a lemma or by the exact
premise of one.

* With two or more distinct needles a contains clause never matches the empty string, even
  when one needle is empty: exactly then it differs from trying each needle
  (`StreamClauses.StringTermsAgree`).
* An exists clause counts a null when the selector also holds a string term without a
  value, but not when the object takes a top-level fast scan (`Scan.FastDiffersOnNulls`).
* Eq with case ignored lowers both sides in the stream and compares exactly in the tree
  evaluator, so they agree on the texts for which the two comparisons do; a numeric range
  ignores strings in the stream and parses them in the tree evaluator, so they differ on the
  strings that parse to a number in bounds (`StreamClauses.LeavesAgree`, `Query.NotAlike`).
* Simplification takes an empty contains or prefix term over the root or any child as true.
  On a tree it holds exactly if the field has a segment and reaches a value, and, for a term
  given an explicit empty value, one that reads as a string (`Selectors.MatchAllOnTree`).
* Projection reads a path that starts with an array index, which its path parser refuses but
  a compiled path may have; it then always clashes with the output's root object
  (`Projection.SelectionClashes`).
* A selector that is empty after simplification matches values that are not objects
  (`Run.DecisionIsTree`).
* A descent that starts at a null does not return it; a field returns exactly the nulls at
  paths that end properly below its trailing descent (`TreeEval.NullsAreReachedBelow`).
* A sum that leaves the finite range, as 1e308 incremented by 1e308, stays in the document of
  the sequential form, but makes the pass fail where its text is needed: when pending rules
  apply to it (`Overflow.SumReplaced`) and, for
  arithmetic that can leave the range from nothing, when synthesised members are marshalled
  (`Overflow.TwiceFromNothing`). Synthesis starts from nothing even for members that are
  there, so in such arithmetic the pass can fail although every sum of the sequential form is
  finite (`Overflow.FromNothingAlthoughThere`). `Overflow.Jams` is the exact condition, and
  otherwise the two forms agree (`MutateStream.MutateState.MutateCandidate`).
* The forecast takes clauses as independent: it is exact for a program that reads each hit
  once, and not for one that reads a hit twice (`Programs.ForecastIsExact`,
  `Programs.ForecastIsNotExact`).
* Two clauses over one term object share one hit (`Query.SharedTermMisreads`).

## Model

| member | source | states |
|---|---|---|
| `Kmp.BuildPrefixTable` | stream_query.go:3515-3536 | entry i of the table is the length of the longest proper border of the first i+1 bytes |
| `Kmp.FeedByte` | stream_query.go:2992-3016 | one byte keeps the state the longest pattern prefix ending the text, and reports exactly the bytes that complete an occurrence |
| `Kmp.FeedSegment` | stream_query.go:2342-2430 | a segment fed by block search and tail re-feed is matched exactly if the needle occurs in the whole text so far, and otherwise leaves the state byte-by-byte feeding would leave |
| `Kmp.NoOccurrenceAcross` | stream_query.go:2392-2410 | with no overlap pending, a needle missing from the segment is missing from the whole text |
| `Kmp.TailIsEnough` | stream_query.go:2410-2428 | re-feeding only the last needle-length minus one bytes reaches the state of feeding everything |
| `AhoCorasick.BuildTrie` | stream_query.go:3538-3572 | the trie holds exactly the prefixes of the needles and marks the needles |
| `AhoCorasick.Build` | stream_query.go:3538-3614 | the completed table is the full automaton: every transition leads to the longest suffix that is a trie word, every accept mark says that some needle ends there |
| `AhoCorasick.LongestSuffixStep` | stream_query.go:3586-3608 | the longest matching suffix after one more byte is found through the failure state |
| `AhoCorasick.AdvanceStep` | stream_query.go:3616-3628 | one step keeps the state the longest suffix of the text that is a trie node and accepts exactly if a needle ends the text |
| `AhoCorasick.ReportedIsContained` | stream_query.go:3616-3628 | some step of a non-empty text reports a match exactly if some needle is a substring |
| `AhoCorasick.FeedAutomatonSegment` | stream_query.go:2376-2391 | feeding a segment keeps the automaton state and the verdict those of the whole text |
| `AhoCorasick.Search` | stream_query.go:1654-1664 | an in-memory candidate is accepted exactly if it is non-empty and contains a needle |
| `TermMatchers.FeedByte` | stream_query.go:2962-3017 | one byte keeps the invariant of the eq, prefix and contains matchers |
| `TermMatchers.FeedSegment` | stream_query.go:2315-2430 | one segment keeps the same invariant, through the bulk comparisons |
| `TermMatchers.FinalMatch` | stream_query.go:3019-3037 | the verdict at the closing quote is that of the whole text |
| `TermMatchers.MatchSingleTerm` | stream_query.go:2297-2647 | however a string is cut into segments, the term is matched exactly if it accepts the whole string |
| `TermMatchers.FeedInSegment` | stream_query.go:2660-2700 | exactly the listed values that start with the text so far stay alive, and the active count counts them |
| `TermMatchers.MatchSingleIn` | stream_query.go:2649-2829 | however a string is cut, the in-clause is matched exactly if the whole string is a listed value |
| `Patterns.MatchesLinear` | stream_query.go:5947-5957 | on patterns without a descent the linear matcher decides the path relation |
| `Patterns.SingleRecursiveSplit` | stream_query.go:5975-6001 | with one descent a path matches exactly if it starts with the left part and ends with the right part without overlap |
| `Patterns.MatchesSingleRecursive` | stream_query.go:5975-6001 | the single-descent matcher decides the path relation |
| `Patterns.MatchesFrom` | stream_query.go:6003-6038 | the memoised matcher decides the relation for every suffix pair, and every answer ever stored in the table is right |
| `Patterns.MatchesRecursiveMemo` | stream_query.go:5959-5973 | the memoised matcher decides the path relation for any number of descents |
| `Patterns.PatternRecursiveInfo` | stream_query.go:5860-5875 | the classification picks only matchers whose precondition the pattern meets |
| `Patterns.MatchesKnownRecursive` | stream_query.go:5850-5858 | whichever matcher is chosen, the path relation is decided |
| `Dispatch.TailFilterIsSound` | stream_query.go:5877-5919 | the tail filter never rejects a path its whole pattern accepts |
| `Dispatch.RecursiveKeyIsTail` | stream_query.go:5013-5027 | for a descent to one plain key the tail filter is the whole pattern |
| `Dispatch.FiledIsExact` | stream_query.go:4303-4327 | a slot of the index lists exactly the clauses filed under it, each once and in order |
| `Dispatch.DispatchIndex.Add` | stream_query.go:4303-4327 | adding a clause keeps all three tables exact for the extended clause list |
| `Dispatch.DispatchIndex.Candidates` | stream_query.go:4329-4346 | the two lists together are exactly the clauses whose tail filter accepts the path, none twice |
| `TreeEval.ValuesAtPath` | selector_eval.go:276-335 | the breadth-wise walk returns exactly the values one segment after another leads to, and reports failure exactly if there are none |
| `TreeEval.CollectDescendants` | selector_eval.go:337-368 | the explicit stack collects exactly the node and everything below it, nothing from a null, and terminates |
| `TreeEval.WalkIsSound` | selector_eval.go:276-335 | every value the walk returns sits at a path the compiled pattern accepts |
| `TreeEval.WalkIsComplete` | selector_eval.go:276-335 | every non-null value at an accepted path is returned |
| `TreeEval.ValuesAreMatchedNodes` | selector_eval.go:276-368 | the non-null values of a field are exactly the non-null nodes whose path the stream matcher accepts, for any pattern |
| `TreeEval.NullsAreReachedBelow` | selector_eval.go:276-368 | a field returns a null exactly if one sits at a path that ends properly below its trailing descent, or at an accepted path if it has none |
| `TreeEval.HitsAreMatches` | selector_eval.go:337-341 | those paths are accepted ones, and all of them unless the pattern ends in a descent |
| `TreeEval.DescentDropsNullStart` | selector_eval.go:337-341 | a document and a field for which the two differ: a descent that starts at a null drops it although its path is accepted |
| `Selectors.MatchClause` | selector_eval.go:75-274 | a clause holds exactly if some value its field reaches satisfies it |
| `Selectors.MatchSelector` | selector_eval.go:28-73 | the tree evaluator decides the selector's meaning, or-children taking precedence |
| `Selectors.SimplifySelectorNode` | selector_simplify.go:23-112 | the loops compute the simplification relation, stopping early only where it is decided |
| `Selectors.SimplifyNodeMeaning` | selector_simplify.go:23-112 | under every interpretation of the clauses a simplified node means what the original means with match-all clauses taken as true; True and False verdicts are valid and unsatisfiable in that sense |
| `Selectors.SimplifyMeaning` | selector_simplify.go:11-21 | the same for the whole selector, for every interpretation and with no side condition |
| `Selectors.SimplifyNodeIsStable` | selector_simplify.go:23-112 | a node that stays an expression is a fixed point of simplification |
| `Selectors.SimplifyIsIdempotent` | selector_simplify.go:11-21 | simplifying twice is simplifying once |
| `Selectors.MatchAllOnTree` | selector_simplify.go:114-134 | what simplification takes as true holds on a tree exactly if the field has a segment and reaches a value, one that reads as a string if the term has an explicit empty value |
| `Selectors.MatchAllDiffersFromTree` | selector_simplify.go:114-134 | documents on which it does not: no child, and no child that reads as a string |
| `Query.SimplifyKeepsAnswer` | selector_simplify.go:11-21 | simplification keeps the tree evaluator's answer wherever the match-all clauses hold on the tree |
| `Programs.ProgramMeaning` | stream_query.go:4397-4460 | the compiled program over the hit vector decides the selector with its clauses read off the hits |
| `Programs.FutureCovers` | stream_query.go:5751-5807 | whatever verdict any grown hit vector gives was forecast as possible |
| `Programs.NoLateMatch` | stream_query.go:5707-5721 | once no match is forecast, no later hit vector matches |
| `Programs.ForecastIsExact` | stream_query.go:5751-5807 | for a program whose ids exist and whose parts read different ones, a verdict is forecast exactly if some grown hit vector gives it |
| `Programs.ForecastIsNotExact` | stream_query.go:5751-5807 | a program that reads one hit twice: a contradiction is still forecast as possible |
| `StreamClauses.CompileTerm` | stream_query.go:4705-4789 | the compiled needle, prefix table or automaton decides the string term |
| `StreamClauses.CompileClause` | stream_query.go:4705-4947 | a clause compiles exactly if its field has segments, alternatives are only given to contains, and a range has a bound; the compiled form fits the clause |
| `StreamClauses.LeavesAgree` | stream_query.go:1637-1675 | value by value, a clause that compiles means the same in the stream and in the tree evaluator exactly on the values that are Alike for it, nulls included |
| `StreamClauses.StringTermsAgree` | selector_eval.go:122-161 | distinct needles, the single-needle shortcut and the automaton agree with trying every needle in turn exactly unless the text is empty and one of several needles is |
| `Query.DiffersExactlyWhereNotAlike` | stream_query.go:5455-5470 | whole path: for any single clause on a plain key, the streaming verdict on a document with that member is the tree evaluator's exactly if the member's value is Alike |
| `Query.NotAlike` | stream_query.go:5455-5470 | values that are not: an eq that only agrees when folded, an empty needle among several on an empty string, a numeric string within a range |
| `Query.NullCountsBesideOmitted` | stream_query.go:5034-5039 | beside a term without a value, exists counts a null in the stream and not in the tree |
| `Query.DroppedNullMatters` | selector_eval.go:337-341 | a term without a value sees the null at which its trailing descent starts, the tree evaluator does not |
| `Query.RepeatedKeyMatters` | stream_query.go:1797-1885 | with a repeated key the stream sees both members, the tree the last |
| `StreamClauses.MatchOneTerm` | stream_query.go:2297-2647 | the single-term path decides the term on the whole string, case folding included |
| `StreamClauses.MatchTermByBytes` | stream_query.go:2000-2248 | the byte-wise path for several pending terms gives the same verdict |
| `Engine.ClauseTable.Collect` | stream_query.go:4641-4703 | collection identifies every clause of the selector, adds nothing else, fails only if some clause does not compile, and from an empty table exactly then unless clauses share a key |
| `Engine.NewEngine` | stream_query.go:4372-4395 | the engine carries the simplified selector, its clauses, program, index and fast paths; unless clauses share a key it is refused exactly if some clause does not compile |
| `Engine.BuildFastTopLevel` | stream_query.go:4544-4602 | the per-field table lists exactly the clauses of each plain top-level key, and exists exactly if all clauses are of that kind |
| `Engine.Engine.Run` | stream_query.go:5723-5749 | early returns and all, the run decides the program on the current hits |
| `Engine.Engine.Forecast` | stream_query.go:5751-5784 | the loop computes the forecast of the current hits |
| `Engine.Engine.CanStillMatchObjectRoot` | stream_query.go:5707-5721 | a negative answer means that no match is forecast |
| `Engine.Engine.Candidates` | stream_query.go:5068-5122 | with or without the index, every clause whose pattern accepts the path is tried, none twice |
| `Engine.Engine.Observe` | stream_query.go:4992-5399 | after observing a node a clause is hit exactly if it was before or the node satisfies it, on every fast path and early exit |
| `Engine.Engine.ObserveFastEq` | stream_query.go:4996-5012 | the single-eq path leaves the hit the general observation would leave |
| `Engine.Engine.StringValueNeeded` | stream_query.go:5545-5695 | a string has to be read exactly if a pending clause at its path depends on its text |
| `Engine.Engine.CollectStringClauses` | stream_query.go:5401-5485 | the collected sets are exactly the pending clauses at the path, by what they need |
| `Engine.Engine.MatchStringClauses` | stream_query.go:2000-2248 | matching while reading turns on exactly the clauses the whole string satisfies |
| `Scan.ScanState.ScanValue` | stream_query.go:968-1087 | whatever scan is chosen, a clause is hit afterwards exactly if it was before or some node of the value satisfies it, the path is restored, and unless capture was switched off the payload has grown by the whole value |
| `Scan.ScanState.ScanMembers` | stream_query.go:1797-1901 | the same for the members of an object, in document order |
| `Scan.ScanState.ScanItems` | stream_query.go:1903-1957 | the same for the elements of an array |
| `Scan.ScanState.ScanString` | stream_query.go:994-1033 | a string that is copied unread leaves the same hits as one that is matched while it is read |
| `Scan.ScanState.ScanFastTopLevelEq` | stream_query.go:1187-1308 | comparing only the members under the key, and skipping the rest once matched, leaves the hits of scanning every node |
| `Scan.ScanState.FastEqValueMatches` | stream_query.go:1310-1389 | the buffered comparison and the streamed one give the eq term's verdict |
| `Scan.ScanState.ScanFastTopLevel` | stream_query.go:1089-1185 | observing only members with pending clauses of their key leaves the hits of scanning every node |
| `Scan.ScanState.FastObserveValue` | stream_query.go:1420-1594 | a member's value turns on exactly the clauses of its key that it satisfies |
| `Scan.SeenMember` | stream_query.go:1089-1185 | a plain top-level key sees a member by its key alone: nothing deeper can hit |
| `Scan.FastDiffersOnNulls` | stream_query.go:1542-1550 | exactly where a fast scan and the general scan can part: an exists clause over a member that is null |
| `Scan.ScanState.MaybeDisableCapture` | stream_query.go:820-828 | capture is switched off only when no later hit vector can match |
| `Scan.ScanState.ConsumeCandidate` | stream_query.go:663-796 | the decision is the program run on the hits of the whole document, and every value handed out, matched or unfiltered, has a payload that reads back as the whole candidate |
| `Query.SeenIsStreamClause` | stream_query.go:968-1087 | a clause is seen in a scan exactly if some node of the decoded tree at an accepted path satisfies it, for documents without repeated keys |
| `Query.ClausesAgree` | stream_query.go:4992-5399 | a clause is seen in the stream exactly if it holds on the tree, whenever every node it reaches is read alike |
| `Query.VerdictMeaning` | stream_query.go:5723-5749 | the decision is the selector evaluated on what was seen, when no two clauses share a term |
| `Query.StreamIsTree` | stream_query.go:4992-5399 | for every selector and every object document whose reached nodes are read alike the streaming decision is the tree evaluator's answer on the simplified selector |
| `Query.SimplifyOccurs` | selector_simplify.go:23-112 | simplification introduces no clause |
| `Query.SharedTermMisreads` | stream_query.go:4705-4725 | two clauses sharing one term cannot be told apart: for one selector and document no hit vector gives the tree's answer |
| `Run.Runner.Record` | stream_query.go:690-796 | counters, decisions with sizes and offsets, values and stop reason are those of the candidates seen, in the order size limit, callbacks and limits are checked |
| `Run.Runner.ConsumeTop` | stream_query.go:931-966 | through nested top-level arrays the candidates are seen in order, all of them unless there is a reason to stop |
| `Run.CandidatesSplit` | stream_query.go:931-966 | the candidates of a list are those of its front followed by those of its last value |
| `Run.DecisionIsTree` | stream_query.go:5697-5705 | a candidate's decision is the tree evaluator's; a non-object matches only an empty selector |
| `Run.QueryStream` | stream_query.go:200-335 | a run decides the shortest prefix of the stream's candidates at whose end there is a reason to stop, or all; counters, deliveries and reason are those of the prefix, every comparable decision is the tree evaluator's, no limit is passed and the reason is the first one met, every value handed out is its candidate's and its payload reads back as it, and the bytes read are the whole stream's or up to the last candidate's end |
| `Mutations.FinishedMeansHit` | mutate_stream.go:1758-1794 | a node carries a finished rule exactly if its path is one the mutation's pattern hits, a trailing descent hitting strict descendants only |
| `Mutations.TargetChanges` | mutate.go:575-795 | a target that no other target covers is set, removed or counted up, whatever the positions; a removed element leaves a null |
| `Mutations.OthersStay` | mutate.go:575-795 | what is no target and lies under none stays the scalar it was, an object, or an array as long, and nothing appears |
| `Mutations.CreateReaches` | mutate.go:477-559 | a literal set or increment puts its result at its path, through whatever was in the way, and fails exactly if it counts up what is there and no number |
| `Mutations.CreateKeeps` | mutate.go:516-559 | a path that parts from it by a key leads to what it led to, one that parts by an index leads nowhere |
| `Mutations.TwiceIsUnion` | mutate.go:719-738 | a mutation applied from two sets of positions in turn is the mutation applied from their union, if increments hit no node twice |
| `Mutations.MembersCommute` | mutate_stream.go:1233-1361 | on an object, mutating in program order is mutating member by member, created members and failures included |
| `Mutations.ItemsCommute` | mutate_stream.go:1409-1462 | on an array, mutating in program order is mutating element by element, removed elements staying as nulls |
| `Mutations.NonObjectIsReplaced` | mutate_stream.go:988-1012 | creating rules below a scalar, an array or nothing start from an empty object |
| `Mutations.ScalarIsLeft` | mutate_stream.go:988-1012 | wildcard rules leave a scalar alone unless it is a target |
| `Reference.DescentIsIndependent` | mutate.go:719-738 | with one descent its continuation and the descent itself never hit the same node |
| `Reference.MutateMembers` | mutate.go:582-651 | a loop over an object, in any order, does to every member what the mutation means for it |
| `Reference.ApplyAtPath` | mutate.go:575-689 | walking the rest of the path in place does what the mutation means from that position |
| `Reference.ApplyRecursive` | mutate.go:691-738 | continuation first and descent into the changed children afterwards are together the descent |
| `Reference.ApplyLiteral` | mutate.go:516-559 | navigating with creation and writing at the end puts the result through all objects on the way, or fails with the increment |
| `Reference.Document.ApplyMutation` | mutate.go:477-514 | one mutation on a document: a removed path is gone, a written one holds the outcome, its parents are objects still, and every other place is left alone; along wildcards the uncovered hits change and no other node; it fails exactly at a target that cannot be counted up |
| `Reference.Document.ApplyMutations` | mutate.go:462-475 | all mutations in list order; failure exactly if one of them fails |
| `Reference.MeaningIsSequential` | mutate.go:462-475 | the meaning of a program at the root is its mutations in list order |
| `ActiveRules.CreateUnder` | mutate_stream.go:1568-1639 | what creating mutations make from nothing stays below what they make from a document |
| `ActiveRules.MeaningUnder` | mutate_stream.go:1372-1380 | if a program fails on nothing it fails on every document |
| `ActiveRules.RemovedOrThere` | mutate_stream.go:1528-1566 | a node is still there exactly if its last target was not a removal |
| `MutateStream.AdvanceRules` | mutate_stream.go:1726-1756 | the rules of a child are exactly those one step leads to, in program order and within their paths |
| `MutateStream.MutateState.SimulateExistence` | mutate_stream.go:1528-1566 | the group-wise simulation says whether the node will still be there |
| `MutateStream.MutateState.BuildMissing` | mutate_stream.go:1568-1653 | the synthesised object is the rest of every rule's path applied to an empty document, each rule once, and a failure if it holds a number that JSON cannot express |
| `MutateStream.MutateState.MissingFor` | mutate_stream.go:1696-1724 | an answer from the cache is the answer that would be built |
| `MutateStream.SynthesisedIsMeaning` | mutate_stream.go:1568-1639 | for creating rules the synthesised object is their meaning on an empty object |
| `MutateStream.MutateState.EmitMissing` | mutate_stream.go:1464-1509 | what is written where nothing is kept is what the pending rules mean there |
| `MutateStream.MutateState.MissingMembersWanted` | mutate_stream.go:1372-1407 | each synthesised member is what the program wants of a missing member, and a failing synthesis is a failure of the whole object |
| `MutateStream.MutateState.MutateObject` | mutate_stream.go:1233-1361 | members that were there, in order, then those created: together what the program means for the object, and a failure exactly if that fails |
| `MutateStream.MutateState.MutateArray` | mutate_stream.go:1409-1462 | the same for an array |
| `MutateStream.MutateState.SettleDirect` | mutate_stream.go:766-850 | a target ends what is pending, after validating it, or counts up what came of it |
| `MutateStream.MutateState.ApplyPending` | mutate_stream.go:940-961 | the pending rules on any node state give their meaning on what the state stands for, and fail exactly where that fails or the text of a number out of range is needed |
| `MutateStream.MutateState.MutateValue` | mutate_stream.go:736-888 | one node settled rule by rule is the program's meaning on it, for literal and for wildcard programs |
| `MutateStream.MutateState.MutateCandidate` | mutate_stream.go:565-610 | one pass over an object gives the tree of mutating it by one mutation after another; it fails exactly if that fails or the run jams, which takes a sum out of range; anything else is left alone |
| `AhoCorasick.RunDecides` | stream_query.go:3616-3628 | the automaton run from its root reports a match at some step exactly if the text is not empty and contains a needle |
| `Query.SeenDecidesSelector` | selector_eval.go:28-73 | every selector says of what a scan sees what it says of the decoded tree, on documents neutral for its clauses |
| `Base64.EncodingReadsBack` | mutate_stream.go:1163-1207 | the encoding of a file determines the file |
| `Base64.EncodeAppend` | mutate_stream.go:1176-1184 | whole quanta can be encoded on their own |
| `Base64.TakeChunk` | mutate_stream.go:1174-1192 | a read turns the carried bytes and the new ones into whole quanta and fewer than three bytes carried on |
| `Base64.EmitBase64` | mutate_stream.go:1163-1207 | however the reader cuts a file, the base64 of the whole file comes out in quotes, with no index of the buffer out of range |
| `Spool.CandidateSpool.Write` | stream_spool.go:124-160 | after a write the spool holds exactly what was written for the candidate, in memory up to the threshold and in the file beyond it |
| `Spool.CandidateSpool.SpillToDisk` | stream_spool.go:198-252 | spilling moves what memory holds to the front of the file and leaves nothing of an earlier candidate |
| `Spool.CandidateSpool.WriteBuffered` | stream_spool.go:142-160 | through the buffered writer the file and its buffer together hold what was written |
| `Spool.CandidateSpool.ResetForCandidate` | stream_spool.go:94-122 | whatever the last candidate left, the spool starts the next one empty |
| `Spool.CandidateSpool.Open` | stream_spool.go:297-319 | the readable payload is what was written |
| `Spool.SpoolAll` | stream_spool.go:59-386 | over any sequence of candidates each payload is the concatenation of its own writes, spilled exactly if it exceeds the threshold, the spilled bytes are the total or nothing, and memory holds the rest, never more than the threshold |
| `Projection.AssignmentsCommute` | project_fields.go:986-1043 | two assignments to paths that are apart give the same output in either order, or clash in either order |
| `Projection.OrderIsIrrelevant` | project_fields.go:986-1043 | any two orders of the same assignments give the same output or the same failure |
| `Projection.InsertPath` | project_fields.go:285-312 | a path is added to the trie exactly if it neither extends nor is extended by one the trie has |
| `Projection.Finalize` | project_fields.go:322-343 | the index tables find every child that stands for an array index, and completion fails only where two siblings stand for one |
| `Projection.BuildTrie` | project_fields.go:281-320 | the trie has exactly the given paths, and is refused exactly if one is the root, one lies on another, or two meet at one array index |
| `Projection.PathsAreApart` | project_fields.go:281-343 | different paths of a finished trie lead to different places of any output |
| `Projection.FoundResolves` | project_fields.go:506-626 | a scan guided by the trie finds exactly the paths that resolve in the document, with their values |
| `Projection.FoundOnce` | project_fields.go:506-626 | it finds each path once |
| `Projection.Projector.ProjectValue` | project_fields.go:506-535 | the scan makes the assignments of what it finds, in document order, or fails with one of them |
| `Projection.ProjectFields` | project_fields.go:140-234 | a leaf is in the output exactly where a selected path leads that resolves in the document, with the value it resolves to, every other node is on the way to one, and no array ends in a hole; failure exactly for no paths, conflicting ones, a root that is no object, or resolving paths that clash |
| `Projection.AssignedIfAllFit` | project_fields.go:986-1043 | assignments to places apart succeed exactly if each path fits at the start and no two part at an index and a key |
| `Projection.SelectionClashes` | project_fields.go:986-1043 | what resolves can be assigned exactly unless a path starts with an array index, has one too large, or two part at an index and a key |
| `Utf8.DecodingReadsBack` | stream_query.go:3847-3867 | decoding reads back the scalar value that was encoded, whatever bytes follow |
| `JsonText.CharKeepsEnd` | stream_query.go:3138-3185 | a whole character, a surrogate pair or a UTF-8 sequence included, never takes in the end of the string |
| `JsonText.DecodingEndsAlike` | stream_query.go:3068-3136 | decoding a string, running over it and copying it raw accept the same bytes and stop at the same one |
| `JsonText.EscapedReadsBack` | stream_query.go:3948-3987 | what is escaped as a JSON string is decoded to the same scalar values |
| `JsonSyntax.ParseSound` | stream_query.go:3324-3422 | what the scanners accept is a well-formed value, spelled by exactly the bytes they consume |
| `JsonSyntax.ParseComplete` | stream_query.go:3324-3422 | every spelling of a well-formed value, whitespace anywhere the grammar allows it, is accepted whole and as that value |
| `JsonGrammar.WordsAreGenerated` | stream_query.go:3630-3769 | a word is scanned whole exactly if it is true, false, null, or a number made of minus, int, frac and exp as section 6 of RFC 8259 has them |
| `JsonGrammar.BodiesAreGenerated` | stream_query.go:3433-3500 | a string body is scanned whole exactly if it is a list of unescaped bytes, short escapes and Unicode escapes as section 7 has them |
| `JsonGrammar.AcceptedIffGenerated` | stream_query.go:3324-3422 | a value is read from one position to another exactly if the grammar generates it and its spelling stands between them |
| `Compaction.CompactMeansTheSame` | mutate_stream.go:1838-1984 | dropping whitespace and spelling keys anew keeps the tree a value denotes |
| `Compaction.CompactTwice` | mutate_stream.go:1838-1984 | compacting twice is compacting once |
| `Compaction.CompactTextIsFixed` | mutate_stream.go:1838-1984 | the compact text of any accepted value is accepted whole, denotes the same tree and is its own compact text, with keys kept or spelled anew |
| `Scanners.AppendJsonString` | stream_query.go:3948-3987 | any bytes come out as the escaped form of the scalar values they decode to, through the fast path too |
| `Scanners.Scanner.ReadUnicodeEscape` | stream_query.go:3771-3801 | an escape stands for its scalar value, a surrogate pair for one, and a lone surrogate for U+FFFD |
| `Scanners.Scanner.ReadString` | mutate_stream.go:1998-2066 | however the input arrives, a string is read exactly if well formed, as the UTF-8 of what it denotes |
| `Scanners.Scanner.CopyRawString` | stream_query.go:3433-3500 | a string is copied byte for byte exactly if well formed |
| `Scanners.Scanner.SkipString` | stream_query.go:3138-3185 | and skipped exactly if well formed, to the same byte |
| `Scanners.Scanner.ReadNumber` | stream_query.go:3630-3769 | a number is read exactly where NumberEnd finds one, which JsonGrammar.WordsAreGenerated ties to the grammar, to its end and no further |
| `Scanners.Scanner.CopyValue` | mutate_stream.go:1838-1984 | on every input the copier accepts exactly the well-formed values, consumes their extent and writes their compact text |
| `Scanners.Scanner.SkipValue` | stream_query.go:3324-3422 | the skipper accepts exactly the same inputs and stops at the same byte |
| `FastScans.TopLevelScanner.ScanObjectFastTopLevelEq` | stream_query.go:1187-1308 | the single-eq scan, early skip included, consumes exactly the object the general skipper consumes, fails exactly when it does, and matches exactly if some member reads as the key and is accepted |
| `FastScans.TopLevelScanner.ScanObjectFastTopLevel` | stream_query.go:1089-1185 | so does the per-field scan, and every clause is hit exactly if it was or some member under its key is accepted |
| `FastScans.TopLevelScanner.SkipObjectFromNext` | stream_query.go:1743-1781 | the early skip ends where the rest of the object ends |
| `FastScans.TopLevelScanner.ReadBufferedUnescapedString` | stream_query.go:1709-1741 | the quick read takes a whole string without escapes or consumes nothing |
| `Overflow.MemberOverflows` | mutate_stream.go:736-888 | a member in which a sum leaves the finite range makes the object one, unless the object fails anyway |
| `Overflow.JamsOverflow` | mutate_stream.go:736-961 | where the pass needs the text of a number out of range, a sum has left the range in the mutations in turn or in what they create from nothing, or the node fails in any form |
| `MutateStream.MutateState.JamsAtEnd` | mutate_stream.go:736-888 | of the stretches between targets, the pass is stopped at a node exactly by one it has gone through or by the last one |
| `Overflow.RootOverflows` | mutate_stream.go:1568-1639 | at the root the condition is that some tree of the sequential run, from the document or for creating mutations from an empty one, holds a number out of range |
| `Overflow.SumReplaced` | mutate_stream.go:940-961 | a sum out of range that a later mutation replaces: the sequential form succeeds with a finite tree, and the run jams, so the pass fails |
| `Overflow.TwiceFromNothing` | mutate_stream.go:1655-1683 | counting up twice from nothing, where that leaves the range: the sequential form holds the sum, and the run jams |
| `Overflow.FromNothingAlthoughThere` | mutate_stream.go:1568-1639 | synthesis counts up from nothing members that are there: a run whose sums all stay finite jams |
| `Run.DecisionsLineUp` | stream_query.go:663-760 | the decisions are those of the candidates in order, but for a last one over the size limit |
| `Run.Runner.ReachEnd` | stream_query.go:319-326 | at the end of the input the counters give the whole stream, closing brackets and trailing space included |
| `Reference.RemovalRemoves` | mutate.go:506-559 | a removed path leads nowhere afterwards, and nothing changes exactly if it led nowhere before |
| `Reference.RemovalKeeps` | mutate.go:506-559 | a removal leaves every path that parts from its own leading to what it led to |
| `Reference.RemovalPasses` | mutate.go:506-559 | on the way to it every node stays what it was, an object an object |
| `Reference.LiteralEffect` | mutate.go:477-559 | a set, increment or removal along a literal path in terms of all places of the document, failures included |
| `Reference.WildcardEffect` | mutate.go:477-504 | the same along a wildcard path, by the paths its pattern hits |
| `Mutations.CreateOpens` | mutate.go:516-559 | every step on the way of a literal set or increment leads to an object afterwards |
| `Mutations.FailsExactlyAtTargets` | mutate.go:575-795 | a wildcard mutation fails exactly if a target that no other covers is there and cannot be counted up |
| `Mutations.FiniteEverywhere` | mutate_stream.go:1670-1690 | a tree can be marshalled exactly if no number at any path has left the finite range |
| `Json.LastValueCounts` | selector_eval.go:14-26 | of a repeated key the decoded tree holds the last value |
| `Run.LimitsHold` | stream_query.go:863-877 | a run never goes past a positive limit, reaches none before its last candidate, and names the first it meets of size, callback, matches, candidates and bytes |
| `Run.ValuesLineUp` | stream_query.go:690-796 | each candidate handed out has its own value, in order, with a payload that reads back as the candidate |
| `Payload.RenderReadsBack` | stream_query.go:968-1087 | reading a captured payload gives the value it was captured from, members and elements in order and repeated keys included, whatever follows |
| `Payload.WholeDecodes` | stream_query.go:968-1087 | what is read back denotes the same tree |
| `Projection.AssignEffect` | project_fields.go:986-1043 | one assignment puts its value at its place as a leaf, opens containers on the way and leaves every other place alone |
| `Projection.AllAssigned` | project_fields.go:986-1043 | after assignments to places apart every value is at its place |
| `Projection.LeavesAreAssigned` | project_fields.go:986-1043 | the leaves of the output are exactly the assigned values at their places |
| `Projection.AssignLeavesNoHoles` | project_fields.go:986-1043 | arrays grow no further than the element assigned |
| `Projection.IndexTokenReadsDecimals` | project_fields.go:1045-1060 | in the output a token is an index exactly if it writes a 64-bit number in digits, leading zeros allowed and signs not |
| `Projection.ServedIndexReadsDecimals` | project_fields.go:333-336 | in the document a token serves an element exactly if it writes its index, signs allowed, up to the largest index |
| `Patterns.AtoiReadsDecimals` | selector_eval.go:321-324 | a segment reads as a number exactly if it writes a 64-bit integer with an optional sign and leading zeros |
| `TreeEval.StepByIndex` | selector_eval.go:321-330 | in an array a plain segment reaches exactly the element whose index it writes |
| `ClauseMeaning.RangesPartNumbers` | temporal.go:322-336 | a number is above a bound exactly if it is not at most it, at least it exactly if not below, and at least and at most it exactly if equal, on trees and in streams |
| `ClauseMeaning.RangesAreRays` | temporal.go:322-336 | a larger number stays above what a smaller one is above |
| `ClauseMeaning.BoundsJoin` | selector_eval.go:164-190 | several bounds hold exactly if each alone does, and of nothing that is no number |
| `ClauseMeaning.TextOfValue` | selector_eval.go:370-410 | a string reads as its text, a number as its literal, a boolean as its word, and nothing else as text |
| `ClauseMeaning.ClausesOnValues` | selector_eval.go:75-162 | eq, contains, prefix, in and exists on one value by concatenation of texts, letter case aside where asked for |
| `ClauseMeaning.FastEqIsEq` | stream_query.go:1310-1389 | the byte-level single-eq scan accepts a spelled value exactly if the eq clause holds of what it denotes |
| `ClauseMeaning.DroppedClausesHold` | selector_simplify.go:114-134 | a clause that simplification drops holds on every object with a string member unless its field is the root |
| `ClauseMeaning.OnlyThoseAreDropped` | selector_simplify.go:114-134 | an empty term over one segment is dropped exactly if it holds on every object with a string member |
| `StreamClauses.BytewiseFoldingIsClean` | stream_query.go:2436-2462 | case folding that works byte by byte is the same however a string is cut |
| `Base64.AlphabetIsStandard` | mutate_stream.go:1163-1207 | the symbols are the standard alphabet and the fill is the equals sign |
| `Base64.ShortVectorsOfTheStandard` | mutate_stream.go:1163-1207 | the encoder gives the test vectors of the standard of at most three bytes |
| `Base64.LongVectorsOfTheStandard` | mutate_stream.go:1163-1207 | and those of four to six bytes |
| `Utf8.WidthsOfUtf8` | stream_query.go:3847-3867 | scalar values of every width are encoded as the standard spells them |
| `JsonAlphabet.HexDigitsCount` | stream_query.go:2880-2902 | hexadecimal digits in either case stand for their values |
| `JsonAlphabet.ShortEscapesAreStandard` | stream_query.go:3095-3110 | the two-character escapes are those of the standard and stand for its characters |
| `JsonAlphabet.EscapedUnitReadsBack` | stream_query.go:3771-3780 | every scalar value below 2^16 is read from its escape |
| `JsonAlphabet.SurrogatePairReadsBack` | stream_query.go:3780-3800 | every other scalar value is read from its two surrogates, escaped one after the other |
| `JsonAlphabet.LoneSurrogateIsReplaced` | stream_query.go:3777-3803 | a surrogate that starts no pair is read as U+FFFD and takes six bytes |
| `Compaction.CompactDropsPadding` | mutate_stream.go:1838-1984 | compaction leaves no whitespace between tokens and, with keys as spelled, drops nothing else |
| `Compaction.UnpaddedStays` | mutate_stream.go:1838-1984 | a text without such whitespace, and with its keys spelled by the encoder if keys are respelled, is its own compact form |
| `Run.MatchesAreDecisions` | stream_query.go:690-796 | as many candidates are counted as matched as decisions say so |
| `Run.NoOtherValues` | stream_query.go:690-796 | as many values are handed out as candidates that are not too large, not stopped by the decision callback, and matched or unfiltered |
| `Run.GroupingIsFlattened` | stream_query.go:931-966 | grouping candidates in arrays neither drops, adds nor reorders any |
| `Projection.ResolveIsWalk` | project_fields.go:506-626 | a path resolves to a value exactly if it names, token by token, the keys and written indices of a path that leads to it |
| `Patterns.WildcardsMean` | stream_query.go:5809-5848 | the four wildcards reach any member, any element, any child, and the node with all its descendants |
| `Patterns.NamesMean` | stream_query.go:5809-5848 | any other segment reaches the member it is the key of and the element whose index it writes |
| `Utf8.StartsExactly` | stream_query.go:3847-3867 | a text starts with a scalar value exactly if it starts with the bytes of one, and is read as U+FFFD otherwise |
| `Scanners.RunesRead` | stream_query.go:3948-3987 | scalar values are read one after another, every byte that starts none as one U+FFFD |

## Left out

Environment and representation:

- Readers, buffers, temporary files, pools, contexts, the CLI, the expression parsers, the
  plan cache, error wrappers and the adaptive hint.
- Failures of the spool's file operations, and of reads in the base64 loop.
- The observing scan, the mutation rewriter and projection take a document as a `Doc`, its
  members in order and its strings in the segments the reader cuts them into; bytes, escapes
  and malformed input are the matter of `Scanners` alone, and the two are not joined.
- Scanners.Scanner.CopyValue: says nothing of what a malformed value leaves in the output; the
  two engines' copiers run as one, told by a flag whether keys are spelled anew.
- Temporal and date clauses, and eq over temporal literals.
- Case folding and float parsing are uninterpreted functions of an `Env`; folding is assumed
  not to look across the cuts of a string (`CleanCuts`). Range bounds and parsed numbers are
  reals. Mutation arithmetic is uninterpreted over 64-bit floats, with the one assumption
  that printing and parsing are inverse, infinities included (`Prints`).
- Splitting a field into segments: a field is given with its segments.
- Term, range and in objects are identified by an address, as the engine keys its tables by
  pointer.
- File-backed mutation values other than the base64 loop, projection's output writer, and the
  mutation engine's run loop with its candidate size limit.

Form:

- The engine keeps one clause list and one dispatch index where the source keeps one per
  kind of clause; a selector node holds a list of clauses where the source holds at most one
  per kind and a list of exists fields. Loops over kinds run as one loop over clauses.
- Several string matchers over one string run one after another instead of interleaved.
- The fast eq paths refer to the single clause instead of copying its fields.
- The spool's single-byte write runs as a write of one byte; its memory is a sequence with a capacity.
- Documents under in-place mutation, and projection's output, are values that the methods hand back; only the root is a
  field. Aliasing between Go maps is not captured.
- The order in which objects list synthesised members: they come in some order, not sorted.
- Set payloads are scalars. Text of numbers: one formatting function stands for the three
  the source uses.
- MutateStream.MutateState.MutateCandidate: programs outside the two families are excluded because the two
  forms differ there: a removal followed by a set or increment of the same node, a creation
  followed by a removal that empties a synthesised object, literal creations mixed with
  wildcards, literal removals, object-valued sets.
- Reference.ApplyAtPath: increments with more than one descent are excluded, because the
  in-place walk increments a node once for every way to reach it.
- Query.StreamIsTree: selectors with shared terms (`OwnKeys`) and documents with repeated keys
  (`UniqueKeys`) are excluded, and nodes that a clause reaches and the two evaluators read
  differently (`AllNeutral`). `Query.SharedTermMisreads`, `RepeatedKeyMatters`,
  `DiffersExactlyWhereNotAlike`, `NullCountsBesideOmitted` and `DroppedNullMatters` show that
  each premise is needed.
- Run.QueryStream: a top-level array is given as a grouping of candidates, and a candidate
  with the reader offset at which it starts and its size.
- StreamClauses.CompileClause: temporal ranges and date clauses are not compiled.
- Scan.ScanState.ScanValue: works on documents, so it says nothing of bytes; that the two
  top-level fast scans consume what the general skipper consumes is said in FastScans.
- Scan.ScanState.ScanFastTopLevelEq: the same; FastScans says of bytes what is matched, for
  input whose strings are valid UTF-8 (`Legible`).
- Scan.ScanState.ScanFastTopLevel: the same; FastScans says of bytes which clauses are hit, each
  given as what it accepts of a value as read.
- FastScans.TopLevelScanner.ScanObjectFastTopLevelEq: says nothing of the payload written.
- FastScans.TopLevelScanner.ScanObjectFastTopLevel: the same.
- MutateStream.MutateState.MutateValue: the two program families only.
- Scanners.Scanner.ReadNumber: stated by NumberEnd, which JsonGrammar ties to the grammar.
