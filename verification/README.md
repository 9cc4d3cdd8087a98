# Verified models of INET's self-contained algorithms

A Dafny 4.11 project that models seven algorithmic components of the INET repository and proves what they
promise. `dafny verify dfyconfig.toml` checks everything.

| component | files | main results |
|---|---|---|
| interval tree | `IntervalShape`, `IntervalHeap`, `IntervalBalance`, `IntervalRemoval`, `IntervalSplice`, `IntervalQuery`, `IntervalTree`, `IntervalHistory` | every history of insertions and deletions keeps a red-black search tree with right maxima on the linked nodes; the pruned stack query equals a linear scan |
| shared | `Arithmetic`, `Options`, `Sequences`, `Texts` | products and quotients of integers in small steps; a value or none; sequences and C strings |
| response-time analysis | `AnalysisMath`, `Traffic`, `Interference`, `Overload`, `ResponseTime`, `Fragments` | the interference counts the releases in a window of time; the Class A iteration ends with the least fixed point when the ST load is below 1, and for any load whether it ends is decided within one hyperperiod; jitter along a route; hyperperiods and instances |
| Macho state machine | `MachoStates`, `MachoRuns`, `Macho` | entered states are the chain of the current one in every run; exits, entries, boxes, shallow and deep history |
| Int128 | `WordBits`, `Words128`, `Int128Text`, `Int128` | multiplication modulo 2^128, division, printing and parsing on two 64-bit words |
| PatternMatcher | `PatternLanguage`, `PatternSyntax`, `PatternMeaning`, `PatternSubstring`, `PatternMatcher` | the matcher decides a declarative language; what every special form of a pattern text means; the tokenizer terminates, and which patterns it overreads; substring mode |
| InitStageRegistry | `StageGraph`, `InitStageRegistry` | numbering fails exactly on cycles, else is a respected bijection |
| bit containers | `StreamBits`, `Streams`, `StreamItems`, `BitSequences`, `BitVectors` | streams undo each other; the short vector refines the long one |

## How the models are built

**Interval tree.** `IntervalTree` is a class over linked `Node` objects with the source's five fields, the two
sentinels and the hand-made query stack. A ghost map mirrors every pointer write; pure lemmas on that map
(`IntervalHeap`) say which tree, seen from which place in it, the pointers form, and pure lemmas on trees
(`IntervalBalance`, `IntervalRemoval`) carry the red-black argument. The top node that `deleteFixup` caches
can be rotated below another node; `CachedTopIsBlack` shows that the final assignment is right all the same.
Time stands for simulation time and is an integer. `VisitSound` holds for every tree and `VisitOnce` for every tree without repeated nodes;
`VisitComplete` and `VisitIsScan` need a query time above the least one, and `LeastTimeMisses` shows why.

**Response-time analysis.** A message record of the source is split into what the analysis reads (`Msg`) and
what it computes (`Outcome`). `floor` and `ceil` of quotients are exact, `time_type` is unbounded, idle slopes
are positive reals. The instance table of the critical message is read, as in the source, at the hop index
that was found in the other message's route. `FixedPoint` takes any time that one more turn does not exceed
as its bound. Such a time exists exactly if a fixed point does (`SettlesIffFixedPoint`); `HorizonSettles` supplies
one for loads below 1, `OverloadDiverges` says when there is none, and `EndsExactly` decides every case.

**Macho.** A state value carries its superstates. `Machine` holds the histories, boxes and cached box memory
that the source keeps in one instance per state. User init actions are arbitrary choices of a proper
substate (or none), which is what the source asserts; event handlers follow an arbitrary finite script.
`MachoRuns` gives the abstract machine, a monitor for sequences of entry, exit, init and box actions, and
the properties of all runs; every method of `Machine` is tied to it.

**Int128.** Objects with the two words, changed in place, so operands may be the object itself. Bitwise
operators are recursive functions on numbers. Conversions that C leaves to the implementation (signed
overflow, left shifts of negative words) wrap.

**PatternMatcher.** The language of an element list is defined by splitting the line; a number range takes
the maximal run of digits. Patterns and lines are texts without null characters, compared by character code.
Reading past the end of the pattern is an explicit outcome; `OverreadExact` says which patterns have it.
`PatternMeaning` writes patterns from texts, wildcards, sets and ranges and shows that they are cut into exactly
these; so it states what every form describes without the tokenizer.

**Streams and bit vectors.** `bits` is the sequence written so far; the unused bits of the last byte stay zero.
`WriteByte` keeps the source's computation at every bit offset and says exactly when it is right.

Where the code does not do what its documentation or its name promises, the model follows the code, and a
theorem says exactly when the promise holds. A backslash takes away the meaning of a special character unless
it is a bracket that opens a number range (`EscapedSpecialTokens`, `EscapedSpecialMatches`). `Int128::set` reads
a text right unless its digits are followed by the letter that stands for the radix (`ParsedExact`). Comparing
short vectors errs exactly for vectors that differ in trailing zeros only (`ShortBitVector.Equals`). A circle
among the initialization stages is reported once, since the attempt leaves the numbers counting as assigned
(`AskAfterCircle`).

## Model

| member | source | states |
|---|---|---|
| IntervalTrees.IntervalTree.constructor | inet/src/inet/common/IntervalTree.cc:58-77 | an empty tree: the representation invariant holds with no node but the two sentinels, and the query stack holds only its sentinel entry |
| IntervalTrees.IntervalTree.LeftRotate | inet/src/inet/common/IntervalTree.cc:110-132 | exactly the pointer writes of a left rotation and the two recomputed maxima, and no other change of any node; RotateAt, RotatedInorder and RotatedMax say what that means for the tree |
| IntervalTrees.IntervalTree.RightRotate | inet/src/inet/common/IntervalTree.cc:134-155 | the same writes on the other side |
| IntervalHeap.RotateAt | inet/src/inet/common/IntervalTree.cc:110-155 | the pointer assignments of a rotation, including the writes to the parent and to the moved middle child, turn the heap of a tree into the heap of the rotated tree |
| IntervalHeap.RotatedInorder | inet/src/inet/common/IntervalTree.cc:110-155 | a rotation keeps the node sequence |
| IntervalHeap.RotatedMax | inet/src/inet/common/IntervalTree.cc:110-155 | refreshing only the two rotated nodes keeps every maximum right |
| IntervalTrees.IntervalTree.FixupMaxHigh | inet/src/inet/common/IntervalTree.cc:180-186 | recomputing from a node up to the sentinel makes every maximum on the way right and changes nothing else |
| IntervalShape.MaxHighIsMaximum | inet/src/inet/common/IntervalTree.cc:180-186 | a right max_high is at least the high end of every interval below, and is one of them or nil's |
| IntervalTrees.IntervalTree.RecursiveInsert | inet/src/inet/common/IntervalTree.cc:157-178 | the new node ends at the leaf position where a plain binary search tree puts it, after all equal keys |
| IntervalShape.InsertSortedOrdered | inet/src/inet/common/IntervalTree.cc:157-178 | inserting into an ordered sequence after equal keys keeps it ordered |
| IntervalShape.InsertSortedContents | inet/src/inet/common/IntervalTree.cc:157-178 | the new sequence holds the old nodes and the new one, each as often |
| IntervalBalance.RecolouredOk | inet/src/inet/common/IntervalTree.cc:203-208 | red uncle: recolouring moves the red-red violation two levels up and keeps black heights |
| IntervalBalance.InnerOk | inet/src/inet/common/IntervalTree.cc:210-213 | inner grandchild: the first rotation turns it into an outer one, violation still confined |
| IntervalBalance.OuterOk | inet/src/inet/common/IntervalTree.cc:214-216 | outer grandchild: recolouring and rotating the grandparent ends the violation, so the loop ends |
| IntervalTrees.IntervalTree.InsertFixup | inet/src/inet/common/IntervalTree.cc:199-237 | the loop of insert ends with no red-red edge but possibly a red top, from any red leaf hung into a red-black tree |
| IntervalBalance.InsertionResult | inet/src/inet/common/IntervalTree.cc:188-240 | the finished tree is red-black with a black top and right maxima |
| IntervalBalance.InsertedContents | inet/src/inet/common/IntervalTree.cc:188-240 | its node sequence is the old one with the new node inserted after equal keys |
| IntervalTrees.IntervalTree.Insert | inet/src/inet/common/IntervalTree.cc:188-240 | from any valid tree to a valid tree whose node sequence is the old one with exactly one fresh node for the interval inserted in key order, equal keys included |
| IntervalTrees.IntervalTree.GetMinimum | inet/src/inet/common/IntervalTree.cc:242-247 | the leftmost node of a subtree, with nothing before it |
| IntervalTrees.IntervalTree.GetSuccessor | inet/src/inet/common/IntervalTree.cc:256-270 | the least node of the right subtree, or the nearest ancestor reached from the left, or the root sentinel |
| IntervalRemoval.RedSiblingOk | inet/src/inet/common/IntervalTree.cc:332-337 | red sibling: after the rotation the sibling is black, one side still lacks one black node, colours otherwise right |
| IntervalRemoval.BlackNephewsOk | inet/src/inet/common/IntervalTree.cc:338-341 | black nephews: painting the sibling red moves the missing black one level up |
| IntervalRemoval.NearNephewOk | inet/src/inet/common/IntervalTree.cc:343-348 | near red nephew: the rotation makes the far nephew red |
| IntervalRemoval.FarNephewOk | inet/src/inet/common/IntervalTree.cc:349-353 | far red nephew: the last rotation restores all black heights |
| IntervalRemoval.CachedTopIsBlack | inet/src/inet/common/IntervalTree.cc:327-383 | the top node cached before the loop may have been rotated down, but then it is black already when the final assignment paints x: no node is recoloured wrongly |
| IntervalRemoval.FixupEnd | inet/src/inet/common/IntervalTree.cc:382-383 | clearing the red bits after the loop leaves a red-black tree with a black top, whether the loop ended by balance or at the cached top |
| IntervalTrees.IntervalTree.BlackSiblingLeft | inet/src/inet/common/IntervalTree.cc:330-337 | first half of a turn when x is a left child, on the pointers |
| IntervalTrees.IntervalTree.BlackSiblingRight | inet/src/inet/common/IntervalTree.cc:356-363 | its mirror image |
| IntervalTrees.IntervalTree.NephewsLeft | inet/src/inet/common/IntervalTree.cc:338-354 | second half of a turn when x is a left child; the state after it is again a loop state, or the finished one |
| IntervalTrees.IntervalTree.NephewsRight | inet/src/inet/common/IntervalTree.cc:364-380 | its mirror image |
| IntervalTrees.IntervalTree.DeleteFixup | inet/src/inet/common/IntervalTree.cc:324-384 | terminates and rebuilds a red-black tree with a black top and right maxima with the same node sequence, from any tree that lacks one black node at x |
| IntervalSplice.SpliceAt | inet/src/inet/common/IntervalTree.cc:416-428 | splicing a node out on the pointers, with the temporary write to nil's parent, gives the heap of the tree without it |
| IntervalSplice.SubstAt | inet/src/inet/common/IntervalTree.cc:432-441 | letting the successor take over the links of the deleted node gives the heap of the tree with the two exchanged |
| IntervalSplice.TakePlaceAt | inet/src/inet/common/IntervalTree.cc:432-441 | both steps together when the successor lies deeper in the right subtree |
| IntervalSplice.TakenOutSelf | inet/src/inet/common/IntervalTree.cc:452-457 | without its only child's parent, exactly the black height at one place is short by one, and only if the node was black |
| IntervalSplice.TakenOutSuccessor | inet/src/inet/common/IntervalTree.cc:432-451 | the same when the successor is spliced out and takes the place and the colour of the deleted node |
| IntervalSplice.RemovedContents | inet/src/inet/common/IntervalTree.cc:410-460 | the node sequence left is the old one without exactly the deleted node, still ordered |
| IntervalTrees.IntervalTree.DeleteNode | inet/src/inet/common/IntervalTree.cc:410-460 | from any valid tree and any of its nodes to a valid tree whose node sequence lacks exactly that node; returns its interval |
| IntervalSplice.FirstHoldingMeaning | inet/src/inet/common/IntervalTree.cc:393-408 | the search result is a node that holds the interval, or nil exactly when none does |
| IntervalTrees.IntervalTree.RecursiveSearch | inet/src/inet/common/IntervalTree.cc:393-408 | finds the first node in preorder that holds the interval |
| IntervalTrees.IntervalTree.DeleteInterval | inet/src/inet/common/IntervalTree.cc:386-391 | removes exactly one node that holds the interval, or changes nothing when none does |
| IntervalShape.HeightIsLogarithmic | inet/src/inet/common/IntervalTree.cc:324-384 | the height of a red-black tree with a black top is at most twice the binary logarithm of its size plus one |
| IntervalQuery.OverlapMeaning | inet/src/inet/common/IntervalTree.cc:463-471 | for proper intervals the test means that the closed intervals share a point |
| IntervalQuery.PrunedRight | inet/src/inet/common/IntervalTree.cc:484-510 | when the left branch promised a hit and gave none, no node to the right can be hit |
| IntervalQuery.VisitSound | inet/src/inet/common/IntervalTree.cc:473-514 | every reported node is stored and hit, for every tree and query |
| IntervalQuery.VisitOnce | inet/src/inet/common/IntervalTree.cc:473-514 | no node is reported twice |
| IntervalQuery.VisitComplete | inet/src/inet/common/IntervalTree.cc:473-514 | every stored node that is hit and does not end before the query is reported, for every query time above the least one |
| IntervalQuery.VisitIsScan | inet/src/inet/common/IntervalTree.cc:473-514 | for proper intervals the pruned traversal reports the same multiset as a linear scan with the overlap test |
| IntervalQuery.LeastTimeMisses | inet/src/inet/common/IntervalTree.cc:473-514 | at low == -getMaxTime() the traversal misses an overlapping interval: the bound on low is needed |
| IntervalTrees.IntervalTree.VisitNode | inet/src/inet/common/IntervalTree.cc:482-501 | one turn of the query loop on the hand-made stack: what is reported now and later together stays the traversal's result |
| IntervalTrees.IntervalTree.Backtrack | inet/src/inet/common/IntervalTree.cc:503-511 | the pop loop skips exactly the right branches whose flag is not set, and what remains to be reported does not change |
| IntervalTrees.IntervalTree.Query | inet/src/inet/common/IntervalTree.cc:473-514 | terminates on every valid tree, leaves it and its stack as found, returns the stored intervals of the recursive traversal in its order, and grows the stack at most to twice the height of the tree |
| IntervalHistory.VisitAnswers | inet/src/inet/common/IntervalTree.cc:473-514 | the traversal of a tree answers the query for the bag of all stored intervals: each overlapping one as often as it is stored, nothing else |
| IntervalHistory.RemovedBag | inet/src/inet/common/IntervalTree.cc:386-391 | deleting an interval takes one occurrence out of the bag, or nothing when it is absent |
| IntervalHistory.Replay | inet/tests/unit/lib/IntervalTreeTest.cc:5-82 | after every history of insertions and deletions from an empty tree the tree is valid and holds the bag the history describes |
| IntervalHistory.ReplayAndQuery | inet/src/inet/common/IntervalTree.cc:473-514 | after every history of proper intervals a query answers as a linear scan over that bag would |
| AnalysisMath.FactorCounts | inet/examples/hitachi_test/Analysis/analysis.c:836-837 | floor(phase/P) + ceil((t-phase)/P) with C's truncated remainder counts the releases before t at the Euclidean phase, negative offset differences included |
| AnalysisMath.ReleasesIsCeil | inet/examples/hitachi_test/Analysis/analysis.c:836-837 | counting periodic releases one by one is rounding up |
| AnalysisMath.EuclideanPhase | inet/examples/hitachi_test/Analysis/analysis.c:836 | the truncated remainder is the Euclidean one, or one period below it exactly when negative |
| AnalysisMath.ReleasesMonotone | inet/examples/hitachi_test/Analysis/analysis.c:837 | the number of releases grows with time |
| AnalysisMath.ReleasesBound | inet/examples/hitachi_test/Analysis/analysis.c:837 | n releases at period P need at least (n-1)*P time after the phase |
| AnalysisMath.CommonMultiple | inet/examples/hitachi_test/Analysis/analysis.c:236-254 | a common multiple is a multiple of the computed value (by Bezout coefficients) |
| AnalysisMath.LcmFromGcd | inet/examples/hitachi_test/Analysis/analysis.c:236-254 | from a common divisor that is a combination of both numbers, (v1/g)*v2 is their least common multiple |
| AnalysisMath.LCMcalc | inet/examples/hitachi_test/Analysis/analysis.c:236-254 | terminates on positive inputs and returns the least common multiple: a multiple of both that divides every common multiple |
| ResponseTime.Analysis.constructor | inet/examples/hitachi_test/Analysis/analysis.c:1118-1149 | a well-formed table with nothing computed yet |
| ResponseTime.Analysis.CheckSharedLink | inet/examples/hitachi_test/Analysis/analysis.c:257-267 | 1 if the message crosses the link, else -1 |
| ResponseTime.Analysis.FindFirstHop | inet/examples/hitachi_test/Analysis/analysis.c:829-834 | the hop of the first match, since that search stops there |
| ResponseTime.Analysis.FindLastHop | inet/examples/hitachi_test/Analysis/analysis.c:852-856 | the hop of the last match, since this search goes on |
| ResponseTime.Analysis.FindSTInterference | inet/examples/hitachi_test/Analysis/analysis.c:822-842 | for t >= 0: what the scheduled messages send on the link in the t units of time from the critical instant on, each as often as a release of it falls into that window, at the hop where the search stops at the first match |
| ResponseTime.Analysis.FindPreemption | inet/examples/hitachi_test/Analysis/analysis.c:845-864 | for t >= 0: 42 bytes of overhead for every such release, at the hop where the search ends with the last match |
| Interference.FactorIsWindow | inet/examples/hitachi_test/Analysis/analysis.c:836-837 | floor(phase/period) + ceil((t-phase)/period), with the phase of offset minus instance, is the number of integers k with x <= offset + k*period < x + t |
| Interference.STSumIsSent | inet/examples/hitachi_test/Analysis/analysis.c:822-842 | so the interference is the sum over the scheduled messages of the size of that window times the transmission time |
| Interference.PreemptSumIsCost | inet/examples/hitachi_test/Analysis/analysis.c:845-864 | and the preemption that of the sizes times the frame overhead |
| Interference.FixedPointInTime | inet/examples/hitachi_test/Analysis/analysis.c:965-971 | a fixed point is a time that equals the base and what is sent and preempted within it |
| Interference.CriticalIsSent | inet/examples/hitachi_test/Analysis/analysis.c:822-842 | a critical message whose instance is one of its own releases is counted at least once for every time above zero |
| Interference.SamePriorityIsCompeting | inet/examples/hitachi_test/Analysis/analysis.c:920-928 | the same-priority term is the time of the other Class A messages of the link divided by the idle slope, less than one unit lost for each |
| Interference.ClassABlocking | inet/examples/hitachi_test/Analysis/analysis.c:945-957 | the blocking term is the longest of the Class B and NRT messages of the link, one MTU for a fragmented one, and 0 if there is none |
| Interference.ResponseIsArrival | inet/examples/hitachi_test/Analysis/analysis.c:991-1002 | the response time is when the message has left its last link, with 10 us in every switch between two links; the output jitter is what exceeds the bare transmissions and switches |
| Traffic.SumsMonotone | inet/examples/hitachi_test/Analysis/analysis.c:822-864 | both sums are non-negative and grow with time |
| Traffic.SumsBound | inet/examples/hitachi_test/Analysis/analysis.c:822-864 | together they grow at most like the ST load of the link plus one cost per message |
| Traffic.PartsIsLoad | inet/examples/hitachi_test/Analysis/analysis.c:822-864 | the shares of the messages add up to the load |
| Traffic.HorizonSettles | inet/examples/hitachi_test/Analysis/analysis.c:965-971 | with a load below 1, (base + costs) / (1 - load) rounded down is a time that one more turn of the iteration does not exceed |
| ResponseTime.Analysis.FixedPoint | inet/examples/hitachi_test/Analysis/analysis.c:962-971 | whenever some bound is not exceeded by one more turn, the iteration started at the transmission time ends within bound - start + 2 turns with the least fixed point |
| Traffic.SettlesIffFixedPoint | inet/examples/hitachi_test/Analysis/analysis.c:965-971 | some time settles exactly when there is a fixed point |
| Traffic.NoFixedPointDiverges | inet/examples/hitachi_test/Analysis/analysis.c:965-971 | without a fixed point every turn is strictly above the one before, so the loop runs forever |
| Overload.SumsAbove | inet/examples/hitachi_test/Analysis/analysis.c:822-864 | together the sums are at least the ST load of the link over the time less one cost per message, and more if there is ST traffic |
| Overload.OverloadHasNoFixedPoint | inet/examples/hitachi_test/Analysis/analysis.c:965-971 | with a load of 1 or more, ST traffic on the link and the other interference no less than one cost per ST message, no time is a fixed point |
| Overload.OverloadDiverges | inet/examples/hitachi_test/Analysis/analysis.c:965-971 | then turn n is at least n above the start: the loop climbs without bound |
| Overload.BusyLinkDiverges | inet/examples/hitachi_test/Analysis/analysis.c:965-971 | such a table exists: one message of 58 bytes, sent every 10 us at 10 ns per bit |
| Overload.FactorShift | inet/examples/hitachi_test/Analysis/analysis.c:836-837 | k periods later there are k releases more |
| Overload.DemandShift | inet/examples/hitachi_test/Analysis/analysis.c:822-864 | over a common period both sums together grow by exactly the ST load |
| Overload.EndsExactly | inet/examples/hitachi_test/Analysis/analysis.c:965-971 | for every load: the iteration has a fixed point to end at if and only if the load is below 1 or one lies within one hyperperiod, where it is found by trying |
| Overload.LinkEndsExactly | inet/examples/hitachi_test/Analysis/analysis.c:956-976 | so the whole loop over the critical instants of a link ends exactly under that condition |
| Overload.FixedPointsEnd | inet/examples/hitachi_test/Analysis/analysis.c:965-971 | with a load above 1 no fixed point is beyond the remaining costs over the excess of the load |
| ResponseTime.Analysis.SamePriorityInterference | inet/examples/hitachi_test/Analysis/analysis.c:920-928 | the other Class A messages of the link, cut to an integer after each addition |
| ResponseTime.Analysis.BlockingTerm | inet/examples/hitachi_test/Analysis/analysis.c:945-957 | the longest lower-priority message of the link, one MTU for a fragmented one, 0 if there is none |
| Traffic.LoadSettles | inet/examples/hitachi_test/Analysis/analysis.c:911-988 | a load below 1 makes every critical instant of the link settle |
| ResponseTime.Analysis.MessageResponse | inet/examples/hitachi_test/Analysis/analysis.c:959-971 | the critical instants of one ST message are all accounted for |
| ResponseTime.Analysis.LinkResponse | inet/examples/hitachi_test/Analysis/analysis.c:911-988 | the largest, over all instances of all ST messages of the link, of the least fixed points, and the base when there is none |
| Traffic.LinkResultUnique | inet/examples/hitachi_test/Analysis/analysis.c:958-988 | that value is unique |
| Traffic.LinkResponseUnique | inet/examples/hitachi_test/Analysis/analysis.c:911-988 | the whole response of a message on a link, blocking and same-priority terms included, is determined by the tables |
| Traffic.ResponseAtLeastTransmission | inet/examples/hitachi_test/Analysis/analysis.c:955-988 | a link response is never below the transmission time |
| ResponseTime.Analysis.RouteResponses | inet/examples/hitachi_test/Analysis/analysis.c:909-991 | every link of the route gets its response time; a link met twice the same one again |
| ResponseTime.Analysis.ClassAMessage | inet/examples/hitachi_test/Analysis/analysis.c:907-1002 | response times per link, their sum with switch fabric and input jitter, and the output jitter; no other message changes |
| ResponseTime.Analysis.ComputeClassA | inet/examples/hitachi_test/Analysis/analysis.c:906-1003 | all Class A messages get that outcome, all others keep theirs |
| ResponseTime.Analysis.FindJitterOfClassA | inet/examples/hitachi_test/Analysis/analysis.c:789-802 | every link entry grows by the collected response times minus transmission times of the hops on it, for Class A only |
| Traffic.JitterDistinct | inet/examples/hitachi_test/Analysis/analysis.c:789-802 | on a route of distinct links the entry is the jitter of its one hop |
| Traffic.JitterGrows | inet/examples/hitachi_test/Analysis/analysis.c:789-802 | the jitter never falls from hop to hop |
| Traffic.JitterAlongRoute | inet/examples/hitachi_test/Analysis/analysis.c:789-802 | what the loops add to the entries of a route of distinct links: non-negative, non-decreasing, and the last one plus jitterIn equals jitterOut |
| ResponseTime.Analysis.AnalyseClassA | inet/examples/hitachi_test/Analysis/analysis.c:906-1006 | both steps one after the other from cleared results: on every route of distinct links the jitterLink entries left behind are non-negative and never fall, and the last one plus jitterIn equals jitterOut |
| ResponseTime.Analysis.CycleLink | inet/examples/hitachi_test/Analysis/analysis.c:271-298 | every cycle entry is 0 without ST traffic, else the least common multiple of the periods on the link |
| Traffic.CycleStep | inet/examples/hitachi_test/Analysis/analysis.c:280-292 | one more message: the least common multiple of all periods so far |
| Traffic.CycleIsLeast | inet/examples/hitachi_test/Analysis/analysis.c:269-298 | the cycle is the least positive number that all periods divide |
| ResponseTime.Analysis.MessageInstances | inet/examples/hitachi_test/Analysis/analysis.c:810-817 | the release times of every hop, each from its own link's cycle; the count left behind is the last hop's |
| ResponseTime.Analysis.FindInstances | inet/examples/hitachi_test/Analysis/analysis.c:805-819 | for all ST messages of the table, and no others |
| Traffic.InstancesTile | inet/examples/hitachi_test/Analysis/analysis.c:805-819 | the number of instances is an exact quotient and every moment of the hyperperiod lies in exactly one of them |
| Traffic.InstanceTableHolds | inet/examples/hitachi_test/Analysis/analysis.c:805-819 | so do the release times stored for every hop of an ST message |
| ResponseTime.Analysis.Instances | inet/examples/hitachi_test/Analysis/analysis.c:271-298 | hyperperiods first, instances then: every instance table left behind tiles the hyperperiods of its links |
| Fragments.PiecesDescribed | inet/examples/hitachi_test/Analysis/analysis.c:302-315 | splitting a payload: count, last chunk and total length of the pieces, and their transmission time |
| Fragments.FormulaIsTime | inet/examples/hitachi_test/Analysis/analysis.c:367-370 | the fragmented formula is the time of all pieces with their overhead |
| Fragments.Payloads.constructor | inet/examples/hitachi_test/Analysis/analysis.c:302-315 | the payloads to split |
| Fragments.Payloads.Defragmentation | inet/examples/hitachi_test/Analysis/analysis.c:302-315 | payloads above 1500 bytes are marked with the number and the last size of their MTU pieces, numbered from 0, others untouched |
| Fragments.Payloads.ExtractTransTime | inet/examples/hitachi_test/Analysis/analysis.c:361-379 | the transmission time is that of the pieces sent, the time of the last piece and the length in bits are kept; ST messages are never split |
| Fragments.Payloads.SplitAndTime | inet/examples/hitachi_test/Analysis/analysis.c:302-379 | from payloads not split yet, large ones take the time of their pieces unless they are ST traffic |
| MachoStates.ExitsBottomUp | inet/src/inet/common/Macho.cc:157-173 | the exits of a transition are the innermost part of the old state's superstate chain, in reverse |
| MachoStates.EntriesTopDown | inet/src/inet/common/Macho.cc:139-155 | the entries are the innermost part of the new state's chain, in order |
| MachoStates.LeaveIsMeet | inet/src/inet/common/Macho.cc:157-173 | exiting stops at the innermost state that contains the old one and properly contains the new one |
| MachoStates.EntryMeetsExit | inet/src/inet/common/Macho.cc:139-173 | entering starts exactly where exiting stopped, for self transitions and transitions to superstates and substates too |
| MachoStates.SaveUpMeaning | inet/src/inet/common/Macho.h:276-297 | leaving a state stores it, or the direct substate on the way to it, in exactly those of its superstates that keep deep or shallow history |
| MachoStates.NothingAbove | inet/src/inet/common/Macho.h:531-533 | where no superstate keeps history, stopping early changes nothing |
| MachoRuns.ExitsPlay | inet/src/inet/common/Macho.cc:157-173 | every exit of a transition is the innermost entered state, with its box in place, and box deletions follow their exits |
| MachoRuns.EntriesPlay | inet/src/inet/common/Macho.cc:139-155 | every entry is directly inside the innermost entered state, and its box is created before it unless it persisted |
| MachoRuns.StepGood | inet/src/inet/common/Macho.cc:348-389 | one turn of the inner loop keeps: entered states are the chain of the current one, boxes exist for exactly these and persistent ones, every history is a proper substate of its owner |
| MachoRuns.RunsStayGood | inet/src/inet/common/Macho.cc:342-396 | the same in every configuration of every run |
| MachoRuns.StepDescends | inet/src/inet/common/Macho.cc:378-382 | a transition that an init action asks for goes to a proper substate, also through history |
| MachoRuns.StepReaches | inet/src/inet/common/Macho.cc:348-389 | a step ends in its target with the init action there, also for an initializer with data, unless history is entered; the history of the target is used up except by data |
| MachoRuns.HistoryReached | inet/src/inet/common/Macho.cc:175-187 | a history transition reaches the remembered state in the next step, exits nothing, runs no init action on the way, enters the states down to it and then runs its own init action |
| MachoRuns.HistoryIsLastLeft | inet/src/inet/common/Macho.h:733-739 | in every run the stored history of a state is the state last left inside it, as its strategy remembers it, unless used up since |
| MachoRuns.PersistentSurvives | inet/src/inet/common/Macho.h:299-303 | a persistent box once created survives every run |
| Macho.Machine.constructor | inet/src/inet/common/Macho.h:1603-1617 | nothing entered, nothing pending, no history, no box |
| Macho.Machine.CreateBox | inet/src/inet/common/Macho.h:390-401 | creates a box only when there is none, reusing cached memory |
| Macho.Machine.DeleteBox | inet/src/inet/common/Macho.h:403-412 | deletes a box that exists, once, and keeps its memory; persistent states keep theirs |
| Macho.Machine.ExitState | inet/src/inet/common/Macho.cc:157-173 | the exit recursion performs exactly the exits and box deletions of the transition |
| Macho.Machine.EnterState | inet/src/inet/common/Macho.cc:139-155 | the entry recursion performs exactly the entries and box creations |
| Macho.Machine.SetHistorySuper | inet/src/inet/common/Macho.h:734-739 | the bubbling recursion stores the history in all superstates |
| Macho.Machine.InitState | inet/src/inet/common/Macho.cc:175-187 | history transition or init action, and the history is used up either way |
| Macho.Machine.Transition | inet/src/inet/common/Macho.cc:348-389 | one turn of the inner loop is one step of the abstract machine and keeps the invariant; what is pending then is a proper substate |
| Macho.Machine.Transitions | inet/src/inet/common/Macho.cc:346-389 | the inner loop terminates because every init action descends; the whole sequence of configurations is a run |
| Macho.Machine.RattleOn | inet/src/inet/common/Macho.cc:342-404 | for every finite script of event handler reactions: every configuration is on one run; on it exactly the targets that the handlers ask for are asked for, in order, one for every event posted; the machine ends in the last of them or inside it |
| Macho.Machine.Dispatch | inet/src/inet/common/Macho.cc:398-403 | the handler runs once for the pending event, and its transition and posted event are what is pending then |
| Macho.Machine.OneEvent | inet/src/inet/common/Macho.cc:342-404 | one pending event whose handler asks for a state: the machine ends in that state or inside it |
| Macho.Machine.SetState | inet/src/inet/common/Macho.cc:236-240 | a transition from outside is performed first, then those of the handlers of posted events; it ends in the last target or inside it |
| Macho.Machine.Start | inet/src/inet/common/Macho.cc:248-256 | starting from the root reaches the start state or a substate of it, all superstates entered |
| Macho.Machine.Shutdown | inet/src/inet/common/Macho.cc:268-278 | exits everything: no state entered afterwards, only persistent boxes left |
| WordBits.OrDisjoint | inet/src/inet/common/Int128.cc:341 | or-ing words without common bits is adding them |
| WordBits.AndHighMask | inet/src/inet/common/Int128.cc:368-371 | a mask of high bits cuts the low bits off |
| WordBits.AndClear | inet/src/inet/common/Int128.cc:313-315 | masking a bit out subtracts its weight |
| Words128.AddWords | inet/src/inet/common/Int128.cc:202-212 | adding low and high words with the carry test lo < old_lo is addition modulo 2^128 |
| Words128.NegWords | inet/src/inet/common/Int128.cc:160-166 | negating the words is negation modulo 2^128 |
| Words128.ShlMid | inet/src/inet/common/Int128.cc:363-375 | the masked shift of both words is multiplication by 2^n modulo 2^128 |
| Words128.ShrMid | inet/src/inet/common/Int128.cc:333-345 | the arithmetic shift of both words is division by 2^n rounding down |
| Words128.ShrFar | inet/src/inet/common/Int128.cc:327-331 | the same across the word boundary, the sign spreading |
| Int128s.Int128.LessExact | inet/src/inet/common/Int128.cc:380-390 | operator< is the order of the numbers except exactly when both are negative with equal high words and one low word is below 2^63 and the other not |
| Int128s.Int128.Neg | inet/src/inet/common/Int128.cc:160-166 | minus the value, wrapped |
| Int128s.Int128.AddAssign | inet/src/inet/common/Int128.cc:202-212 | the wrapped sum, also when the operand is the object itself |
| Int128s.Int128.SubAssign | inet/src/inet/common/Int128.h:128-131 | the wrapped difference |
| Int128s.Int128.ShlAssign | inet/src/inet/common/Int128.cc:350-378 | the value times 2^n, wrapped, for every n |
| Int128s.Int128.ShrAssign | inet/src/inet/common/Int128.cc:319-348 | the value divided by 2^n rounding down, for every n |
| Int128s.Int128.Bit | inet/src/inet/common/Int128.cc:289-298 | bit n of the two's complement number, the sign beyond bit 127 |
| Int128s.Int128.SetBit | inet/src/inet/common/Int128.cc:300-317 | sets or clears the bit by its weight, wrapped |
| Int128s.Int128.MulAssign | inet/src/inet/common/Int128.cc:214-235 | multiplication modulo 2^128 by shift and add over an arithmetic shift, also when squaring in place |
| Int128s.Int128.FirstLoop | inet/src/inet/common/Int128.cc:257-263 | ends with the leading bits of the dividend, at least the divisor and below twice it; the unsigned index passes through its largest value and comes back |
| Int128s.Int128.DivLoop | inet/src/inet/common/Int128.cc:265-277 | ends with quotient and remainder of the magnitudes; no shifted remainder leaves the range and no quotient bit is set twice |
| Int128s.Int128.Div | inet/src/inet/common/Int128.cc:237-287 | q*d + r == n, abs(r) < abs(d), r zero or of the sign of n, for every n but INT128_MIN and every divisor but 0 and INT128_MIN; for INT128_MIN the result is 0 with INT128_MIN as remainder; remainder and operands may be one object |
| Int128Text.DivisionUnique | inet/src/inet/common/Int128.cc:237-287 | these conditions determine quotient and remainder |
| Int128Text.MinIsNotDivided | inet/src/inet/common/Int128.cc:244-251 | the result for INT128_MIN is a division for no divisor, so the exception is exact |
| Int128s.Int128.MinDivisorNeverEnds | inet/src/inet/common/Int128.cc:257-277 | with the words 0 and -2^63 as divisor, no number of subtractions from zero compares below it: the first loop does not run and the second never brings down a bit |
| Int128s.Int128.DivByMin | inet/src/inet/common/Int128.cc:244-277 | the division by INT128_MIN followed for any number of turns: past the first comparison, no turn of the first loop, and the remainder still not below the divisor |
| Int128Text.DigitsAccepted | inet/src/inet/common/Int128.cc:91-98 | in radix 8, 10 and 16 the digits accepted are those below the radix and the letter that stands for the radix itself (a or A in 10, g or G in 16) |
| Int128Text.ParsedExact | inet/src/inet/common/Int128.cc:64-107 | for every text: it is read as the number of its proper digits if and only if these are not followed by that letter |
| Int128Text.ExcessDigitRead | inet/src/inet/common/Int128.cc:91-98 | 0xg is read as 16 |
| Int128s.Int128.DivAssign | inet/src/inet/common/Int128.h:133-138 | the truncated quotient |
| Int128s.Int128.ModAssign | inet/src/inet/common/Int128.h:140-144 | the truncated remainder, written over the dividend while it is in use |
| Int128s.Int128.WriteDigits | inet/src/inet/common/Int128.cc:52-56 | the digits of a magnitude, most significant first; the buffer never fills up |
| Int128s.Int128.Str | inet/src/inet/common/Int128.cc:37-62 | the text of the number in every radix from 2 to 37, and the fixed texts for zero and other radices |
| Int128s.Int128.Set | inet/src/inet/common/Int128.cc:64-107 | the number a text stands for modulo 2^128: sign, octal and hexadecimal prefixes, digits up to the first other character |
| Int128Text.DigitsWorth | inet/src/inet/common/Int128.cc:37-62 | in every radix from 2 to 37 the digits of a number are the first characters of 0-9A-Z, and [ in radix 37, the first digit not 0, and their positional value is the number |
| Int128Text.ParseOfDigits | inet/src/inet/common/Int128.cc:64-107 | parsing the digits of a number in radix 8, 10 or 16 gives it back, and they start with no zero |
| Int128Text.PrefixedParse | inet/src/inet/common/Int128.cc:76-87 | digits behind 0 are read as octal, behind 0x as hexadecimal, and otherwise as decimal ones, with and without a minus sign |
| Int128Text.PrefixedParseFits | inet/src/inet/common/Int128.cc:64-107 | so every number that fits comes back from its octal and hexadecimal digits |
| Int128Text.PrintThenParse | inet/src/inet/common/Int128.cc:37-107 | set(str(10)) returns the original value if and only if it is not INT128_MIN |
| PatternLanguage.TrailingAnySeq | inet/src/inet/common/PatternMatcher.cc:301-302 | a trailing ** takes the rest |
| PatternLanguage.AnySeqLiteral | inet/src/inet/common/PatternMatcher.cc:303-304 | ** and a literal at the end describe the lines that end with it |
| PatternLanguage.LastLiteral | inet/src/inet/common/PatternMatcher.cc:342-358 | a pattern whose last element is a literal describes only lines that end with it |
| PatternMatching.PatternMatcher.DoMatch | inet/src/inet/common/PatternMatcher.cc:241-336 | the backtracking matcher with its shortcuts decides membership of the rest of the line in the language of the rest of the pattern, and never runs past the pattern |
| PatternMatching.PatternMatcher.TryAll | inet/src/inet/common/PatternMatcher.cc:307-324 | the general case of ** and *: some split works, the part of * free of dots |
| PatternMatching.PatternMatcher.MatchNumber | inet/src/inet/common/PatternMatcher.cc:287-295 | the maximal digit run, then the bounds |
| PatternMatching.PatternMatcher.Matches | inet/src/inet/common/PatternMatcher.cc:338-362 | true exactly when the line can be split among the elements; the last-two-characters test changes no answer |
| PatternMatching.PatternMatcher.IsInSet | inet/src/inet/common/PatternMatcher.cc:228-239 | some pair of the set encloses the character |
| PatternSyntax.NextToken | inet/src/inet/common/PatternMatcher.cc:41-77 | an element that is never END, with paired set characters; it consumes nothing only for a bracket not after a literal, and then leaves a literal; PatternMeaning says what each element is |
| PatternMatching.PatternMatcher.ParseNumRange | inet/src/inet/common/PatternMatcher.cc:147-174 | accepts exactly the optional digits, two dots, optional digits and the closing character |
| PatternMatching.PatternMatcher.ParseLiteralString | inet/src/inet/common/PatternMatcher.cc:131-145 | the literal up to a special character, backslashes removed, ending after a bracket before a number range |
| PatternMatching.PatternMatcher.ParseSet | inet/src/inet/common/PatternMatcher.cc:95-129 | the pairs of a set, a closing brace first in it being a member; no closing brace is an error |
| PatternMatching.PatternMatcher.SetPattern | inet/src/inet/common/PatternMatcher.cc:32-93 | terminates for every pattern; unless a brace is unmatched, it reads past the end of the text if and only if the pattern ends in an odd number of backslashes; the list it leaves has exactly one END, at its end |
| PatternSyntax.CompletedOneEnd | inet/src/inet/common/PatternMatcher.cc:81-92 | the same for every tokenized pattern in both modes |
| PatternSyntax.LiteralParity | inet/src/inet/common/PatternMatcher.cc:131-145 | a literal takes backslashes in pairs, so reading one keeps the parity of the backslashes at the end, and reads past the end only if it is odd |
| PatternSyntax.OverreadExact | inet/src/inet/common/PatternMatcher.cc:131-145 | for every pattern and both modes: unless a brace is unmatched, it is read past its end if and only if it ends in an odd number of backslashes |
| PatternSyntax.BackslashWitness | inet/src/inet/common/PatternMatcher.cc:131-145 | one backslash is read past its end, two are the literal of one |
| PatternSyntax.EscapedLiteral | inet/src/inet/common/PatternMatcher.h:35 | a text with every character escaped is one literal |
| PatternSyntax.EscapedMatchesItself | inet/src/inet/common/PatternMatcher.h:24-52 | such a pattern matches, as a full string, exactly that text |
| PatternSyntax.EscapedFindsSubstring | inet/src/inet/common/PatternMatcher.h:46-49 | and, as a substring, exactly the lines that contain it |
| PatternSubstring.TakesThen | inet/src/inet/common/PatternMatcher.cc:241-336 | a list that starts with given elements describes the rest of a line exactly if these take a part of it and the remaining elements describe what comes then |
| PatternSubstring.SubstringExact | inet/src/inet/common/PatternMatcher.cc:81-92 | for every element list: in substring mode it describes exactly the lines with a part that it describes where it stands |
| PatternSubstring.SubstringContains | inet/src/inet/common/PatternMatcher.h:46-49 | without number ranges: exactly the lines that contain a text it describes as a full string |
| PatternSubstring.NumberIsWhole | inet/src/inet/common/PatternMatcher.cc:287-295 | with one it need not: a range of 1..1 describes 1 but is not found in 12 |
| PatternSyntax.RangePlaced | inet/src/inet/common/PatternMatcher.cc:141-142 | in a text whose special characters are escaped, a bracket opens a number range exactly if it opens one in the text itself |
| PatternSyntax.EscapedSpecialTokens | inet/src/inet/common/PatternMatcher.h:35 | for every text and both modes: with a backslash before each special character it is one literal if and only if no bracket in it opens a number range |
| PatternSyntax.EscapedSpecialMatches | inet/src/inet/common/PatternMatcher.h:35 | and then, as a full string, it describes exactly that text; otherwise it does not even describe the text |
| PatternSyntax.EscapedBracketStillRange | inet/src/inet/common/PatternMatcher.cc:134-143 | the elements of one such pattern, an escaped bracket before 1..2 |
| PatternMeaning.WrittenTokens | inet/src/inet/common/PatternMatcher.cc:32-93 | for every pattern written from escaped texts, wildcards, sets and number ranges, in both modes: it is cut into exactly the elements it is written for |
| PatternMeaning.QuestionMark | inet/src/inet/common/PatternMatcher.h:28 | between any two escaped texts ? describes one character, and not a dot when dotted |
| PatternMeaning.SingleStar | inet/src/inet/common/PatternMatcher.h:29 | * describes any part, free of dots when dotted |
| PatternMeaning.DoubleStar | inet/src/inet/common/PatternMatcher.h:30 | ** describes any part |
| PatternMeaning.SetMeans | inet/src/inet/common/PatternMatcher.h:52-59 | a set of characters and ranges describes one character that it lists, a negated one a character that it does not, for every list written as the rules ask that does not read as a number range |
| PatternMeaning.SpanMeans | inet/src/inet/common/PatternMatcher.h:31-32 | {x-y} describes a character from x to y, {^x-y} any other |
| PatternMeaning.NumberInBraces | inet/src/inet/common/PatternMatcher.h:33 | {n..m} describes a number within the bounds that are given, if no digit follows it |
| PatternMeaning.NumberInBrackets | inet/src/inet/common/PatternMatcher.h:34 | [n..m] describes such a number in square brackets |
| PatternMeaning.WrittenNumber | inet/src/inet/common/PatternMatcher.h:33 | the decimal text of k is described by {n..m} exactly if k is from n to m |
| StageGraph.EdgesAreDependencies | inet/src/inet/common/InitStageRegistry.cc:69-74 | stage i waits for stage j exactly when some dependency names them as source and target |
| StageGraph.WalkFindsCycle | inet/src/inet/common/InitStageRegistry.cc:90-91 | walking through stages that all wait comes back to an earlier one |
| StageGraph.StuckHasCycle | inet/src/inet/common/InitStageRegistry.cc:90-91 | a pass that numbers nothing while a stage is left means a cycle |
| StageGraph.NumberedHasNoCycle | inet/src/inet/common/InitStageRegistry.cc:76-89 | a complete numbering means there is none |
| StageGraph.NumberOne | inet/src/inet/common/InitStageRegistry.cc:80-86 | giving the next number to a stage whose targets are numbered keeps the numbering partial and respected |
| InitStages.InitStageRegistry.AddInitStage | inet/src/inet/common/InitStageRegistry.cc:28-32 | one stage more at the end, and the numbers count as not assigned |
| InitStages.InitStageRegistry.AddInitStageDependency | inet/src/inet/common/InitStageRegistry.cc:34-38 | one dependency more, and the numbers count as not assigned |
| InitStages.InitStageRegistry.GetInitStage | inet/src/inet/common/InitStageRegistry.cc:20-26 | the first stage of the name, or failure exactly when there is none |
| InitStages.InitStageRegistry.LinkStages | inet/src/inet/common/InitStageRegistry.cc:69-74 | links exactly the dependency graph, or fails exactly at an unknown name |
| InitStages.InitStageRegistry.Pass | inet/src/inet/common/InitStageRegistry.cc:78-89 | one pass: numbers grow, targets before sources; without progress every stage left waits; an order that is allowed already is numbered as it stands |
| InitStages.InitStageRegistry.NumberAll | inet/src/inet/common/InitStageRegistry.cc:75-92 | terminates and succeeds exactly when the graph has no cycle |
| InitStages.InitStageRegistry.AssignInitStageNumbers | inet/src/inet/common/InitStageRegistry.cc:61-98 | fails with an unknown name exactly if there is one, with a circle exactly if there is one; else the stages are permuted into numbers 0..n-1, every target before its source, and an order that was allowed is kept |
| InitStages.RenumberedInOrder | inet/src/inet/common/InitStageRegistry.cc:93-95 | with distinct names the sorted stages are in an order the dependencies allow |
| InitStages.InitStageRegistry.GetNumber | inet/src/inet/common/InitStageRegistry.cc:46-59 | with nothing assigned: an unknown name exactly if there is one, else a circle exactly if there is one, else the stages are renumbered, with distinct names every target before its source; the number is that of the first stage of the declaration, and none exactly if there is none; assigned numbers are used unchanged |
| InitStages.InitStageRegistry.AskAfterCircle | inet/src/inet/common/InitStageRegistry.cc:46-59 | a circle is reported once: the next question counts the numbers left as assigned |
| InitStages.InitStageRegistry.AddRespectedDependency | inet/src/inet/common/InitStageRegistry.cc:34-38 | adding a dependency that the numbers respect and renumbering changes no number |
| StageGraph.NewStageKeepsOrder | inet/src/inet/common/InitStageRegistry.cc:28-32 | a new stage at the end keeps the order allowed, so renumbering keeps all earlier numbers |
| StreamBits.NumberRoundTrip | inet/src/inet/common/MemoryInputStream.h:471-482 | a number below 2^n comes back from its n bits |
| StreamBits.LeRoundTrip | inet/src/inet/common/MemoryInputStream.h:300-419 | a word comes back from its little endian bytes |
| StreamBits.ByteOrder | inet/src/inet/common/MemoryOutputStream.h:207-325 | byte i of the little endian order and byte i from the end of the big endian order are the byte of weight 256^i |
| StreamBits.UnalignedWriterExact | inet/src/inet/common/MemoryOutputStream.h:127-137 | at bit offset l1 inside a byte the writer is right for every value if and only if l1 is 4, whatever was written before |
| Streams.UnalignedByte | inet/src/inet/common/MemoryOutputStream.h:130-135 | the two bytes written hold the old bits followed by the value exactly when they are the right ones |
| Streams.GatheredByte | inet/src/inet/common/MemoryInputStream.h:193-198 | the reader gathers the right byte at every bit offset |
| Streams.MemoryOutputStream.WriteBit | inet/src/inet/common/MemoryOutputStream.h:92-101 | the bit is appended to the bits written |
| Streams.MemoryOutputStream.WriteByte | inet/src/inet/common/MemoryOutputStream.h:127-137 | the byte is appended exactly if the offset is 0 or the written bytes are right, which they always are at offset 4 |
| Streams.MemoryOutputStream.WriteUint2 | inet/src/inet/common/MemoryOutputStream.h:179-182 | two bits, the higher first |
| Streams.MemoryOutputStream.WriteUint4 | inet/src/inet/common/MemoryOutputStream.h:188-193 | four bits, the highest first |
| Streams.MemoryOutputStream.WriteString | inet/src/inet/common/MemoryOutputStream.h:354-357 | the bytes and a zero byte, at a byte boundary |
| Streams.MemoryOutputStream.WriteNBitsOfUint64Be | inet/src/inet/common/MemoryOutputStream.h:363-371 | the low n bits, the highest first, for n up to 31; an error for 0 and above 64 |
| Streams.MemoryOutputStream.WriteUint16Be | inet/src/inet/common/MemoryOutputStream.h:207-210 | the 16 bits of the word, the highest byte first |
| Streams.MemoryOutputStream.WriteUint16Le | inet/src/inet/common/MemoryOutputStream.h:216-219 | its bytes, the lowest first |
| Streams.MemoryInputStream.ReadUint16Be | inet/src/inet/common/MemoryInputStream.h:289-294 | the number in the next 16 bits, or the flag that they were not there |
| Streams.MemoryInputStream.ReadUint16Le | inet/src/inet/common/MemoryInputStream.h:300-305 | the number in the next 2 bytes, the lowest first, or the flag |
| Streams.MemoryOutputStream.WriteUint24Be | inet/src/inet/common/MemoryOutputStream.h:225-229 | the 24 bits of the word, the highest byte first |
| Streams.MemoryOutputStream.WriteUint24Le | inet/src/inet/common/MemoryOutputStream.h:235-239 | its bytes, the lowest first |
| Streams.MemoryInputStream.ReadUint24Be | inet/src/inet/common/MemoryInputStream.h:311-317 | the number in the next 24 bits, or the flag that they were not there |
| Streams.MemoryInputStream.ReadUint24Le | inet/src/inet/common/MemoryInputStream.h:323-329 | the number in the next 3 bytes, the lowest first, or the flag |
| Streams.MemoryOutputStream.WriteUint32Be | inet/src/inet/common/MemoryOutputStream.h:245-250 | the 32 bits of the word, the highest byte first |
| Streams.MemoryOutputStream.WriteUint32Le | inet/src/inet/common/MemoryOutputStream.h:256-261 | its bytes, the lowest first |
| Streams.MemoryInputStream.ReadUint32Be | inet/src/inet/common/MemoryInputStream.h:335-342 | the number in the next 32 bits, or the flag that they were not there |
| Streams.MemoryInputStream.ReadUint32Le | inet/src/inet/common/MemoryInputStream.h:348-355 | the number in the next 4 bytes, the lowest first, or the flag |
| Streams.MemoryOutputStream.WriteUint48Be | inet/src/inet/common/MemoryOutputStream.h:267-274 | the 48 bits of the word, the highest byte first |
| Streams.MemoryOutputStream.WriteUint48Le | inet/src/inet/common/MemoryOutputStream.h:280-287 | its bytes, the lowest first |
| Streams.MemoryInputStream.ReadUint48Be | inet/src/inet/common/MemoryInputStream.h:361-370 | the number in the next 48 bits, or the flag that they were not there |
| Streams.MemoryInputStream.ReadUint48Le | inet/src/inet/common/MemoryInputStream.h:376-385 | the number in the next 6 bytes, the lowest first, or the flag |
| Streams.MemoryOutputStream.WriteUint64Be | inet/src/inet/common/MemoryOutputStream.h:293-302 | the 64 bits of the word, the highest byte first |
| Streams.MemoryOutputStream.WriteUint64Le | inet/src/inet/common/MemoryOutputStream.h:308-317 | its bytes, the lowest first |
| Streams.MemoryInputStream.ReadUint64Be | inet/src/inet/common/MemoryInputStream.h:391-402 | the number in the next 64 bits, or the flag that they were not there |
| Streams.MemoryInputStream.ReadUint64Le | inet/src/inet/common/MemoryInputStream.h:408-419 | the number in the next 8 bytes, the lowest first, or the flag |
| Streams.MemoryInputStream.ReadBit | inet/src/inet/common/MemoryInputStream.h:138-152 | the next bit, or the flag at the end of the stream |
| Streams.MemoryInputStream.ReadByte | inet/src/inet/common/MemoryInputStream.h:184-203 | the next eight bits at any bit offset, or the flag and the position at the end |
| Streams.MemoryInputStream.ReadUint2 | inet/src/inet/common/MemoryInputStream.h:257-262 | the number in the next two bits |
| Streams.MemoryInputStream.ReadUint4 | inet/src/inet/common/MemoryInputStream.h:268-275 | the number in the next four bits |
| Streams.MemoryInputStream.ReadNBitsToUint64Be | inet/src/inet/common/MemoryInputStream.h:471-482 | the number in the next n bits, n up to 31 |
| Streams.TextFound | inet/src/inet/common/MemoryInputStream.h:460-466 | a zero terminated text in memory is the text found at its position |
| Streams.MemoryInputStream.ReadString | inet/src/inet/common/MemoryInputStream.h:460-466 | terminates always, and returns the bytes up to a zero or to the end of the stream, which sets the flag |
| StreamItems.ReadIsWritten | inet/src/inet/common/MemoryInputStream.h:257-482 | the number read for the encoding of an item is the one written |
| StreamItems.RoundTrip | inet/src/inet/common/MemoryOutputStream.h:92-371 | any sequence of well-formed writes whose byte writes start at bit offset 0 or 4 is read back identically by the same reads, ending at position == length with no read beyond the end |
| BitSequences.DecSet | inet/src/inet/common/BitVector.cc:50-61 | setting a bit, growing with zeros, changes the number by the weight of the bit |
| BitSequences.PairStep | inet/src/inet/common/ShortBitVector.h:103 | the first step leaves in every pair of bits their count |
| BitSequences.NibbleStep | inet/src/inet/common/ShortBitVector.h:104 | the second step adds pairs |
| BitSequences.ByteStep | inet/src/inet/common/ShortBitVector.h:105 | the third step adds fields of four bits without carry |
| BitSequences.SwarCounts | inet/src/inet/common/ShortBitVector.h:102-105 | the four word-parallel steps count the set bits of every 32-bit word |
| BitSequences.XorCounts | inet/src/inet/common/ShortBitVector.h:102 | the set bits of the exclusive or are the positions that differ |
| BitVectors.BitVector.SetBit | inet/src/inet/common/BitVector.cc:50-61 | the sequence with the bit set, extended with zeros as needed |
| BitVectors.BitVector.ToggleBit | inet/src/inet/common/BitVector.cc:63-69 | the bit inverted, or an error out of range |
| BitVectors.BitVector.GetBit | inet/src/inet/common/BitVector.cc:71-77 | the bit, or an error out of range |
| BitVectors.BitVector.AppendBit | inet/src/inet/common/BitVector.cc:94-97 | one bit more |
| BitVectors.BitVector.ToDecimal | inet/src/inet/common/BitVector.cc:136-146 | the number of the bits, the first least significant, modulo 2^32 |
| BitVectors.BitVector.ReverseToDecimal | inet/src/inet/common/BitVector.cc:148-158 | the number of the reversed bits modulo 2^32 |
| BitVectors.BitVector.ComputeHammingDistance | inet/src/inet/common/BitVector.cc:160-169 | the number of positions that differ, or an error for different sizes |
| BitVectors.BitVector.Equals | inet/src/inet/common/BitVector.cc:179-187 | same size and same bits |
| BitVectors.BitVector.Copy | inet/src/inet/common/BitVector.cc:194-200 | the bits of the other vector |
| BitVectors.ShortBitVector.SetBit | inet/src/inet/common/ShortBitVector.h:69-81 | the same as the general form below position 32, an error from there on |
| BitVectors.ShortBitVector.ToggleBit | inet/src/inet/common/ShortBitVector.h:83-90 | the same as the general form |
| BitVectors.ShortBitVector.GetBit | inet/src/inet/common/ShortBitVector.h:60-67 | the same as the general form |
| BitVectors.ShortBitVector.ReverseToDecimal | inet/src/inet/common/ShortBitVector.h:40-50 | the same as the general form |
| BitVectors.ShortBitVector.ComputeHammingDistance | inet/src/inet/common/ShortBitVector.h:96-106 | the word-parallel count is the number of positions that differ |
| BitVectors.WordsAgree | inet/src/inet/common/ShortBitVector.h:116 | the words of two vectors are equal exactly if the longer vector is the shorter one followed by zeros |
| BitVectors.WordsExact | inet/src/inet/common/ShortBitVector.h:116 | for vectors of sizes m and n, comparing the words is right for all of them if and only if m equals n |
| BitVectors.ShortBitVector.Equals | inet/src/inet/common/ShortBitVector.h:116 | the comparison errs exactly for different vectors that differ in trailing zeros |
| BitVectors.RunBoth | inet/src/inet/common/ShortBitVector.h:40-106 | every history that stays within 32 bits leaves both forms with the same bits, with errors in the same places |
| BitVectors.SameAnswers | inet/src/inet/common/ShortBitVector.h:38-106 | after any two such histories both forms give the same decimals, reversed decimals and distances, and these are the true ones |

## Left out

- IntervalTrees.IntervalTree.DeleteNode: does not model memory reclamation, by which the returned interval is freed before it is returned.
- IntervalTrees.IntervalTree.Query: the stack grows without bound instead of by `realloc`, whose failure is not modelled.
- Interval tree: getPredecessor, getMaximum, printing and the destructor, which are mirror images or plumbing.
- ResponseTime.Analysis.LinkResponse: requires a settling time for every critical instant of the link, as RouteResponses, ClassAMessage and ComputeClassA do for the route; where there is none the source's loop does not end (Traffic.SettlesIffFixedPoint, Traffic.NoFixedPointDiverges; Overload.LinkEndsExactly decides it).
- ResponseTime.Analysis.FindInstances: requires the counts of ST messages to fit the table of 50 instances, as the source's fixed array does.
- Response-time analysis: Class B (findQmax, responseTimeClac), which mixes link ids with hop indices; ST response times, file input, printing, idle slope tables, the disabled utilisation check, and any claim about a real network.
- Fragments.Payloads.Defragmentation: requires at most 50 pieces, as the source's fixed array does.
- Macho.Machine.RattleOn: handlers of dispatched events follow a finite script; runs in which handlers post events forever are not modelled.
- Macho.Machine.Start: state instances exist from the start instead of being created on first use.
- Macho: clearing histories from outside, snapshots, the deprecated setStateBox and setStateDirect, templates and keys.
- Int128s.Int128.Div: does not model the trap on a zero divisor, and requires the divisor not to be INT128_MIN, with which the source does not return (Int128s.Int128.DivByMin).
- Int128: float conversions, increment and decrement, the bitwise assignment operators, and the assignments from signed integers that do not sign-extend.
- PatternMatching.PatternMatcher.Matches: case-sensitive mode only; in case-insensitive mode the suffix shortcut stays case-sensitive.
- PatternMatching.PatternMatcher.ParseNumRange: numbers are unbounded where `atol` would overflow.
- PatternMatcher: patternPrefixMatches and debug strings.
- InitStages.InitStageRegistry.GetNumber: says nothing about which stages have a number after a circle, and for stages that share a name nothing about the order of the numbers.
- InitStageRegistry: `std::sort` is replaced by placing every stage at its number; the singleton lookup is not part of this model.
- Streams.MemoryOutputStream.WriteNBitsOfUint64Be: requires n up to 31 (or an erroneous n), because the mask starts as an `int`.
- Streams.MemoryInputStream.ReadNBitsToUint64Be: requires n up to 31 (or an erroneous n), because the weight starts as an `int`.
- Streams: address types, repeated writes and reads of one value, reads of byte and bit arrays, copying and seeking.
- Bit vectors: constructors from numbers and texts, shifts, text output; positions are natural numbers.
