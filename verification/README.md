# Sanity-check redundancy elimination, modelled in Dafny

This project models the redundancy-elimination passes of the repository's
`src/SRPass` directory. A sanity check (SC) is a conditional branch that a
sanitizer inserted to guard an operation. An unsanitized check (UC) is an
ordinary conditional branch of the program. Each pass decides which SCs are
redundant and rewrites each one to always take its regular successor
(`optimizeCheckAway`).

- **SafePass, DynPass and DynPass2** share one coverage-driven algorithm.
  - Every check has a coverage record: an id plus reach, left and right counts.
  - The SCs are stored in a table bucketed by total (left + right).
  - Phase 1 walks the UCs. A UC removes the SCs whose counts pair up with its own.
  - Phase 2 walks the SCs again. It removes an SC when another entry in the same bucket shares a left count and passes the pass's structural test.
  - The passes differ in that test and in which table phase 2 searches:
    - SafePass's test answers true, and phase 2 searches the survivors table.
    - DynPass's test is `findSameSourceS`, a static-pattern comparison.
    - DynPass2's test is `findPhiInst`, a leaf-set comparison. DynPass2 also sums an execution-cost estimate.
  - The `Engine` module holds the shared algorithm. `SafePass`, `DynPass` and `DynPass2` hold the per-pass configurations and properties.
- **StaPass** decides from program structure alone.
  - An SC is marked when a UC or another SC of the same function dominates or post-dominates it and shares its source.
  - The source is compared by backward slicing (`TrackMemoryLoc`) and leaf matching (`SameMemoryLoc`).
  - The marked SCs are then rewritten.

Modules:

| module | contents |
|---|---|
| `Graph` | The dependency graph the passes work on. |
| `Coverage` | Coverage records and the pattern table (`SC_Pattern`). |
| `Engine` | The two phases and the counters they report. |
| `Rewrite` | `optimizeCheckAway`. |
| `Slicer` | The worklist slicer shared by DynPass and StaPass. |
| `StaticPattern` | SafePass `SameStaticPattern` and DynPass `findSameSourceS`. |
| `PhiSlice` | The two `findPhiInst` slicers. |
| `SafeMatch`, `DynMatch`, `StaMatch` | Each pass's `TrackMemoryLoc`, `SameMemoryLoc` and `findSameSource`. |
| `SafePass`, `DynPass`, `DynPass2`, `StaPass` | The passes. |

Oracle parameters stand in for the compiler analyses:

| parameter | stands for |
|---|---|
| `regular` | `getRegularBranch` |
| `StaPass.Oracle` | functions, blocks, dominator and post-dominator trees, and check cones |
| `prices` | the target cost model, per cone |

The visiting order of the checks is the order of the sequences passed in.

## Model

| member | source | states |
|---|---|---|
| Coverage.Append | src/SRPass/SafePass.cpp:157 | appending an entry under a total adds that key, puts the entry at the end of its bucket and leaves every other bucket as it was |
| Coverage.IngestIsBucket | src/SRPass/SafePass.cpp:120-186 | after ingestion the table has a bucket for exactly the totals that occur, and each bucket lists the entries of the SCs with that total in enumeration order |
| Coverage.BucketMembers | src/SRPass/SafePass.cpp:120-157 | every entry of a bucket belongs to some SC whose recomputed total is that key |
| Coverage.BucketContains | src/SRPass/SafePass.cpp:120-157 | every SC's entry is in the bucket of its total |
| Coverage.BucketEmpty | src/SRPass/SafePass.cpp:120-157 | a total no SC has has an empty bucket |
| Coverage.Ingest | src/SRPass/SafePass.cpp:120-157 | the ingestion loop: each SC in enumeration order appends its entry (id, left, right, branch) to the bucket of its recomputed total left + right |
| Engine.Holds | src/SRPass/SafePass.cpp:254-305 | the structural test of a candidate SC against the UC or table entry: always true for SafePass's `findSameSource`, `findSameSourceS` for DynPass, the induction-variable `findPhiInst` in SafePass's sweep, DynPass2's leaf-set `findPhiInst`; each gets its arguments in the order the source passes them |
| Engine.Candidate | src/SRPass/SafePass.cpp:349-353 | a table entry is a phase-2 partner of the current SC when its left count equals the SC's left or right count, it is another SC where every other SC is searched (`BrInfo.id != Info.id` in DynPass), and the pass's test holds |
| Engine.Reduce | src/SRPass/SafePass.cpp:254-264 | a removal records the id with its justifying count and changes no earlier record; it pays for the record with one kept SC and that count; the branch gets a constant condition when there is a regular successor |
| Engine.SweepOne | src/SRPass/SafePass.cpp:250-266 | an entry is recorded exactly when it passes the left/right filter and the test and is not yet recorded |
| Engine.Sweep | src/SRPass/SafePass.cpp:250-280 | every new record carries the UC's justification and comes from a bucket entry passing the filter; with the always-true test every passing entry is recorded |
| Engine.ExactStep | src/SRPass/SafePass.cpp:248-281 | with the UC's reach count as a key, new records come from that bucket with the UC's pair in either order (any pair in the induction-variable sweep); with the always-true test every such pair is removed |
| Engine.UcStep | src/SRPass/SafePass.cpp:236-321 | every removal by one UC is justified by the exact bucket, or else by the left bucket, or else the right bucket, with a zero side on the fallbacks |
| Engine.Phase1 | src/SRPass/SafePass.cpp:236-321 | every record made in phase 1 is justified by some UC |
| Engine.Scan | src/SRPass/SafePass.cpp:349-368 | `is_reduced` holds exactly when some entry of the bucket is a partner; the SC is recorded with its total exactly when it is matched and not yet recorded |
| Engine.Search | src/SRPass/SafePass.cpp:346-370 | the search matches exactly when a partner exists in the searched bucket of the SC's total |
| Engine.ScStep | src/SRPass/SafePass.cpp:339-385 | one SC's phase-2 step records it exactly when it is matched and new; an unmatched SC joins the survivors table (SafePass only); `test1`/`test2` grow exactly for an unmatched, unrecorded SC |
| Engine.Phase2 | src/SRPass/SafePass.cpp:333-387 | every phase-2 record names a walked SC with its total as justification; `test1` grows by at most the number of SCs |
| Engine.ScStepOptGrows | src/SRPass/SafePass.cpp:371-384 | one step only appends to the survivors table |
| Engine.Phase2OptGrows | src/SRPass/DynPass.cpp:204-255 | the survivors table only grows in phase 2, and stays unchanged in the passes that search every other SC |
| Engine.Phase2NotAdded | src/SRPass/SafePass.cpp:333-387 | phase 2 never records an id that none of the walked SCs has |
| Engine.JustifiedByCheck | src/SRPass/SafePass.cpp:236-321 | a phase-1 justification names an SC with that id whose total is the justifying count |
| Engine.Start | src/SRPass/SafePass.cpp:233-234 | before phase 1 nothing is removed, and the kept count and weight are the SC count and summed totals |
| Engine.RunPhase1 | src/SRPass/SafePass.cpp:233-321 | after phase 1 every record names an SC whose total justified it |
| Engine.Phase2ByCheck | src/SRPass/SafePass.cpp:328-387 | after phase 2 every record still names an SC whose total justified it |
| Engine.KeysAreIds | src/SRPass/SafePass.cpp:254-264 | the recorded ids are SC ids, so there are at most as many records as SCs |
| Engine.Finish | src/SRPass/SafePass.cpp:389-391 | the reported counters: after each phase the kept count is SCs − records so far and the kept weight is summed totals − their summed justifications; phase 2 keeps the phase-1 records; 0 ≤ kept after phase 2 ≤ kept after phase 1 ≤ SCs; the SC weight, UC count and UC weight are as read |
| Engine.Run | src/SRPass/SafePass.cpp:120-391 | a whole pass only rewrites checks, keeps the graph well formed, records only SCs with their totals, and reports counters related to the records as in `Finish`, the phase-1 counters (`flagSC_opt`, `costflagSC_opt`) by the records of `RunPhase1`; `test1` ≤ SCs |
| SafePass.Configure | src/SRPass/SafePass.cpp:247-354 | SafePass's configuration of the shared engine: the always-true `findSameSource` in both phases, the induction-variable sweep at every level but L0, and phase 2 searching the survivors table |
| SafePass.Phase1RemovesPairs | src/SRPass/SafePass.cpp:248-266 | phase 1 with the always-true test removes every entry of a UC's exact bucket with the UC's pair |
| SafePass.PairsRemoved | src/SRPass/SafePass.cpp:236-266 | every SC whose left and right counts are a UC's, in either order, with a non-zero total equal to the UC's reach count, is removed |
| SafePass.Phase2KeepsFirst | src/SRPass/SafePass.cpp:333-387 | phase 2 never removes an SC whose total no earlier SC had and which is not yet in the survivors table |
| SafePass.FirstOfTotalKept | src/SRPass/SafePass.cpp:333-387 | the first SC of each total is removed only if phase 1 removed it |
| SafeMatch.FindSameSource | src/SRPass/SafePass.cpp:395-396 | SafePass's same-source test accepts every pair |
| SafePass.AlwaysIsFindSameSource | src/SRPass/SafePass.cpp:395-396 | the engine's always-true test is SafePass's `findSameSource` for every check type and level |
| SafeMatch.SameMemoryLoc | src/SRPass/SafePass.cpp:538-594 | at L0/L1 the two one-node slices have the same static pattern; at L2 the first slice is non-empty, no larger than the second, and each of its nodes matches a node of the second |
| SafeMatch.Match | src/SRPass/SafePass.cpp:543-592 | the L2 node rule: two address computations with as many operands whose operand pairs all pass the index rule |
| SafeMatch.AsanLeaves | src/SRPass/SafePass.cpp:457-483 | the address-sanitizer slice holds only non-expandable nodes at or below the check; a non-expandable node is its own slice |
| SafeMatch.UcLeaves | src/SRPass/SafePass.cpp:506-533 | the other check types' slice holds only nodes that stop it; a stopping node is its own slice |
| SafeMatch.IndexLeaves | src/SRPass/SafePass.cpp:484-501 | the index expansion only collects nodes below the address computation |
| SafeMatch.TrackMemoryLoc | src/SRPass/SafePass.cpp:444-536 | at L0/L1 the slice is one node; above, a ubsan/UC slice holds only stopping nodes; an unknown check type gives the empty slice |
| SafeMatch.UcRefinesAsan | src/SRPass/SafePass.cpp:457-533 | slicing each address-sanitizer leaf further gives the other check types' slice |
| SafeMatch.NonGepBlocksL2 | src/SRPass/SafePass.cpp:543-592 | at L2 a slice holding a non-address-computation never matches, not even itself |
| SafeMatch.SameMemoryLocSymmetricL01 | src/SRPass/SafePass.cpp:538-542 | at L0/L1 the test does not depend on the order of the two slices |
| SafeMatch.GepIndexBlocksMatch | src/SRPass/SafePass.cpp:556-581 | at L2 two address computations do not match when an integer constant index of the first exceeds the second's |
| SafeMatch.GepOperandsBlocked | src/SRPass/SafePass.cpp:569-575 | the operand loop fails from any constant pair where the first exceeds the second |
| StaticPattern.SameStaticPattern | src/SRPass/SafePass.cpp:417-442 | two instructions have the same static pattern when they are the same instruction, or have the same non-merge opcode and as many operands, at least one, each pair identical or two instructions with the same static pattern |
| StaticPattern.SameStaticPatternIsUnfolding | src/SRPass/SafePass.cpp:417-442 | two instructions have the same static pattern exactly when they unfold to the same expression tree |
| StaticPattern.SameStaticPatternEquivalence | src/SRPass/SafePass.cpp:417-442 | the static-pattern test is reflexive, symmetric and transitive |
| StaticPattern.FindSameSourceS | src/SRPass/DynPass.cpp:285-334 | two branches are compared through their conditions, failing unless both are instructions; then identity, or the same non-merge opcode, as many operands (at least one), each pair identical or two instructions with the same source |
| StaticPattern.ConstantOperandSeparates | src/SRPass/DynPass.cpp:313-327 | two different branch conditions whose operands at one position are different constants, in value or in width, never have the same source |
| StaticPattern.DistinctConstantBlocks | src/SRPass/DynPass.cpp:317-327 | the operand loop fails from any position holding a constant that is not the other's operand |
| StaticPattern.FindSameSourceSSymmetric | src/SRPass/DynPass.cpp:285-334 | `findSameSourceS` does not depend on the order of its arguments |
| StaticPattern.FindSameSourceSIsStaticPattern | src/SRPass/DynPass.cpp:285-334 | where no branch is an operand, `findSameSourceS` on two branches is the static pattern of their instruction conditions, and on other pairs the static pattern itself |
| PhiSlice.MergeReach | src/SRPass/SafePass.cpp:633-651 | the SC slice of `findPhiInst` reaches only merge nodes, and contains the start node exactly when it is a merge |
| PhiSlice.FindPhiInstIndVar | src/SRPass/SafePass.cpp:627-688 | `findPhiInst` accepts exactly when the slice is a single merge node that is an induction variable |
| PhiSlice.PhiLeaves | src/SRPass/DynPass2.cpp:477-592 | DynPass2's slice holds only leaves ranked at or below the check; a merge node is its own slice |
| PhiSlice.LeafSetsMatch | src/SRPass/DynPass2.cpp:596-612 | DynPass2's final `findPhiInst` test as written: the two leaf sets have equal sizes, the check's set is non-empty and contained in the other's |
| PhiSlice.LeafSetsMatchIsEquality | src/SRPass/DynPass2.cpp:596-612 | DynPass2's `findPhiInst` accepts exactly when the two leaf sets are equal and non-empty, and so is symmetric |
| PhiSlice.CompareLeafSets | src/SRPass/DynPass2.cpp:596-612 | the comparison loop answers true exactly when the two sets are equal and non-empty |
| PhiSlice.MergeReachIsPhiPart | src/SRPass/DynPass2.cpp:466-612 | the merge nodes SafePass's slice reaches are exactly the merge nodes among DynPass2's leaves |
| Slicer.OperandLeaves | src/SRPass/DynPass.cpp:379-392 | an expanded node's opaque operand joins the fingerprint and a constant operand contributes nothing |
| Slicer.Leaves | src/SRPass/DynPass.cpp:366-396 | the leaves reached are non-expandable graph nodes or opaque values ranked at or below the node; a non-expandable node is its own slice |
| Slicer.TrackMemoryLoc | src/SRPass/DynPass.cpp:342-398 | a branch is sliced from its condition, empty when that is not an instruction; a non-branch without instruction operands has an empty fingerprint |
| Slicer.PrefixLeavesMembership | src/SRPass/DynPass.cpp:379-392 | a value is in an expanded node's slice exactly when one of its operands contributes it |
| Slicer.LeafClassification | src/SRPass/DynPass.cpp:366-396 | a node is a leaf of its own slice exactly when it is not expandable; an expanded node's slice is the union of its operands' contributions and holds its opaque operands |
| Slicer.Expand | src/SRPass/DynPass.cpp:379-392 | expanding a node pushes work that carries exactly its leaves, along fewer paths |
| Slicer.WorkStep | src/SRPass/DynPass.cpp:366-396 | one worklist round keeps fingerprint plus remaining leaves constant and strictly lowers the remaining paths |
| Slicer.TrackMemoryLocWorklist | src/SRPass/DynPass.cpp:342-398 | the worklist ends with the fingerprint `TrackMemoryLoc` defines, whatever element is popped at each step |
| Rewrite.OptimizeCheckAway | src/SRPass/SafePass.cpp:599-617 | only the branch's condition changes; regular successor 0/1 gives the constant condition that takes it, and any other answer leaves the graph as it was |
| Rewrite.OptimizeCheckAwayIdempotent | src/SRPass/DynPass.cpp:616-634 | rewriting a check twice is rewriting it once |
| Rewrite.OptimizeCheckAwayCommutes | src/SRPass/DynPass2.cpp:615-633 | rewriting two different checks gives the same program in either order |
| Rewrite.OptimizeCheckAwayPreservesWF | src/SRPass/StaPass.cpp:410-428 | a rewrite keeps the program well formed |
| Rewrite.RewrittenFingerprintEmpty | src/SRPass/StaPass.cpp:410-428 | a rewritten check's fingerprint is empty |
| Rewrite.RewriteKeepsOtherFingerprints | src/SRPass/StaPass.cpp:410-428 | a rewrite leaves every other check's fingerprint unchanged |
| Rewrite.LeavesUnchanged | src/SRPass/DynPass.cpp:366-396 | programs differing only at a branch that is no operand have the same leaves below every other node |
| DynMatch.FindSameSource | src/SRPass/DynPass.cpp:336-340 | two checks have the same source when their fingerprints have the same memory location |
| DynMatch.SameMemoryLoc | src/SRPass/DynPass.cpp:400-542 | the first fingerprint is non-empty, no larger than the second, and each of its leaves matches some leaf of the second |
| DynMatch.Match | src/SRPass/DynPass.cpp:404-530 | the leaf rules: identical leaves match; otherwise both must be instructions; same opcode and no operands match; distinct merges never; loads by the source of their addresses; address computations by the index rule; same opcode and operand count by identical operands; else some operand of the second leaf must have the first's source |
| DynMatch.SameMemoryLocLoop | src/SRPass/DynPass.cpp:400-542 | the nested loops over the two fingerprints answer `SameMemoryLoc`, whatever order the sets are visited in |
| DynMatch.MatchSome | src/SRPass/DynPass.cpp:404-530 | the inner loop answers whether a leaf matches some leaf of the other fingerprint |
| DynMatch.DistinctPhisNeverMatch | src/SRPass/DynPass.cpp:422-429 | two distinct merge leaves never match |
| DynMatch.GepIndexBlocksMatch | src/SRPass/DynPass.cpp:454-503 | two distinct address computations do not match when an integer constant index of the first exceeds the second's |
| DynMatch.GepOperandsBlocked | src/SRPass/DynPass.cpp:468-481 | the operand loop fails from any constant pair where the first exceeds the second |
| DynMatch.SubsetSameMemoryLoc | src/SRPass/DynPass.cpp:400-542 | a non-empty fingerprint contained in another has the same memory location |
| DynMatch.FindSameSourceReflexive | src/SRPass/DynPass.cpp:336-340 | a check with a non-empty fingerprint has the same source as itself; one with an empty fingerprint matches nothing |
| StaMatch.FindSameSource | src/SRPass/StaPass.cpp:215-240 | two checks have the same source when their fingerprints have the same memory location |
| StaMatch.SameMemoryLoc | src/SRPass/StaPass.cpp:306-407 | the first fingerprint is non-empty, no larger than the second, and each of its leaves matches some leaf of the second |
| StaMatch.Match | src/SRPass/StaPass.cpp:306-407 | two distinct leaves StaPass matches are instructions with the same opcode |
| StaMatch.DistinctPhisNeverMatch | src/SRPass/StaPass.cpp:327-334 | two distinct merge leaves never match |
| StaMatch.LoadMatch | src/SRPass/StaPass.cpp:335-354 | two distinct loads match exactly when they have as many operands and their addresses have the same source, or are the same non-instruction value |
| StaMatch.GepIndexBlocksMatch | src/SRPass/StaPass.cpp:355-379 | two distinct address computations do not match when an integer constant index of the first exceeds the second's |
| StaMatch.GepOperandsBlocked | src/SRPass/StaPass.cpp:365-371 | the operand loop fails from any constant pair where the first exceeds the second |
| StaMatch.SubsetSameMemoryLoc | src/SRPass/StaPass.cpp:306-407 | a non-empty fingerprint contained in another has the same memory location |
| StaMatch.FindSameSourceReflexive | src/SRPass/StaPass.cpp:215-240 | a check with a non-empty fingerprint has the same source as itself; one with an empty fingerprint matches nothing |
| DynPass.Phase2SkipsSelf | src/SRPass/DynPass.cpp:217-237 | phase 2 never removes an SC whose bucket holds only its own entries, since it is never compared with itself |
| DynPass.LoneTotalKept | src/SRPass/DynPass.cpp:204-255 | an SC whose total no other SC has is removed only if phase 1 removed it |
| DynPass2.CheckCost | src/SRPass/DynPass2.cpp:221-228 | a check's cost is the summed price of its cone times its total, an unpriceable instruction costing 1 |
| DynPass2.CostStep | src/SRPass/DynPass2.cpp:221-275 | the cost bookkeeping leaves the phase-2 step as it is, and charges the SC's cost, giving it back when the SC is removed |
| DynPass2.CostPhase2 | src/SRPass/DynPass2.cpp:210-277 | phase 2 with costs reaches the same state as phase 2 without them |
| DynPass2.RemovedCostAgree | src/SRPass/DynPass2.cpp:257-260 | the removed cost depends only on which walked ids are removed |
| DynPass2.RemovedCostBound | src/SRPass/DynPass2.cpp:229-260 | the cost of the removed SCs is at most the cost of all SCs |
| DynPass2.ChargeBooks | src/SRPass/DynPass2.cpp:229-260 | charging one more SC keeps `test3` equal to the removed SCs walked so far, and the two cost sums apart by their cost |
| DynPass2.CostPhase2Books | src/SRPass/DynPass2.cpp:210-277 | that bookkeeping holds over the whole of phase 2 |
| DynPass2.Run | src/SRPass/DynPass2.cpp:42-283 | DynPass2's report is the shared engine's report with its configuration |
| DynPass2.RunBooked | src/SRPass/DynPass2.cpp:42-283 | with distinct ids the whole run keeps the books over all SCs |
| DynPass2.RemovedCounted | src/SRPass/DynPass2.cpp:282-283 | with distinct ids `test3` equals `flagSC - flagSC_opts`, the reduced cost is the total cost less the removed SCs' cost, and it lies between 0 and the total |
| StaPass.Reach | src/SRPass/StaPass.cpp:80-100 | each SC's reach count is left + right from the trace, or 0 when no trace is read |
| StaPass.IndexSumBound | src/SRPass/StaPass.cpp:108-109 | the weight of any set of SCs is at most the weight of all SCs |
| StaPass.LastBranch | src/SRPass/StaPass.cpp:162-180 | the representative is the check itself exactly when no other branch is in its cone; otherwise it is the last such branch |
| StaPass.Rep | src/SRPass/StaPass.cpp:162-180 | a check's representative `SC_tmp`: the last other branch in its cone, or the check itself |
| StaPass.Covers | src/SRPass/StaPass.cpp:181-197 | SC `j` lets SC `i` go when both and their representatives share a function, `j`'s representative block dominates `i`'s or, not being dominated by it, post-dominates it, they differ and have the same source |
| StaPass.NewlyMarkedIff | src/SRPass/StaPass.cpp:156-202 | phase 3 marks exactly the SCs not marked before that another SC of their function covers |
| StaPass.PairRule | src/SRPass/StaPass.cpp:181-197 | the if/else-if pair test fires exactly when SC `i` is unmarked and SC `j` covers it |
| StaPass.Phase3Row | src/SRPass/StaPass.cpp:171-199 | after the inner loop SC `i` is marked exactly when it was already marked or some SC covers it |
| StaPass.NewlyMarkedStep | src/SRPass/StaPass.cpp:156-202 | one outer-loop step adds SC `i` exactly when it is newly covered |
| StaPass.Phase3 | src/SRPass/StaPass.cpp:156-202 | the pair loops mark exactly the set of newly covered SCs |
| StaPass.CoveredByIff | src/SRPass/StaPass.cpp:130-139 | one UC lets go exactly the SCs of its function that it dominates or post-dominates and shares a source with |
| StaPass.UcCovers | src/SRPass/StaPass.cpp:131-134 | UC `u` lets SC `s` go when they share a function, `u`'s block dominates or post-dominates `s`'s, and they have the same source |
| StaPass.UcMarksIff | src/SRPass/StaPass.cpp:123-144 | the corrected UC loop marks exactly the SCs that some UC lets go |
| StaPass.UcRow | src/SRPass/StaPass.cpp:130-141 | the corrected inner loop adds exactly the SCs this UC lets go |
| StaPass.UcLoop | src/SRPass/StaPass.cpp:123-144 | the corrected UC loop computes exactly the set of SCs some UC lets go |
| StaPass.UcMarksAsWritten | src/SRPass/StaPass.cpp:123-144 | the UC loop as written marks at most SC index 0 |
| StaPass.InnerAsWritten | src/SRPass/StaPass.cpp:130-141 | the inner loop as written marks index 0 exactly when the UC lets go some UC |
| StaPass.UcLoopMarksFirstSc | src/SRPass/StaPass.cpp:130-135 | as written, a self-dominating UC with a non-empty slice marks SC 0 even when SC 0 lies in a function without UCs, which the corrected loop never marks |
| StaPass.UcDropsAsWritten | src/SRPass/StaPass.cpp:128-140 | the written loop takes one off `flagSC_opt` per matching UC pair; no drop exactly when nothing is marked, and at most one per pair |
| StaPass.InnerDropsAsWritten | src/SRPass/StaPass.cpp:130-139 | one UC's drops are at most the UC count, and none exactly when it marks nothing |
| StaPass.KeptAfterUcsAsWritten | src/SRPass/StaPass.cpp:118-140 | `flagSC_opt` after the UC loop as written: the SC count less one per matching UC pair, in unsigned 64-bit arithmetic |
| StaPass.UcCounterWrapsAsWritten | src/SRPass/StaPass.cpp:118-140 | as written, a module without SCs and with a self-dominating UC whose slice is non-empty ends the UC loop with a positive `flagSC_opt`, 2^64 − 1 for a lone UC |
| StaPass.MarksGrow | src/SRPass/StaPass.cpp:123-144 | the marks of the written loop only grow as it visits more UCs |
| StaPass.MarkedNodesIff | src/SRPass/StaPass.cpp:203-209 | the rewritten branches are exactly the branches of marked SCs |
| StaPass.RewriteOne | src/SRPass/StaPass.cpp:205-207 | one round rewrites SC `i` only if it is marked and changes nothing else |
| StaPass.RewriteMarked | src/SRPass/StaPass.cpp:203-209 | the final loop leaves every unmarked branch alone and gives each marked SC the condition for its regular successor |
| StaPass.RewriteMarkedKeepsWF | src/SRPass/StaPass.cpp:203-209 | the final loop keeps the program well formed |
| StaPass.Run | src/SRPass/StaPass.cpp:35-213 | the marks are the UC marks plus the phase-3 marks; after the UC loop the kept count is SCs − UC marks and the kept weight is weight − UC-marked weight, after phase 3 SCs − all marks and weight − all marked weight, all between 0 and their starting values; the UC count is the number of UCs; the program is the rewrite of the marked SCs |
| StaPass.NewlyMarkedApart | src/SRPass/StaPass.cpp:181-197 | phase 3 marks only SCs the UC loop left unmarked |
| StaPass.Tally | src/SRPass/StaPass.cpp:136-137 | the marks of the two phases are disjoint, so the counters subtract each mark once |

## Left out

- I/O is not modelled. That covers the coverage trace files, `fread`/`fopen`, the result logs and every `errs()`/`dbgs()` print. The records are parameters instead, in the order the source reads them.
- The percentages printed as floating point are not modelled. They are ratios of counters the model does compute.
- The compiler analyses are oracle parameters. This covers `getRegularBranch`, the target cost model, `getInstructionsBySanityCheck` (the cones), dominator and post-dominator trees, and each instruction's function and block.
- The 64-bit unsigned counters are unbounded integers. `Engine.Finish` shows that the coverage passes' kept counts never drop below zero, so those counters do not wrap. `StaPass.Run` shows the same only for the corrected UC loop of the Findings row, which takes each marked SC off once. The UC loop as written does wrap: `StaPass.UcCounterWrapsAsWritten` models its counter in 64-bit arithmetic. A cost product that would exceed 64 bits is not modelled.
- SafePass.PairsRemoved: the debug override in SafePass ingestion (src/SRPass/SafePass.cpp:132-135) is left out. Whenever a record with an id from 53 to 69 is read, it inserts an entry for id 63 into `reducedSC`. Every removal first asks `reducedSC.count(id) == 0` (src/SRPass/SafePass.cpp:254, 269, 287, 305, 356), so check 63 is then never rewritten nor taken off the counters, and `test1`/`test2` skip it (line 380). In the source `SafePass.PairsRemoved`, `SafePass.Phase1RemovesPairs` and the engine's counters therefore do not hold for id 63 once such a record is read; the model treats 63 like any other id.
- SafePass's cost-level table (src/SRPass/SafePass.cpp:160-231) is left out. Its cost ranking is computed but never used in a decision.
- SafePass's `findSameSource` returns before calling its slicer and matcher. So SafePass removals never depend on `SafeMatch.TrackMemoryLoc` or `SafeMatch.SameMemoryLoc`; those are modelled as they stand.
- `SafeMatch.SameMemoryLoc` is defined at levels L0, L1 and L2 only. At any other level the source's function returns no value.
- SafePass `findPhiInst` slices the UC (src/SRPass/SafePass.cpp:653-671) but never uses that slice. The model has only the SC slice.
- DynPass `findPhiInst` (src/SRPass/DynPass.cpp:545-614) is left out. Its one call sits under `&& false` (src/SRPass/DynPass.cpp:140), so it never decides anything.
- StaPass.Run: without a trace file StaPass still calls `fclose` on the null handle (src/SRPass/StaPass.cpp:112). That is undefined behaviour, typically a crash, before the UC loop runs. The model instead completes the pass with zero reach counts, which is what the `read` flag of src/SRPass/StaPass.cpp:65-68 evidently intends.
- Some StaPass inputs are not modelled:
  - `SC_Stat` as a map from instructions is replaced by enumeration indices.
  - The debug prints keyed by specific ids are dropped.
  - Phase 3 runs its pair loops per function. The model runs them over all SCs and filters on the function.
  - The two agree because whether SC `i` is marked depends only on its own earlier mark.
- `SafePass.FirstOfTotalKept`, `DynPass.LoneTotalKept`, `DynPass2.RunBooked` and `DynPass2.RemovedCounted` require all SC ids to be distinct. The source does not demand this, but every id names one check.
- Engine.Run: the kept weight is stated as summed totals minus the summed justifications. It is not proved non-negative for duplicate ids.
- Engine.Run: `test1` is only bounded by the SC count, and `test2` is not constrained. Neither is related to the kept counters.
- StaticPattern.FindSameSourceSIsStaticPattern: assumes no branch is used as an operand, as holds in the compiler IR.
- PhiSlice.MergeReachIsPhiPart: assumes branches carry only their condition as an instruction operand, as holds in the compiler IR.

## Findings

| source | as written | input that shows it | evidently intended | confidence | as-written member | corrected member |
|---|---|---|---|---|---|---|
| src/SRPass/StaPass.cpp:130-135 | The inner loop of the UC loop walks `getUCBranches` again instead of the SCs. `SC_Stat[SC]` for a UC is then a fresh default entry whose index is 0, so the only SC it can mark is index 0. It also decrements `flagSC_opt` once per matching pair. | A UC with a non-empty slice whose block dominates itself, in a function that does not contain SC 0: SC 0 is marked, and the counter drops once per such pair. In a module with no SCs and one such UC, `flagSC_opt` goes from 0 to 2^64 − 1. | Compare each UC with the SCs of its function (`getSCBranches`), and mark and count each such SC once. Line 136 has no `reducedSC` test, so even with `getSCBranches` two UCs covering one SC would subtract it twice; the corrected loop counts marks, not pairs. | high; not executed | StaPass.UcMarksAsWritten, StaPass.UcLoopMarksFirstSc, StaPass.UcCounterWrapsAsWritten | StaPass.UcLoop, StaPass.UcMarksIff (used by StaPass.Run) |
