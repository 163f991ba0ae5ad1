# Verified models of ONNX Runtime components

This project models, in Dafny, the parts of ONNX Runtime whose correctness rests on invariants that
run through several functions, and proves those invariants. `dafny verify dfyconfig.toml` checks
everything.

**Allocation planner** (`Planner*.dfy`, `Executor.dfy`, `PlanCorrect.dfy`, `PlanSharing.dfy`,
`PlanDataflow.dfy`, `Prelude.dfy`). The sequential planner counts the uses of every value of a topologically sorted
graph, decides for every node output whether it gets its own buffer or takes that of an input
(alias, in-place, Loop pass-through) or of a dead value (free list), and turns the free list into a
deallocation schedule. `Planner.Planner` is the planner as a class: counts, buffer indices, kinds,
free list and plan are fields that its methods update phase by phase. `PlannerState` says what each
step does to that state as a function, and `PlannerRules` in which order its rules apply.
`PlannerAccounting` and `PlannerLiveness` prove the accounting invariant over every run of planning
steps, `PlannerSizes` the size invariant under every valuation of symbolic dimensions,
`PlannerFence` which nodes check fences, `PlannerWeights` where initializers go, `PlannerKinds` how
each value is allocated, `PlannerOrder` in which order buffers are kept, `PlannerSchedule` what the
index ranges of the schedule contain and `PlannerFirstStep` for which graphs it forgets a buffer.
`Executor` defines execution of a graph in memory, with shared buffers and releases or with one
private buffer per value; `PlannerExecution` and `PlanCorrect` prove that the two compute the same,
`PlanSharing` that what shares a buffer while it is needed is equal, and `PlanDataflow` that it is
the solution of the graph's equations. `PlannerNumbering` says what follows from looking up the
pairs of an output under its number among the outputs that are present.

**Thread pool** (`ThreadPool.dfy`, `Batching.dfy`). `ParallelFor` as a state machine over the steps
of the caller and the pool threads, with every interleaving considered; `BatchParallelFor` and
`ParallelForRange` as the work they hand to that machine, with bounds computed in 32 bits.

**MurmurHash3** (`MurmurHash3.dfy`). The 32-bit hash on bit-vectors, with inverses for every stage.

**UTF-8 and tokenizer** (`Utf8.dfy`, `Utf8Scalars.dfy`, `TokenTable.dfy`, `CharTokenizer.dfy`,
`Separator*.dfy`, `Expression*.dfy`). The validator against the grammar and the scalar values it
encodes, and three tokenizers that depend on it. Compiled regular expressions are arbitrary
functions from a text and a position to the next match, including empty matches and matches that cut
characters apart. `SeparatorComplete` and `ExpressionTokens` say which tokens there are, in terms of
the positions a search visits.

**Word convolution embedding** (`WordConvSpec.dfy`, `WordConvMeaning.dfy`, `WordConv.dfy`,
`WordConvBatch.dfy`). The per-word definition, what it means for the flat inputs, and the batched
computation over flat buffers that refines it. Numbers are reals; the matrix product is row by row;
the activation is any function.

**Tensor messages** (`TensorSize.dfy`, `TensorBytes.dfy`, `TensorProto.dfy`, `TensorMeaning.dfy`).
Overflow-checked sizes in 64-bit arithmetic, element bytes and widened fields, packing and
unpacking.

**JSON errors** (`JsonError.dfy`). Escaping, and readers for strings by the rules of RFC 8259 and for
the error object.

Where the code does less than one would expect, the code is followed, and a theorem says exactly
when that matters:

- the deallocation schedule lists buffers that die at step 0 but puts them in no step's range
  (`PlannerFirstStep.UnaskedNeverReleased` is a graph where it happens; `AllReleasedIff`,
  `AllReleasedIfAllUsed` and `ParallelAllReleasedIff` say for which plans and graphs it does not);
- the UTF-8 validator accepts C0 and C1 as leads of two-byte sequences (`Utf8.OverlongAccepted`,
  `Utf8.RfcValidIff`), and the counting of characters takes bytes from F8 on for leads of four
  (`Utf8Scalars.LeadLengthIsOnes`);
- `BatchParallelFor` computes its bounds in 32 bits (`Batching.OverflowWitness`,
  `Batching.BatchParallelForCallsEachOnce`);
- `ParallelForRange` leaves out the last index of intervals of one or two indices
  (`Batching.ParallelForRangeIff`; the interval is documented with both ends);
- alias and in-place pairs name outputs by index, and the planner looks them up under a number that
  skips missing outputs: an output may be placed in a buffer that is too small
  (`PlannerNumbering.MisnumberedOverwrites`, `PlannerSizes.OverwriteSizeIff`,
  `PlannerSizes.SharersHaveEqualSize`) or share one without being declared an alias
  (`PlannerNumbering.MisnumberedAliases`, `PlannerNumbering.DeclarationsDoIff`);
- an empty match of a separator at the end of a text moves the search out of the text
  (`SeparatorTokens.AtEndLeaves`; `SeparatorTokens.LeftmostSplitIff` by one search before the call,
  `SeparatorScan.StaysInsideIff` for all ways of finding matches);
- an empty match in front of a byte that leads no character repeats one round for ever
  (`SeparatorTokens.FirstByteNeverEnds`, `ExpressionTokenizer.SecondByteNeverEnds`;
  `SeparatorScan.StuckIffStandstill`; searches that respect characters never do);
- a filter wider than the word length leaves the convolution buffers too small
  (`WordConv.WideFilterOverruns`, `WordConv.RoomIffSuffices`);
- packing a string tensor without elements adds one empty string, so that it cannot be unpacked
  (`TensorProto.EmptyStringTensorFails`, `TensorProto.RoundTrip`).

## Model

| member | source | states |
|---|---|---|
| `PlanCorrect.PlanComputesTheSame` | onnxruntime/core/framework/allocation_planner.cc:524-697 | for every well-formed graph, every kernel function that copies an input to the output for which the planner takes it as alias, and every initial memory: running the nodes in the planned shared buffers and releasing what the deallocation schedule says lets each node find all its arguments, with the same contents, and the caller the same graph outputs as running with one private buffer per value and no releases |
| `PlanCorrect.DeclaredPlanComputesTheSame` | onnxruntime/core/framework/allocation_planner.cc:524-697 | the same for kernels that honour their alias declarations by output index, on graphs where the planner finds no alias under an output's number that is not declared for its index |
| `PlanDataflow.PlanSolves` | onnxruntime/core/framework/allocation_planner.cc:524-697 | what the planned run leaves in the buffers of the graph outputs is the solution of the equations of the graph: the caller's values, and each node's outputs being what its kernel makes of the values of its arguments |
| `PlanDataflow.SolutionUnique` | onnxruntime/core/framework/allocation_planner.cc:551-622 | these equations have at most one solution on the values of the graph |
| `PlanDataflow.SolutionExists` | onnxruntime/core/framework/allocation_planner.cc:551-622 | and they have one |
| `PlanDataflow.ReleasedAreGone` | onnxruntime/core/framework/allocation_planner.cc:671-697 | what a step releases is not in memory afterwards |
| `PlanSharing.NothingLiveIsLost` | onnxruntime/core/framework/allocation_planner.cc:230-346 | whenever an output is given the buffer of an earlier value, that value has no use after the node or holds the same content as the output |
| `PlanSharing.LiveSharersEqual` | onnxruntime/core/framework/allocation_planner.cc:230-346 | at every step, two values in one buffer that both have a use to come have the same content when each has a buffer to itself |
| `PlanSharing.LiveRangesDisjoint` | onnxruntime/core/framework/allocation_planner.cc:230-346 | an output takes the buffer of an earlier value only as its alias or once that value has no use after the node |
| `PlanSharing.CopySharersEqual` | onnxruntime/core/framework/allocation_planner.cc:215-228 | when an output is placed by aliasing or sharing, everything else in the buffer that has a later use holds the same content as the output |
| `PlannerExecution.PlannedRunAgrees` | onnxruntime/core/framework/allocation_planner.cc:524-624 | before every step, each placed value with a use still to come is found in its planned buffer with the content its private buffer has |
| `PlannerExecution.SameReads` | onnxruntime/core/framework/allocation_planner.cc:551-622 | every node reads the same inputs and implicit inputs from planned and private buffers |
| `PlannerExecution.SameResults` | onnxruntime/core/framework/allocation_planner.cc:551-622 | at the end every graph output and every caller-owned value holds the same content in both executions |
| `PlannerExecution.CallerUndisturbed` | onnxruntime/core/framework/allocation_planner.cc:536-546 | buffers of graph inputs, outer-scope values and initializers hold at the end what the caller put there |
| `PlannerExecution.NodeAgrees` | onnxruntime/core/framework/allocation_planner.cc:558-593 | one node, executed from agreeing memories with its outputs written in order over shared buffers, reads the same and leaves agreeing memories |
| `PlannerExecution.FreeingKeeps` | onnxruntime/core/framework/allocation_planner.cc:669-697 | releasing the buffers scheduled for a step destroys no content that is still needed |
| `PlannerExecution.PlacementsHarmless` | onnxruntime/core/framework/allocation_planner.cc:230-346 | in every plan: a fresh output shares with no earlier value; an in-place output takes a buffer whose only outstanding use is that node's own read of that slot; a recycled buffer has no outstanding use at all |
| `PlannerNumbering.NumberingExactIff` | onnxruntime/core/framework/allocation_planner.cc:556-560 | the number the planner gives an output, which is used to look up alias and in-place pairs, is its index for all outputs present if and only if missing outputs come last |
| `PlannerNumbering.DeclarationsDoIff` | onnxruntime/core/framework/allocation_planner.cc:215-228 | for every node but Identity: every kernel that honours its declarations by index does what the planner relies on if and only if no alias is found under a number that is not declared for the index |
| `PlannerNumbering.DeclaredSuffices` | onnxruntime/core/framework/allocation_planner.cc:215-228 | on graphs where that holds of every node, kernels that honour their declarations by index meet the assumption of the theorems about execution |
| `PlannerNumbering.MissingLastNumbers` | onnxruntime/core/framework/allocation_planner.cc:556-560 | it holds, for aliases and for in-place pairs, of nodes whose missing outputs come last |
| `PlannerNumbering.NoPairsNumber` | onnxruntime/core/framework/allocation_planner.cc:556-560 | and of nodes whose kernels declare no pairs, wherever outputs are missing |
| `PlannerNumbering.MisnumberedWellFormed` | onnxruntime/core/framework/allocation_planner.cc:208-248 | a graph with a node of outputs missing, 1 and 2 and a node before it that makes its input is a legal input of the planner, whatever its kernel declares |
| `PlannerNumbering.MisnumberedOverwrites` | onnxruntime/core/framework/allocation_planner.cc:230-248 | with the pair (0, 1) for in-place reuse, in every run and under every sizing, value 2 of 32 bytes takes the buffer of value 0 of 16 bytes, because value 1 was compared |
| `PlannerNumbering.MisnumberedAliases` | onnxruntime/core/framework/allocation_planner.cc:215-228 | with the pair (0, 1) as an alias, in every run value 2 shares the buffer of value 0, which its declaration does not allow |
| `PlannerAccounting.StartAccounted` | onnxruntime/core/framework/allocation_planner.cc:362-474 | after the counting phase each count is the number of reads, the production and the permanent uses of the value, and each value is its own root |
| `PlannerAccounting.ReuseKeeps` | onnxruntime/core/framework/allocation_planner.cc:191-204 | moving a value onto another's root buffer keeps counts, one-hop roots and the free list consistent |
| `PlannerAccounting.PlaceKeeps` | onnxruntime/core/framework/allocation_planner.cc:558-593 | giving one output a place, by whichever rule applies, keeps the accounting invariant for the enlarged set of placed values |
| `PlannerAccounting.ReleaseKeeps` | onnxruntime/core/framework/allocation_planner.cc:594-621 | giving back one use keeps the invariant: the root goes on the free list exactly when its last use is gone |
| `PlannerAccounting.NodeKeeps` | onnxruntime/core/framework/allocation_planner.cc:551-622 | planning one node leads from the invariant before the step to the invariant after it |
| `PlannerAccounting.RunAccounted` | onnxruntime/core/framework/allocation_planner.cc:524-624 | at every step of every run: buffers are one hop from a root, each root's count equals the outstanding uses of the values living in it (so none is negative), and the free list holds exactly the placed roots without uses, each once |
| `PlannerAccounting.UseCountMeaning` | onnxruntime/core/framework/allocation_planner.cc:163-204 | a root's count is the sum, over all values mapped to it, of their outstanding reads, production token and permanent tokens |
| `PlannerAccounting.UsesMeaning` | onnxruntime/core/framework/allocation_planner.cc:362-474 | the uses of a value are one for each slot of a node to come that holds it, one if the caller owns it, however often it is listed, and one for each time it is a graph output |
| `PlannerLiveness.RunFreeList` | onnxruntime/core/framework/allocation_planner.cc:594-621 | at every step the free list is ordered by deallocation point, and each entry's point is the last step that uses any value of its class |
| `PlannerOrder.RunInOrder` | onnxruntime/core/framework/allocation_planner.cc:594-621 | at every step of every run, of two listed buffers that one node freed the one whose last argument, counted through inputs, implicit inputs and outputs, comes later is first; with the points this fixes the order of the list |
| `PlannerLiveness.FreedExactlyWhenUnowned` | onnxruntime/core/framework/allocation_planner.cc:369-387 | a value is on the final free list if and only if it is a root and nothing living in it is owned by the caller or is a graph output |
| `PlannerLiveness.RunLeavesBuffers` | onnxruntime/core/framework/allocation_planner.cc:551-622 | once a value is placed its buffer never changes again |
| `PlannerKinds.RunSettles` | onnxruntime/core/framework/allocation_planner.cc:524-593 | at every step of every run, said of the graph and the buffers: a value made by a node is shared if and only if it is a graph output that an Identity in a Loop body hands on from the caller, an allocated output if and only if it is another graph output, reused if and only if it is no graph output and not in its own buffer, and allocated otherwise; initializers that are read are static, other values of the caller exist already |
| `PlannerKinds.HandsOnIff` | onnxruntime/core/framework/allocation_planner.cc:563-579 | the test on the state that decides about sharing is a test on the graph |
| `PlannerSizes.SameSizeSound` | onnxruntime/core/framework/allocation_planner.cc:252-321 | values the static test calls equal in size have equal byte size under every valuation of the symbolic dimensions, and neither is a string tensor |
| `PlannerSizes.SameSizeIff` | onnxruntime/core/framework/allocation_planner.cc:252-321 | the static test passes if and only if neither value holds strings, the element sizes are equal and the shapes are known, of equal rank, with dimensions that have values or names and are equal under every valuation |
| `PlannerSizes.SharersHaveEqualSize` | onnxruntime/core/framework/allocation_planner.cc:252-346 | under every valuation every placed value has the byte size of the root it lives in, through any chain of alias, in-place and recycled reuse, for graphs whose in-place pairs are found under a number only if the output of that number has the size of the one placed |
| `PlannerSizes.OverwriteSizeIff` | onnxruntime/core/framework/allocation_planner.cc:230-248 | an output that overwrites an input passes the static size test against it if and only if it passes it against the output the planner compared, the one whose index is its number |
| `PlannerSizes.ReusedHasSize` | onnxruntime/core/framework/allocation_planner.cc:230-346 | whatever is overwritten or taken from the free list passes the static size test against the output |
| `PlannerSizes.RecycledServes` | onnxruntime/core/framework/allocation_planner.cc:324-346 | in every run a recycled buffer is at the location of the value put there and as large, the plan is sequential, the value needs no fence, and no buffer before it on the list has that location and size |
| `PlannerSizes.StringsNeverReused` | onnxruntime/core/framework/allocation_planner.cc:284-298 | no in-place or recycled placement involves a string tensor, under the same condition on the node |
| `PlannerSchedule.ReleasesExactly` | onnxruntime/core/framework/allocation_planner.cc:682-696 | a step's index range holds exactly the entries whose deallocation point is that step, except that step 0 releases none |
| `PlannerSchedule.RangesInOrder` | onnxruntime/core/framework/allocation_planner.cc:682-696 | the ranges of different steps are disjoint and ordered by step |
| `PlannerSchedule.ReleasedOnce` | onnxruntime/core/framework/allocation_planner.cc:682-696 | no buffer is released twice |
| `PlannerSchedule.CoveredIff` | onnxruntime/core/framework/allocation_planner.cc:682-696 | an entry is in some step's range if and only if it did not die at step 0 |
| `PlannerSchedule.AllReleasedIffNoneDiesFirst` | onnxruntime/core/framework/allocation_planner.cc:682-696 | every entry of a list is released by some step if and only if no entry dies at step 0; which graphs have such plans is said by PlannerFirstStep |
| `PlannerFirstStep.DiesFirstIff` | onnxruntime/core/framework/allocation_planner.cc:594-621 | in every run the final free list has an entry that died at step 0 if and only if an output of the first node that no later node mentions and that is no graph output has a buffer to itself for good |
| `PlannerFirstStep.AllReleasedIff` | onnxruntime/core/framework/allocation_planner.cc:671-697 | every dead buffer of a plan is released by some step if and only if there is no such output |
| `PlannerFirstStep.AllReleasedIfAllUsed` | onnxruntime/core/framework/allocation_planner.cc:671-697 | on the graph alone: if every output of the first node is mentioned by a later node or is a graph output, every dead buffer is released |
| `PlannerFirstStep.DiesFirstIfLeftBehind` | onnxruntime/core/framework/allocation_planner.cc:671-697 | on the graph alone: an unused output of the first node that aliases no input and whose size fits no later output makes a buffer that no step releases |
| `PlannerFirstStep.ParallelAllReleasedIff` | onnxruntime/core/framework/allocation_planner.cc:671-697 | for plans made for parallel execution the condition on the graph is exact: every dead buffer is released if and only if no unused output of the first node is without an alias |
| `PlannerFirstStep.UnaskedNeverReleased` | onnxruntime/core/framework/allocation_planner.cc:671-697 | one node without inputs whose output nobody asks for: every run ends with one dead buffer, which no schedule releases |
| `PlannerFirstStep.FirstNeverOverwrites` | onnxruntime/core/framework/allocation_planner.cc:230-248 | the first node never overwrites an input in place, because the caller keeps a use of it |
| `PlannerFirstStep.OutputBuffer` | onnxruntime/core/framework/allocation_planner.cc:558-593 | the final buffer of every output is its own or that of the value its placement names |
| `PlannerFence.RunNamesOwners` | onnxruntime/core/framework/allocation_planner.cc:191-204 | at every step of every run a value that reuses or shares a buffer names the owner of the buffer it lives in, and any other value owns its buffer |
| `PlannerFence.NodeFenceIff` | onnxruntime/core/framework/allocation_planner.cc:626-667 | a node checks fences if and only if a value it touches needs one, or the owner of the buffer that value lives in does; a value passed through by a Loop counts only itself |
| `PlannerSchedule.ScheduleIsSafe` | onnxruntime/core/framework/allocation_planner.cc:671-697 | everything a step releases is on the final free list with that step as its point |
| `PlannerRules.FindAliasFirst` | onnxruntime/core/framework/allocation_planner.cc:215-228 | the alias found is the first pair for the output whose input is present |
| `PlannerRules.FindInplaceFirst` | onnxruntime/core/framework/allocation_planner.cc:230-248 | the in-place input found is the first one for the output that is present, has count one and the same size |
| `PlannerRules.DecisionInPriority` | onnxruntime/core/framework/allocation_planner.cc:558-593 | each placement rule is applied exactly when no earlier rule applies and takes its first candidate, said of slots, pairs, counts, locations and sizes: graph outputs, non-tensors, aliases, in-place inputs, free buffers (known shape, no fence, sequential plan), a new buffer |
| `PlannerState.FindAliasFinds` | onnxruntime/core/framework/allocation_planner.cc:215-228 | an alias is found if and only if some pair applies |
| `PlannerState.FindInplaceFinds` | onnxruntime/core/framework/allocation_planner.cc:230-248 | an in-place input is found if and only if some pair applies and its input may be overwritten |
| `PlannerState.FindFreeFinds` | onnxruntime/core/framework/allocation_planner.cc:330-344 | the free buffer found is the first of equal location and size |
| `PlannerState.DecideJustified` | onnxruntime/core/framework/allocation_planner.cc:558-593 | every placement decision satisfies the conditions of the rule it was made by |
| `Planner.CompareShapes` | onnxruntime/core/framework/allocation_planner.cc:252-271 | the loop decides whether the shapes agree dimension by dimension in known values or non-empty names |
| `Planner.CompareSizes` | onnxruntime/core/framework/allocation_planner.cc:284-321 | unknown shapes, strings and different element sizes are never equal |
| `Planner.Planner.constructor` | onnxruntime/core/framework/allocation_planner.cc:348-360 | all counts, buffers and plans start empty |
| `Planner.Planner.ProcessDef` | onnxruntime/core/framework/allocation_planner.cc:182-188 | the value starts with no use and in its own buffer; nothing else changes |
| `Planner.Planner.DefineOwned` | onnxruntime/core/framework/allocation_planner.cc:369-387 | each of the values gets its own buffer and exactly one use, however often it is listed |
| `Planner.Planner.DefineCallerOwned` | onnxruntime/core/framework/allocation_planner.cc:369-387 | after the caller's values are defined, counts and buffers are those of step 0 |
| `Planner.Planner.AddUses` | onnxruntime/core/framework/allocation_planner.cc:416-444 | each count rises by the number of times the value occurs among the arguments present |
| `Planner.Planner.DefineOutputs` | onnxruntime/core/framework/allocation_planner.cc:446-456 | the outputs present are defined, each with its production counted |
| `Planner.Planner.CountNode` | onnxruntime/core/framework/allocation_planner.cc:389-456 | counts and buffers move on by exactly one node |
| `Planner.Planner.CountNodes` | onnxruntime/core/framework/allocation_planner.cc:389-467 | fails if and only if some node has no kernel or no execution provider |
| `Planner.Planner.CountOutputs` | onnxruntime/core/framework/allocation_planner.cc:469-471 | graph outputs add the caller's use; every count is then the number of all uses to come |
| `Planner.Planner.ComputeUseCounts` | onnxruntime/core/framework/allocation_planner.cc:362-474 | fails if and only if some node has no kernel or no execution provider; otherwise every count is the number of all uses to come and every value is in its own buffer |
| `Planner.Planner.MarkWeights` | onnxruntime/core/framework/allocation_planner.cc:490-510 | after each node exactly the initializers read so far are marked as allocated statically; their places are chosen by PlannerWeights.LocateWeights |
| `PlannerWeights.LocateWeights` | onnxruntime/core/framework/allocation_planner.cc:490-522 | an initializer is given a place if and only if some node reads it: the one all its readers want if they agree, else the CPU, in whatever order they are met |
| `PlannerWeights.Choose` | onnxruntime/core/framework/allocation_planner.cc:507-519 | the first place if all are equal, else the CPU |
| `PlannerWeights.PlacedIffStatic` | onnxruntime/core/framework/allocation_planner.cc:507-511 | the values given a place are exactly those marked as allocated statically |
| `Planner.Planner.SetInitialKinds` | onnxruntime/core/framework/allocation_planner.cc:529-549 | caller-owned values exist already, initializers that are read are allocated statically |
| `Planner.Planner.Reuse` | onnxruntime/core/framework/allocation_planner.cc:191-204 | the value moves to the root of the other, which takes over its uses; the two are never the same value |
| `Planner.Planner.FindReusableInput` | onnxruntime/core/framework/allocation_planner.cc:207-250 | the search returns the alias or in-place input the rules select |
| `Planner.Planner.SearchFree` | onnxruntime/core/framework/allocation_planner.cc:330-344 | the search returns the first fitting entry of the free list |
| `Planner.Planner.FindReusableTensor` | onnxruntime/core/framework/allocation_planner.cc:324-346 | a fitting free buffer is found and taken off the list, unless the shape is unknown or a fence is needed |
| `Planner.Planner.PlaceTensor` | onnxruntime/core/framework/allocation_planner.cc:582-591 | a tensor that is no graph output is placed as decided |
| `Planner.Planner.PlaceValue` | onnxruntime/core/framework/allocation_planner.cc:560-591 | one output is placed as decided |
| `Planner.Planner.PlaceOne` | onnxruntime/core/framework/allocation_planner.cc:558-593 | one output slot is handled as specified, missing outputs included |
| `Planner.Planner.PlaceAll` | onnxruntime/core/framework/allocation_planner.cc:557-593 | all outputs of a node are placed in order |
| `Planner.Planner.GiveBackOne` | onnxruntime/core/framework/allocation_planner.cc:598-600 | one use is given back, the root being freed at zero |
| `Planner.Planner.GiveBack` | onnxruntime/core/framework/allocation_planner.cc:594-621 | the uses of all arguments present are given back in order |
| `Planner.Planner.PlanNode` | onnxruntime/core/framework/allocation_planner.cc:551-622 | one step of the plan is computed |
| `Planner.Planner.ComputeReusePlan` | onnxruntime/core/framework/allocation_planner.cc:524-624 | the loop produces a run of the planning steps, to which all theorems about runs apply |
| `Planner.Planner.GenerateDeallocationPlan` | onnxruntime/core/framework/allocation_planner.cc:671-697 | the loop produces the schedule of the final free list |
| `Planner.Planner.HasFence` | onnxruntime/core/framework/allocation_planner.cc:626-642 | an argument has a fence if and only if it is present and needs one itself or by the buffer it reuses |
| `Planner.Planner.AnyFence` | onnxruntime/core/framework/allocation_planner.cc:651-661 | some argument of a list has a fence |
| `Planner.Planner.ComputeFenceCheck` | onnxruntime/core/framework/allocation_planner.cc:644-667 | exactly the nodes that touch a value with a fence are marked |
| `Planner.Planner.CreatePlan` | onnxruntime/core/framework/allocation_planner.cc:707-733 | planning fails if and only if a node has no kernel or no execution provider; otherwise the state is the end of a run, every value is allocated as PlannerKinds says of the graph and the final buffers, the nodes with fences are marked and the schedule is that of the free list |
| `ThreadPool.StartInvariant` | onnxruntime/core/common/threadpool.cc:46-54 | the state on entry satisfies the fork/join invariant |
| `ThreadPool.StepKeepsInvariant` | onnxruntime/core/common/threadpool.cc:35-58 | every step of the caller or a pool thread keeps: the barrier counts the iterations not yet notified, and the log holds exactly the calls made |
| `ThreadPool.ExecutionInvariant` | onnxruntime/core/common/threadpool.cc:35-58 | the invariant holds in every state of every interleaving |
| `ThreadPool.ReturnMeansDone` | onnxruntime/core/common/threadpool.cc:35-58 | whenever the caller has returned, every scheduled iteration has finished and notified, and every call has been made exactly as often as asked for |
| `ThreadPool.StepDecreasesWork` | onnxruntime/core/common/threadpool.cc:35-58 | every step strictly decreases a non-negative measure of pending work |
| `ThreadPool.NoDeadlock` | onnxruntime/core/common/threadpool.cc:35-58 | with at least one pool thread some step is possible until the caller has returned |
| `ThreadPool.ThreadsBound` | onnxruntime/core/common/threadpool.cc:35-58 | in every state of every interleaving no more iterations run than the pool has threads |
| `Batching.CallRange` | onnxruntime/core/common/threadpool.cc:81-87 | the loop of a batch calls each index of its interval once, in order |
| `Batching.RunBatch` | onnxruntime/core/common/threadpool.cc:81-87 | an iteration of the last branch calls the interval between its two bounds, as 32-bit products and truncating division give them |
| `Batching.BatchesTile` | onnxruntime/core/common/threadpool.cc:81-87 | while the largest product fits 32 bits, the batches' intervals together call each index below the total exactly once and no other index |
| `Batching.BatchWorkCoversIff` | onnxruntime/core/common/threadpool.cc:60-88 | over all branches the function is called exactly once on each index below the total, and on nothing else, if and only if total times batches fits 32 bits where it is computed |
| `Batching.BatchesBalanced` | onnxruntime/core/common/threadpool.cc:60-88 | without overflow there are as many iterations as batches, or one, or one for each index, as the branches say, and no batch is more than one index longer than another |
| `Batching.RangeAt` | onnxruntime/core/common/threadpool.cc:84-86 | a batch calls one index after the other |
| `Batching.Wrap32Congruent` | onnxruntime/core/common/threadpool.cc:82-83 | a wrapped product differs from the product by a multiple of 2^32 |
| `Batching.QuotientTruncates` | onnxruntime/core/common/threadpool.cc:82-83 | the division leaves a rest smaller than the divisor, with the sign of the dividend |
| `Batching.OverflowSkipsLast` | onnxruntime/core/common/threadpool.cc:82-83 | when that product overflows, with two's complement wrap-around, the last index is in no batch |
| `Batching.OverflowWitness` | onnxruntime/core/common/threadpool.cc:82-83 | 65536 indices in 32768 batches are such a case |
| `Batching.ParallelForCallsEachOnce` | onnxruntime/core/common/threadpool.cc:35-58 | in every interleaving ParallelFor has called each index exactly once when it returns |
| `Batching.BatchParallelForCallsEachOnce` | onnxruntime/core/common/threadpool.cc:60-88 | in every interleaving BatchParallelFor has called each index exactly once, and nothing else, when it returns, if and only if total times batches fits 32 bits where it is computed |
| `Batching.NoOverflowIff` | onnxruntime/core/common/threadpool.cc:82-83 | no bound overflows 32 bits if and only if the product of total and batch count fits in 32 bits |
| `Batching.ParallelForRangeIff` | onnxruntime/core/common/threadpool.cc:90-112 | in every interleaving ParallelForRange calls the function once on every index of the documented interval, both ends included, if and only if the interval is empty or has more than two indices; of shorter ones the last index is not called |
| `MurmurHash3.Compute` | onnxruntime/contrib_ops/cpu/murmur_hash3.cc:111-164 | the loop over blocks addressed backwards, the tail and the finalization compute the hash function |
| `MurmurHash3.FoldTail` | onnxruntime/contrib_ops/cpu/murmur_hash3.cc:138-146 | the fall-through cases build the little-endian word of the remaining bytes |
| `MurmurHash3.MixKeyInverse` | onnxruntime/contrib_ops/cpu/murmur_hash3.cc:125-127 | scrambling a block can be undone |
| `MurmurHash3.MixBlockInverse` | onnxruntime/contrib_ops/cpu/murmur_hash3.cc:129-131 | absorbing a known block can be undone |
| `MurmurHash3.FmixInverse` | onnxruntime/contrib_ops/cpu/murmur_hash3.cc:73-81 | the finalization mix has a left inverse |
| `MurmurHash3.UnfmixInverse` | onnxruntime/contrib_ops/cpu/murmur_hash3.cc:73-81 | and the same function is its right inverse |
| `MurmurHash3.SeedBijection` | onnxruntime/contrib_ops/cpu/murmur_hash3.cc:111-164 | for every key the hash is a bijection between seeds and hash values |
| `MurmurHash3.KnownHashes` | onnxruntime/test/contrib_ops/murmur_hash3_test.cc:27-92 | the hashes of the number 3 under seeds 0 and 42 and of foo under seed 0 are the expected ones |
| `MurmurHash3.KnownLongHash` | onnxruntime/contrib_ops/cpu/murmur_hash3.cc:111-164 | the hash of Hello, world! under seed 0, three blocks and a tail, is the published one |
| `MurmurHash3.OneBlockNeverCollides` | onnxruntime/contrib_ops/cpu/murmur_hash3.cc:111-164 | keys of equal length that differ inside a single block have different hashes under every seed |
| `MurmurHash3.TailNeverCollides` | onnxruntime/contrib_ops/cpu/murmur_hash3.cc:134-151 | keys of equal length that differ only after the last whole block have different hashes under every seed |
| `Utf8.LeadBytes` | onnxruntime/core/common/utf8_util.h:13-32 | classification by masks gives the length announced by the byte range, zero exactly for bytes that lead no sequence |
| `Utf8.Length` | onnxruntime/core/common/utf8_util.h:35-49 | succeeds if and only if the string cuts into sequences of announced length, and returns their number |
| `Utf8.CheckChar` | onnxruntime/core/common/utf8_util.h:55-131 | accepts exactly one character of the grammar and moves behind it |
| `Utf8.Validate` | onnxruntime/core/common/utf8_util.h:51-143 | accepts a string if and only if it cuts into characters of the grammar in section 4 of RFC 3629 with two-byte leads widened to C0-DF, and returns their number |
| `Utf8.RfcValidIff` | onnxruntime/core/common/utf8_util.h:51-143 | a string is valid by the published grammar of section 4 of RFC 3629 if and only if the validator accepts it and it has no byte C0 or C1 |
| `Utf8Scalars.RfcCharEncodes` | onnxruntime/core/common/utf8_util.h:55-131 | the characters of the published grammar are exactly the encodings of the scalar values, from 0 to 10FFFF without surrogates |
| `Utf8Scalars.RfcValidEncodes` | onnxruntime/core/common/utf8_util.h:51-143 | the strings of the published grammar are exactly the encodings of sequences of scalar values |
| `Utf8Scalars.EncodesOne` | onnxruntime/core/common/utf8_util.h:55-131 | a character encodes one scalar value only |
| `Utf8Scalars.LeadLengthIsOnes` | onnxruntime/core/common/utf8_util.h:13-32 | the length a byte announces is the number of its leading ones, one for none, none for one, and four for more than four |
| `Utf8.OverlongAccepted` | onnxruntime/core/common/utf8_util.h:61-65 | the bytes C0 80 are accepted although the grammar does not have them |
| `Utf8.SplitUnique` | onnxruntime/core/common/utf8_util.h:51-143 | a string cuts into characters in at most one way |
| `Utf8.SameCount` | onnxruntime/core/common/utf8_util.h:35-143 | the one way a valid string cuts by lead bytes alone is the way it cuts into characters, so both counts agree |
| `Utf8.NextBoundary` | onnxruntime/core/common/utf8_util.h:11-32 | in valid text, stepping over the announced length leads from boundary to boundary |
| `Utf8.ValidConcat` | onnxruntime/core/common/utf8_util.h:51-143 | what follows a valid prefix is valid if and only if the whole is |
| `TokenTable.PutChars` | onnxruntime/contrib_ops/cpu/tokenizer.cc:168-178 | stepping by lead bytes writes exactly the characters of the string, in order, inside the buffer |
| `TokenTable.PutRow` | onnxruntime/contrib_ops/cpu/tokenizer.cc:309-326 | one row is start mark, tokens, end mark and padding, and moves the index by exactly one row |
| `TokenTable.PutCharRow` | onnxruntime/contrib_ops/cpu/tokenizer.cc:161-190 | the same for a row of characters |
| `TokenTable.WriteRows` | onnxruntime/contrib_ops/cpu/tokenizer.cc:303-332 | exactly as many cells are written as there are, row after row |
| `TokenTable.TableRows` | onnxruntime/contrib_ops/cpu/tokenizer.cc:303-332 | row i starts at i times the width and holds its marked and padded tokens |
| `CharTokenizer.Measure` | onnxruntime/contrib_ops/cpu/tokenizer.cc:124-139 | fails on the first invalid input, otherwise finds the longest row |
| `CharTokenizer.WriteCharRows` | onnxruntime/contrib_ops/cpu/tokenizer.cc:158-191 | the second pass fills exactly the cells there are |
| `CharTokenizer.CharTokenize` | onnxruntime/contrib_ops/cpu/tokenizer.cc:119-193 | succeeds if and only if all inputs are valid, naming the first invalid one; the output is empty if all inputs are, else the table of their characters |
| `CharTokenizer.CharRoundTrip` | onnxruntime/contrib_ops/cpu/tokenizer.cc:119-193 | the tokens of each row, without marks and padding, spell the input string, and number its characters |
| `CharTokenizer.TensorCells` | onnxruntime/contrib_ops/cpu/tokenizer.cc:280-333 | cell by cell: the start mark 02, the tokens, the end mark 03 and padding, or tokens and padding; the tensor is as wide as the longest row with its marks |
| `CharTokenizer.Emit` | onnxruntime/contrib_ops/cpu/tokenizer.cc:280-333 | the collected rows are written, as wide as the longest of them |
| `SeparatorScan.Reassembles` | onnxruntime/contrib_ops/cpu/tokenizer.cc:226-271 | for every way of finding matches, pieces interleaved with what was cut out are the text again, as far as the scan came |
| `SeparatorScan.RemovedIsCut` | onnxruntime/contrib_ops/cpu/tokenizer.cc:250-259 | everything cut out is a match found from a position the scan visits, or the one unit such an empty match inside the text skips |
| `SeparatorScan.StaysInsideIff` | onnxruntime/contrib_ops/cpu/tokenizer.cc:228-271 | for every way of finding matches, the scan of a valid text stays inside it if and only if it meets no empty match at the end of the text |
| `SeparatorScan.LeftmostLeavesIff` | onnxruntime/contrib_ops/cpu/tokenizer.cc:228-271 | for a search whose match does not depend on where before it the search starts, and that respects characters: the scan leaves a valid text if and only if one search from the end of the text finds something |
| `SeparatorScan.StuckIffStandstill` | onnxruntime/contrib_ops/cpu/tokenizer.cc:228-271 | the scan repeats one round for ever if and only if it visits a position from which the match does not move it on |
| `SeparatorScan.StandstillIff` | onnxruntime/contrib_ops/cpu/tokenizer.cc:250-259 | such a match is exactly an empty one at that position, in front of a byte that leads no character |
| `SeparatorScan.EmptyMatchLosesCharacter` | onnxruntime/contrib_ops/cpu/tokenizer.cc:255-259 | an empty match inside valid text loses exactly the character it stands in front of |
| `SeparatorScan.PastEndIffLeaves` | onnxruntime/contrib_ops/cpu/tokenizer.cc:228-271 | the scan as computed leaves the text exactly if the positions visited lead out of it |
| `SeparatorScan.PiecesValid` | onnxruntime/contrib_ops/cpu/tokenizer.cc:226-271 | aligned separators, with empty matches too, cut valid text into valid pieces and never get stuck |
| `SeparatorTokenizer.SplitText` | onnxruntime/contrib_ops/cpu/tokenizer.cc:226-271 | a piece before a match that does not cut by lead bytes is an error, an empty match at the end leaves the text, one before a byte that leads nothing repeats for ever; otherwise the tokens are exactly the pieces with enough characters, in order |
| `SeparatorTokenizer.Advance` | onnxruntime/contrib_ops/cpu/tokenizer.cc:250-259 | the search goes on behind the match, or behind the character in front of which it is empty |
| `SeparatorTokenizer.SplitRow` | onnxruntime/contrib_ops/cpu/tokenizer.cc:224-273 | one separator over all texts of a row, up to the first that fails |
| `SeparatorTokenizer.SeparateRow` | onnxruntime/contrib_ops/cpu/tokenizer.cc:213-277 | an invalid string is refused; otherwise all separators are applied one after the other, up to the first that fails |
| `SeparatorTokenizer.SeparatorTokenize` | onnxruntime/contrib_ops/cpu/tokenizer.cc:195-334 | the first input that is invalid or whose search fails decides the error; without one the output is the table of the tokens |
| `SeparatorComplete.SplitComplete` | onnxruntime/contrib_ops/cpu/tokenizer.cc:226-271 | the tokens of a text are exactly the pieces between the positions the search visits and the matches found from them that cut into at least the asked number of units, and the piece behind the last match if it does, in order |
| `SeparatorComplete.PassComplete` | onnxruntime/contrib_ops/cpu/tokenizer.cc:224-273 | one separator makes of a row the tokens of its texts one after the other |
| `SeparatorComplete.PassesComplete` | onnxruntime/contrib_ops/cpu/tokenizer.cc:222-274 | every separator is applied once, in order, to the row the one before it leaves |
| `SeparatorComplete.RowsComplete` | onnxruntime/contrib_ops/cpu/tokenizer.cc:195-334 | the rows the tokenizer writes are the tokens of its inputs in this sense |
| `SeparatorComplete.SplitFaultIff` | onnxruntime/contrib_ops/cpu/tokenizer.cc:226-271 | which error is reported: a visited match in front of which the bytes cannot be counted before all else, then leaving the text, then a standstill, each if and only if the search comes to it |
| `SeparatorTokens.TokensInOrder` | onnxruntime/contrib_ops/cpu/tokenizer.cc:222-274 | the tokens are pieces of the string, in order, without overlap, all of them long enough, whatever the separators match |
| `SeparatorTokens.AlignedSplit` | onnxruntime/contrib_ops/cpu/tokenizer.cc:226-271 | on valid text a separator that respects characters fails if and only if it meets an empty match at the end, and otherwise leaves valid tokens |
| `SeparatorTokens.AlignedPass` | onnxruntime/contrib_ops/cpu/tokenizer.cc:224-273 | the same for a row: it fails if and only if some text of the row has such a match |
| `SeparatorTokens.LeftmostSplitIff` | onnxruntime/contrib_ops/cpu/tokenizer.cc:226-271 | a leftmost separator that respects characters fails on a valid text if and only if it matches at the end of the text, which one search before the call decides |
| `SeparatorTokens.LeftmostPassIff` | onnxruntime/contrib_ops/cpu/tokenizer.cc:224-273 | on a row of valid texts, if and only if it matches at the end of one of them |
| `SeparatorTokens.AtEndLeaves` | onnxruntime/contrib_ops/cpu/tokenizer.cc:250-259 | a separator that matches the end of the text leaves every valid text, the empty one included |
| `SeparatorTokens.FirstByteNeverEnds` | onnxruntime/contrib_ops/cpu/tokenizer.cc:250-259 | a separator that cuts the character C3 A9 apart and then matches the empty string repeats one round for ever on it |
| `SeparatorTokens.AlignedPasses` | onnxruntime/contrib_ops/cpu/tokenizer.cc:222-274 | separators that respect characters leave valid tokens unless the search leaves a text; those that never match the empty string never fail |
| `ExpressionTokenizer.Progress` | onnxruntime/contrib_ops/cpu/tokenizer.cc:381-396 | every round of a search that respects characters moves forward to a character boundary or past the end, for empty and short matches too |
| `ExpressionTokenizer.Weigh` | onnxruntime/contrib_ops/cpu/tokenizer.cc:383-396 | a match is refused if it does not cut by lead bytes and is a token exactly if it is long enough; the search goes on behind it or behind its first character |
| `ExpressionTokenizer.FindTokens` | onnxruntime/contrib_ops/cpu/tokenizer.cc:355-401 | an invalid string is refused, a match that does not cut by lead bytes is an error, a short match before a byte that leads nothing repeats for ever; otherwise the tokens are collected |
| `ExpressionTokenizer.SecondByteNeverEnds` | onnxruntime/contrib_ops/cpu/tokenizer.cc:381-396 | an expression that matches the empty string inside the character C3 A9 repeats one round for ever on it, if tokens must have a character |
| `ExpressionTokenizer.AlignedFinds` | onnxruntime/contrib_ops/cpu/tokenizer.cc:373-398 | a search that respects characters never fails in valid text |
| `ExpressionTokenizer.FoundOrdered` | onnxruntime/contrib_ops/cpu/tokenizer.cc:373-398 | the tokens are substrings in order, without overlap, all of them long enough |
| `ExpressionTokenizer.ExpressionTokenize` | onnxruntime/contrib_ops/cpu/tokenizer.cc:336-460 | the first input that is invalid or whose search fails decides the error; without one the output is the table of the tokens |
| `ExpressionTokens.FoundIff` | onnxruntime/contrib_ops/cpu/tokenizer.cc:373-398 | when the search succeeds, a match is a token if and only if it is found from a position the search comes to and cuts into at least the asked number of units; the positions are said without the search |
| `ExpressionTokens.RowsReport` | onnxruntime/contrib_ops/cpu/tokenizer.cc:336-460 | the rows the tokenizer writes hold exactly these tokens, in order |
| `ExpressionTokens.FoundFaultIff` | onnxruntime/contrib_ops/cpu/tokenizer.cc:373-398 | the search fails if and only if it comes to a match that cannot be counted or to a position from which it does not move on, and says which |
| `WordConvSpec.PooledIsMaximum` | onnxruntime/contrib_ops/cpu/word_conv_embedding.cc:101-114 | the per-word definition is the largest activated score over the word's own windows, floored at -1e12 |
| `WordConvMeaning.DotAdds` | onnxruntime/contrib_ops/cpu/word_conv_embedding.cc:87-92 | the dot product is additive in each argument |
| `WordConvMeaning.DotScales` | onnxruntime/contrib_ops/cpu/word_conv_embedding.cc:87-92 | and homogeneous in each argument |
| `WordConvMeaning.DotPicks` | onnxruntime/contrib_ops/cpu/word_conv_embedding.cc:87-92 | against one at one place and zero elsewhere it gives the number at that place |
| `WordConvMeaning.DotUnique` | onnxruntime/contrib_ops/cpu/word_conv_embedding.cc:87-92 | no other function has these properties |
| `WordConvMeaning.UnitFilterScores` | onnxruntime/contrib_ops/cpu/word_conv_embedding.cc:68-98 | a filter that is one at one place scores the number of the embedding table it meets there plus the bias, in terms of the flat inputs |
| `WordConvMeaning.WindowCell` | onnxruntime/contrib_ops/cpu/word_conv_embedding.cc:14-85 | number e of character j under the window at u of word i is that of the embedding table for that character |
| `WordConvMeaning.FilterCell` | onnxruntime/contrib_ops/cpu/word_conv_embedding.cc:87-92 | the weights are laid out filter by filter, character by character |
| `WordConvMeaning.ResultIsBest` | onnxruntime/contrib_ops/cpu/word_conv_embedding.cc:100-114 | the result of a non-empty word is the largest score of its own windows, of one window if it is shorter than the filter, and at least -1e12 |
| `WordConvMeaning.WordLengthIsCount` | onnxruntime/contrib_ops/cpu/word_conv_embedding.cc:118-133 | a word is as long as it has places with positive characters, and empty if it does not start with one |
| `WordConvSpec.WindowIsSlice` | onnxruntime/contrib_ops/cpu/word_conv_embedding.cc:75-85 | every window is a slice of the word's embeddings |
| `WordConv.CalculateLengths` | onnxruntime/contrib_ops/cpu/word_conv_embedding.cc:118-133 | a word's length is the number of its positive characters, zero if the first is not positive |
| `WordConv.CharEmbeddingLookup` | onnxruntime/contrib_ops/cpu/word_conv_embedding.cc:14-35 | each non-empty word's embeddings stand in its place, up to the larger of its length and the filter width |
| `WordConv.UnfoldRun` | onnxruntime/contrib_ops/cpu/word_conv_embedding.cc:68-85 | the unfolded buffer holds the windows of the whole run, word after word, and is never overrun |
| `WordConv.RunFits` | onnxruntime/contrib_ops/cpu/word_conv_embedding.cc:57-59 | no run has more windows than the buffers have room for |
| `WordConv.RoomIffSuffices` | onnxruntime/contrib_ops/cpu/word_conv_embedding.cc:51-59 | the buffers have room for every run of non-empty words if and only if the filter is at most as wide as a word is long, or every word is empty |
| `WordConv.WideFilterOverruns` | onnxruntime/contrib_ops/cpu/word_conv_embedding.cc:51-85 | one word of one character under a filter of two characters: one window is unfolded where there is room for none |
| `WordConv.WindowInRun` | onnxruntime/contrib_ops/cpu/word_conv_embedding.cc:75-85 | window u of a word stands in the run at the word's offset plus u |
| `WordConvBatch.Gemm` | onnxruntime/contrib_ops/cpu/word_conv_embedding.cc:87-92 | row r of the product holds the dot products of window r with every filter |
| `WordConvBatch.AddBias` | onnxruntime/contrib_ops/cpu/word_conv_embedding.cc:94-97 | the bias is added to every row in place |
| `WordConvBatch.Activate` | onnxruntime/contrib_ops/cpu/word_conv_embedding.cc:98 | the activation is applied number by number |
| `WordConvBatch.PoolWord` | onnxruntime/contrib_ops/cpu/word_conv_embedding.cc:102-113 | a word's output row is pooled from its own windows; all other rows stay |
| `WordConvBatch.PoolRun` | onnxruntime/contrib_ops/cpu/word_conv_embedding.cc:100-114 | the words of a run are pooled back into their own rows |
| `WordConvBatch.ConvRun` | onnxruntime/contrib_ops/cpu/word_conv_embedding.cc:68-98 | after unfolding, product, bias and activation the buffer holds the scores of the run |
| `WordConvBatch.ConvMaxPool` | onnxruntime/contrib_ops/cpu/word_conv_embedding.cc:61-117 | for every pattern of empty and non-empty words, all rows are done |
| `WordConvBatch.Compute` | onnxruntime/contrib_ops/cpu/word_conv_embedding.cc:163-224 | every non-empty word's output for every filter is the per-word definition; rows of empty words are untouched; required is exactly that the buffers have room |
| `TensorSize.DivisionTest` | server/serializing/tensorprotoutils.cc:76-84 | comparing with the quotient is comparing the product |
| `TensorSize.SmallFactors` | server/serializing/tensorprotoutils.cc:73-84 | below the square root of the range no test is needed |
| `TensorSize.RoundUp` | server/serializing/tensorprotoutils.cc:85-88 | the wrapping computation is the exact product or its least aligned upper bound |
| `TensorSize.CalcMemSize` | server/serializing/tensorprotoutils.cc:71-94 | for alignment 0 and 256 the test succeeds if and only if the product is at most 2^64-1 minus the alignment, and the result is then exact, rounded up |
| `TensorSize.GetSizeInBytes` | server/serializing/tensorprotoutils.cc:216-252 | succeeds if and only if no dimension is negative, all partial products fit, the type is supported and the whole fits; the result is the true size, rounded up; an unsupported type is reported exactly if the dimensions are in order |
| `TensorMeaning.SignedRanges` | server/serializing/tensorprotoutils.cc:235-249 | the values of the four signed types, in numerals, which fixes their sizes |
| `TensorMeaning.UnsignedRanges` | server/serializing/tensorprotoutils.cc:235-249 | the values of the four unsigned types and of bool |
| `TensorMeaning.FloatRanges` | server/serializing/tensorprotoutils.cc:235-249 | floating-point numbers are any patterns of 32 and 64 bits |
| `TensorMeaning.OtherSizes` | server/serializing/tensorprotoutils.cc:235-249 | which types have no size; a bool has one byte, a string the size of its object |
| `TensorBytes.NarrowWidened` | server/serializing/tensorprotoutils.cc:148-150 | a value widened into a 4- or 8-byte field is recovered from the field's first bytes, sign included |
| `TensorBytes.LoadStore` | server/serializing/tensorprotoutils.cc:110-111 | an element stored in memory is loaded again |
| `TensorMeaning.ByteAt` | server/serializing/tensorprotoutils.cc:110-111 | byte k of a number is its digit of weight 256 to the power k |
| `TensorMeaning.NarrowMeaning` | server/serializing/tensorprotoutils.cc:148-150 | an entry of a field becomes the value of the element type that agrees with it modulo the range of the type; for bool any entry but zero is true |
| `TensorMeaning.EntryRanges` | server/serializing/tensorprotoutils.cc:155-164 | the values of the entries of the five fields, in numerals |
| `TensorProto.SplitStrings` | server/converter.cc:162-178 | cutting the buffer at the offsets gives the strings back; without strings it gives one empty string |
| `TensorProto.ToProto` | server/converter.cc:57-232 | raw bytes, typed fields or strings as the type and the flag demand; unsupported types are refused |
| `TensorMeaning.PackedFields` | server/converter.cc:57-232 | the message has the shape and type of the tensor and its elements in one place only: the field of its type, the raw bytes or the strings |
| `TensorMeaning.RawCell` | server/converter.cc:57-232 | element i of the raw bytes lies behind the i elements in front of it |
| `TensorProto.UnpackNumbers` | server/serializing/tensorprotoutils.cc:98-152 | raw bytes or field entries become elements if and only if their number is the true number of elements, although it is counted in wrapping signed arithmetic |
| `TensorProto.CountElements` | server/serializing/tensorprotoutils.cc:329-335 | refuses exactly the negative dimensions; the count is the true one, wrapped to 64 signed bits |
| `TensorProto.FromProto` | server/serializing/tensorprotoutils.cc:311-380 | for every message, whatever its dimensions: the error conditions in their order, and otherwise the tensor with the elements its bytes or fields hold |
| `TensorMeaning.UnpackErrors` | server/serializing/tensorprotoutils.cc:311-380 | which messages are unpacked and which error the others give, each if and only if |
| `TensorMeaning.UnpackedCells` | server/serializing/tensorprotoutils.cc:98-152 | element i comes from its own bytes or its own entry |
| `TensorProto.RoundTrip` | server/converter.cc:57-232 | packing by either path and unpacking restores shape, type and all elements if and only if the tensor is not a string tensor without elements |
| `TensorProto.EmptyStringTensorFails` | server/converter.cc:162-178 | a string tensor without elements is packed with one string and fails to unpack |
| `JsonError.EscapeString` | server/http/json_handling.cc:42-77 | the loop writes the escaped form of every byte |
| `JsonError.EscapeRoundTrip` | server/http/json_handling.cc:42-77 | for every byte string, reading the escaped form by section 7 of RFC 8259 gives it back and stops at exactly the quote that follows |
| `JsonError.EscapeInjective` | server/http/json_handling.cc:42-77 | different messages have different escaped forms |
| `JsonError.ShortestEscape` | server/http/json_handling.cc:42-77 | no shorter way to write a byte reads back as that byte |
| `JsonError.SmallDigits` | server/http/json_handling.cc:67-70 | control bytes without a letter of their own are written with small hexadecimal digits |
| `JsonError.NoBareBytes` | server/http/json_handling.cc:42-77 | no control byte, and every quote is behind an odd number of backslashes |
| `JsonError.ClosingQuoteIsFirst` | server/http/json_handling.cc:42-77 | the quote written behind the message is the first that no backslash escapes |
| `JsonError.CreateJsonError` | server/http/json_handling.cc:37-40 | read back by a reader for such objects, the error has the code under error_code, the message under error_message and nothing else |
| `JsonError.DecimalReadsBack` | server/http/json_handling.cc:37-40 | the digits of the code, read in base ten, are the code, without a leading zero |

## Left out

Assumptions of the theorems about plans, stated as predicates:

- No kernel lists an input as alias of one output and lets an output before it overwrite that input (`Executor.AliasesApart`).
- Kernels honour the alias pair the planner selects for an output, which is the first under its number whose input is present, and Identity copies its input (`Executor.Honours`; by index `PlannerNumbering.HonoursDeclared`); kernels that fail are not modelled.
- For sizes, a pair listed under an output's number is compared with an output of its own size (`PlannerSizes.InplaceNumbered`), which the graph alone decides.
- Execution is sequential, in plan order. Plans for parallel execution are made (the free list is then not used), but no claim is made about running them concurrently.
- Graph inputs, outer-scope values and initializers are distinct from node outputs, and every value is defined before it is used (`PlannerGraph.WellFormed`).

Not modelled:

- Execution providers and the kernel registry: the location of a value that is no initializer, the place a node wants an initializer at, whether a value needs a fence itself, and a node's kernel and execution provider (or their absence) are given.
- Location equality of in-place reuse: the code does not compare locations there, and nothing is claimed.
- Nested use of the pool from inside a pool thread, and the internals of the barrier and the work queue, which are a counter and a bag of tasks.
- Batching.Bound: a product that overflows wraps around in two's complement, as hardware computes it; the language standard leaves it undefined. The 32-bit barrier count of ranges longer than 2^32 is not modelled.
- The loop over the elements of the input tensor around the hash, and the choice of a signed or unsigned output type, which has the same bits.
- MurmurHash3.Compute: keys are shorter than 2^31 bytes, as the signed length parameter demands; words are read little-endian.
- SeparatorTokenizer.SplitText: what the code computes once its position has left the text, or while it repeats the same round for ever, is not modelled; these are outcomes of their own. A text is taken to be followed by a byte that leads a character, as the terminating zero does.
- Parsing of tokenizer attributes and regular expressions.
- WordConvBatch.Compute: floating-point rounding and the 32-bit sizes passed to the matrix product are not modelled; the characters read for non-empty words must lie in the table, filter and words have positive width, and the buffers must have room (`WordConvSpec.Suffices`), without which the code writes behind them.
- The big-endian branch of raw unpacking, null buffers, and external data beyond its refusal.
- TensorProto.CountElements: a count that overflows wraps around in two's complement, as hardware computes it; the language standard leaves it undefined.
- TensorProto.ToProto: the lookup of the message's type code from the element type is the identity here.
- Element types whose conversion the code refuses (half precision, complex numbers) beyond that refusal.
- JsonError.EscapeRoundTrip: the reader encodes surrogate code units one by one; the writer never produces them.
- Protobuf-to-JSON conversion and the HTTP and gRPC servers.
- Other operators, graph optimizers, execution providers, language bindings and build scripts, which would add easy members or need code outside this repository.
