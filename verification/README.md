# A verified model of the chain's section store, its resynchronisation and its actor index

The chain is a map from section ids to ordered sets of transactions. Every 20th section may carry a *control*, a
hash chained over all sections before it, by which nodes compare their histories. This project models, for a full
node of the client build, the code that keeps that chain right and repairs it, and proves what it does and where it
does not do what it is for.

- **Control chain** (`ControlChain`, `DagState`, `Dag`, `ReadyRuns`, `ClearControls`): the control as a recursive
  specification over the stored transactions; finding, writing, generating and clearing controls as methods of the
  class `Dag` that are proved against it; and the stored controls over whole runs of saves and control checks.
- **Resynchronisation** (`Resync`, `ResyncTheorems`, `ResyncProtocol`, `GapRepair`): the downward search over windows of 16
  controls, deletion, download in batches, both peers' message handlers, and the end-to-end outcome.
- **Acceptance and storage** (`Transactions`, `TransactionHashing`, `OrderedSets`, `SectionStorage`, `Balances`,
  `Acceptance`, `Verdicts`, `Ledger`, `BatchControls`, `TaintSearch`): the order of transactions, saving one by one and
  in batches, what a batch does to controls, the difference of two versions of a section, the validator with its
  duplicate search and balances, what acceptance guarantees and what it moves, and the search for minted tokens.
- **Instances** (`Instances`): runs of accepted transactions, from the empty chain on, that show the findings below.
- **Actors** (`ActorBuckets`, `ActorSynchronizer`, `ActorIndex`): reconciliation by bucket hashes, and the batch save
  that keeps files, rows, counter and synchronizer consistent under every pattern of failures.

Code that works on fields in place is a class (`Dag`, `ActorSynchronizer`, `ActorIndex`) with loops like those of the
source. Each method is proved equal to a function of the state before it, or to the stated property; the theorems
are about those functions, over all inputs and all runs. Section ids are unbounded integers and amounts exact
numbers, as the big numbers of the source are.

Hashing is a parameter. No global injectivity is assumed, which no fixed-length hash has: where a theorem goes back
from a hash to what was hashed it assumes that the hash does not collide on the finite set of strings recorded for the
computations at hand (`NoCollision`, `Records`, and `Distinguishes` for bucket hashes).

## Where the code does not do what it is for

Each of these is proved, with the exact condition under which the code does meet its purpose. The examples named are
runs of transactions that the validator accepts, one after the other, starting from an empty chain.

1. **Resuming after a dropped control** (sources/chain/dag.cpp:2868-2900, sources/chain/dag_cache.cpp:408-478). When
   the cache moves, the first control generated is chained to the last control found, without a check that this one
   lies right before the interval. A late transaction for the cached section drops the control there; if the cache
   moves before `start_control` has been forced, the stored control skips an interval and is wrong. Over every run, all
   stored controls are right if and only if no save moves the cache across such a gap, saves for the very section
   generated next excepted, which drop the wrong control again (`RunIsRightIffNoGapIsCrossed`). Seven transactions,
   every one of them accepted, that cross a gap: `GapIsReachable`. A resynchronisation from a right peer cures the node
   if and only if the missing control is not the lowest of a search window (`ResyncCuresIff`).
2. **Blind spots of the control search** (sources/chain/dag.cpp:3203-3265). If the first control that differs is the one
   at section 0, the search falls silent; if it is the lowest control of a window, the next lower window is equal
   throughout and the difference is taken for none. A repair removes the difference if and only if neither is the case
   (`ResyncRepairsIff`). Two chains of accepted transactions that stay different: `BlindSpot`.
3. **Balances count the section twice** (sources/chain/dag.cpp:1142-1188). `calculate_balances` includes the
   transaction's own section, and the validator then adds that section's transactions again. What it lets through is
   always covered if and only if the section does not credit the sender, on balance, with more than is frozen; what is
   covered is always let through if and only if it credits at least that much, or the sender has nothing
   (`ValidatorIsSoundIff`, `ValidatorIsCompleteIff`). Nor does that second pass reckon as the balances do: of what is
   accepted it misjudges exactly conversions away from the token, mintings sent by the actor and contracts for it
   (`FoldIsEffectIff`, `AcceptedIsMisjudgedIff`). Four accepted transactions after which a balance is negative:
   `OverdraftIsAccepted`.
4. **The cached section is still open to transactions, but no longer counted** (sources/chain/dag.cpp:970,
   sources/chain/dag_cache.cpp:268-331). The window and the cache both lag 15 sections, so the cached section can be
   the lowest one admitted. What is accepted for it moves no balance, now or later: an admitted transaction takes effect
   if and only if its section is after the cached one, or it has no effect anyway (`AdmittedMovesBalanceIff`,
   `LatePaymentIsNeverCounted`). An actor that pays its one unit there can pay it again: `SpentTwice`.
5. **Duplicates below the first saved section, or in a negative one,** are not found (sources/chain/dag.cpp:1266-1275);
   elsewhere a stored hash within the window always is (`StoredHashIsFoundIff`). The window admits negative sections
   while the current one is at most 14, and sections below the first saved one where a chain does not start at 0.
   What is accepted there is accepted again (`UnsearchedIsAcceptedAgain`); the same transaction accepted twice in a
   run: `NegativeTwice`, `BelowFirstTwice`.
6. **The lower bound returned by a batch save** takes -1 for "none yet" (sources/chain/dag.cpp:841-932); it is the least
   section unless that is -1 and there are others, and then the least of these (contract of `SaveTransactions`; for
   sections -1 and 5 it is 5: `LowerBoundIsWrong`).
7. **The last batch of a download** ends one section short of the peer's last one in exactly one case
   (`LastDownloaded`, `DownloadCopies`).
8. **`operator==` ignores amounts** (sources/chain/transaction.cpp:241-263) and so identifies transactions that the
   ordered set keeps apart (`EqualityIsCoarserThanOrder`); and since fields are hashed without lengths, a meta and a
   previous hash of the same text are hashed alike (`WidthsMatter`).
9. **A request for controls may never be answered** (sources/chain/dag.cpp:3148-3174). If one is missing, the node
   generates its controls anew and reads the request again. That second reading succeeds if and only if the range
   starts at 0 or later and ends at a section that a generation reaches; otherwise every further one fails as well
   (`RegenerationAnswersIff`).
10. **A batch below a control leaves that control wrong** (sources/chain/dag.cpp:865-918). A batch drops the control of
   the section that it changes, and no later one. Into a stored section it leaves all controls right if and only if it
   adds no transaction there or no control lies above (`RunBelowControlIsWrongIff`); batches at or above every control
   whose cache moves cross no gap do (`BatchKeepsControls`). And into a stored section the cache may move without any
   control being generated, so that one is missing afterwards (`RunIntoStored`).

## Model

| member | source | states |
|---|---|---|
| Hashing.ConcatInjective | sources/chain/dag.cpp:2965-2988 | Hashes appended without separators can be told apart again: equal strings come from equal lists |
| ControlChain.HashedFor | sources/chain/dag.cpp:2803-2855 | The strings hashed for a control form a finite set, so assuming no collision on it is meaningful |
| ControlChain.SameHashesSameControl | sources/chain/dag.cpp:2803-2855 | A control depends on nothing but the ordered transaction hashes up to its section; controls and missing versus empty sections make no difference |
| ControlChain.LeafCommits | sources/chain/dag.cpp:2965-2988 | The hash of one section in an interval determines the ordered transaction hashes of that section |
| ControlChain.LeafNamesSection | sources/chain/dag.cpp:2965-2988 | A section cannot stand in for another one: if the same text is hashed for two of them, both empty or both not, their ids are written alike |
| ControlChain.EqualControlsSplit | sources/chain/dag.cpp:2838-2843 | Equal controls, even at different sections, rest on equal controls one interval below and on equal interval hashes |
| ControlChain.ControlInputIs | sources/chain/dag.cpp:2803-2855 | The first control is the hash of section 0 alone; every other is hashed from the one before it, first, and the hash of the 20 sections after that |
| ControlChain.SectionsStandInOrder | sources/chain/dag.cpp:2965-2988 | In the text hashed for an interval the hash of each section stands at its own place, in ascending order, and nothing else |
| ControlChain.HashesStandInOrder | sources/chain/dag.cpp:3335-3341 | In the text hashed for a section the transaction hashes stand in the order of the set |
| ControlChain.ControlCommitsToPrefix | sources/chain/dag.cpp:2803-2855 | Two nodes have equal controls at 20k if and only if their ordered transaction hashes agree in every section 0 to 20k |
| ControlChain.AgreementIsDownwardClosed | sources/chain/dag.cpp:3203-3237 | Nodes that agree at one control agree at every lower one |
| ControlChain.ControlsDiffer | sources/chain/dag.cpp:2838-2843 | No two controls of one chain are equal |
| DagState.LastControlIs | sources/chain/dag.cpp:2716-2768 | There is at most one control that the search may return, so its outcome is determined |
| DagState.LastControlIsHighest | sources/chain/dag.cpp:2716-2768 | What is found is a stored control at a multiple of 20, and only controls off that grid may lie between it and the start |
| DagState.AlignDown20Is | headers/chain/dag.h:49-54 | Alignment goes down to a multiple of 20, less than 20 away, and upwards for negative sections |
| DagState.ResumeKeepsTransactions | sources/chain/dag.cpp:2889-2911 | Generating any number of controls changes no section's transactions |
| DagState.LastIntervalIs | sources/chain/dag.cpp:2889-2898 | An interval is generated if and only if its start is at most the cached section and a section after its end exists |
| DagObject.Dag.constructor | headers/chain/dag.h:577-578 | A new chain is empty, with -1 for all three bounds |
| DagObject.Dag.SetCurrentSection | sources/chain/dag.cpp:147-151 | The current section only ever rises |
| DagObject.Dag.FindLastControl | sources/chain/dag.cpp:2716-2768 | Returns the highest stored aligned control within reach of the search, with its hash, and nothing exactly if there is none |
| DagObject.Dag.ReadControl | sources/chain/dag.cpp:2770-2781 | The stored control of a section, or nothing for a section without one or without a file |
| DagObject.Dag.HashInterval | sources/chain/dag.cpp:2946-2989 | The accumulating loop gives the interval hash of the specification, and nothing past the current section |
| DagObject.Dag.CalculateHash | sources/chain/dag.cpp:3335-3341 | The section hash is that of its transaction hashes joined in set order |
| DagObject.Dag.WriteControl | sources/chain/dag.cpp:641-666 | Only multiples of 20 are written; the control is set, the transactions stay, a missing section is created empty |
| DagObject.Dag.RemoveControl | sources/chain/dag.cpp:668-689 | Drops the control of an existing section other than 0 and nothing else |
| DagObject.Dag.GenerateHashForInterval | sources/chain/dag.cpp:2803-2855 | Writes the control that chains the last hash with the interval's and hands it on; off the grid or past the current section nothing changes |
| DagObject.Dag.GenerateRest | sources/chain/dag.cpp:2889-2914 | The generation loop, from any start: it writes the chain of controls interval by interval and leaves out intervals off the grid |
| DagState.LoopResumes | sources/chain/dag.cpp:2889-2911 | Started right after a control section the loop writes exactly the chain resumed from its base, up to the last interval allowed |
| DagState.LoopOffGrid | sources/chain/dag.cpp:2807-2824 | Started anywhere else above 0 it writes nothing |
| DagState.CacheMoveStopsIff | sources/chain/dag.cpp:2807-2824 | A cache move meets an interval off the grid if and only if nothing is cached, no section counts as saved yet and the current one is at least 19 |
| DagObject.Dag.GenerateHashFromSection | sources/chain/dag.cpp:2857-2915 | Generates from a section on, based on the last control that the search finds below it; without one, or off the grid, nothing changes |
| DagObject.Dag.GenerateHash | sources/chain/dag.cpp:2917-2944 | Does nothing past the cached section, otherwise a full generation from the start section |
| DagObject.Dag.StartControl | sources/chain/dag.cpp:2991-3034 | Resumes generation after the last stored control; unforced it does nothing while a control is near |
| DagObject.Dag.CheckAndUpdateCache | sources/chain/dag_cache.cpp:333-406 | The cache moves to the highest multiple of 20 at or below current - 15, and only forward by at least 15; the range covered starts right after the old one; a cache that does not move was within 20 of that already |
| DagObject.Dag.CheckAndUpdateCacheThread | sources/chain/dag_cache.cpp:408-478 | Moving the cache generates controls from the first section that was not cached |
| DagObject.Dag.SaveTransaction | sources/chain/dag.cpp:756-817 | Inserts into the section's ordered set, drops its control, moves the cache and notes the first section |
| DagObject.Dag.StoreApproved | sources/chain/dag.cpp:367-377 | Saving and then raising the current section amounts to the specified save |
| ReadyRuns.FindsWithin37 | sources/chain/dag.cpp:2716-2768 | With breaks on, the highest control at or below the start is found if and only if it is at most 37 sections away and not below the first saved section |
| ReadyRuns.FindsWithin999 | sources/chain/dag.cpp:2716-2768 | With breaks off the distance is 999, provided section 0 is not stored without a control |
| ReadyRuns.CachedControlIsFound | sources/chain/dag.cpp:2716-2768 | While the control of the cached section is the highest and in place, the default search finds it if and only if it is at most 37 sections away; for a cache that is up to date it is at most 34 |
| ReadyRuns.ResumeFinds | sources/chain/dag.cpp:2868-2877 | Resuming after a control section finds its control, failing that the one 20 below, failing that none |
| ReadyRuns.SavedSectionKeepsControls | sources/chain/dag.cpp:793-799 | Replacing a section drops the only control that the change could have made wrong |
| ReadyRuns.WrittenControl | sources/chain/dag.cpp:2838-2855 | After a write all stored controls are right if and only if the one written is |
| ReadyRuns.AdvanceGenerates | sources/chain/dag_cache.cpp:408-478 | Moving the cache, by one step or by many, writes the first control or all controls between the old cached section and the new one, on the base of the last control found |
| ReadyRuns.CacheFollows | sources/chain/dag_cache.cpp:333-406 | A save moves the cache exactly if it is behind, however far, and then all the way; it is never left to start in the middle of an interval |
| ReadyRuns.GeneratedControlsAreRight | sources/chain/dag.cpp:2889-2911 | Controls generated from a right one on are right, close up without a hole, and disturb no other |
| ReadyRuns.GeneratedAndDropped | sources/chain/dag.cpp:793-802 | A save for the one section whose control its cache move generates leaves the chain as if nothing had been generated |
| ReadyRuns.SaveKeepsControls | sources/chain/dag.cpp:756-817 | A save that crosses no gap keeps every stored control right, none missing below another, none above 0 later than current - 15 nor, if it was so before, after the cached section; and it brings the cache up to date |
| ReadyRuns.SkippingIsWrong | sources/chain/dag.cpp:2868-2900 | A control chained past a skipped interval never equals the right one |
| ReadyRuns.GapMisresumes | sources/chain/dag.cpp:2868-2900 | A save that crosses a gap, however far the cache moves, stores exactly that wrong control |
| ReadyRuns.ChainIsControl | sources/chain/dag.cpp:2838-2843 | Chaining on from any right control gives the right controls above |
| ReadyRuns.ResumedControls | sources/chain/dag.cpp:2889-2911 | Resumed from a right control, exactly the intervals above it get their controls, all right, and no other control changes |
| ReadyRuns.IncrementalEqualsFull | sources/chain/dag.cpp:3022-3033 | A forced control check, resuming after the last stored control, leaves the node as generating everything from section 0 would, wherever the cache stands |
| ReadyRuns.FullGeneration | sources/chain/dag.cpp:2857-2915 | A full generation gives exactly the intervals with a cached start and a section after their end the right control, and changes nothing else |
| ReadyRuns.StartControlKeepsControls | sources/chain/dag.cpp:2991-3034 | A control check keeps the stored controls right, wherever the cache stands, and a forced one closes every gap |
| ReadyRuns.UnforcedCheckGeneratesIff | sources/chain/dag.cpp:2991-3034 | Unforced, a check does nothing while any of the last 38 sections holds a control, and generates everything from section 0 on if none does |
| ReadyRuns.RunKeepsControls | sources/chain/dag.cpp:793-799 | In every state of a run that crosses no gap each stored control is right, has all lower ones below it, is 0 or at most current - 15, and stays within the cached section if it was so at first |
| ReadyRuns.RunIsRightIffNoGapIsCrossed | sources/chain/dag.cpp:2868-2900 | Over every run, starting anywhere the cache may stand, all stored controls are right at every moment if and only if no save crossed a gap |
| ReadyRuns.RunsStartRight | sources/chain/dag.cpp:756-817 | Saving the genesis transaction into an empty chain gives a state from which the run theorems start |
| ClearControls.ClearingIsOrderFree | sources/chain/dag.cpp:3050-3076 | Clearing sections in any order, with any repetition, drops exactly the controls of the sections named, except at 0 |
| ClearControls.FallsIntoItsChunk | sources/chain/dag.cpp:3050-3076 | Every section of the range is in some thread's chunk, also with fewer sections than threads |
| ClearControls.ChunksStayInside | sources/chain/dag.cpp:3050-3076 | No chunk reaches outside the range, also when the range is empty |
| ClearControls.ChunksAreDisjoint | sources/chain/dag.cpp:3050-3076 | No section is in two chunks |
| ClearControls.InterleavingCoversRange | sources/chain/dag.cpp:3050-3076 | Every interleaving of the threads clears exactly the sections of the range |
| ClearControls.ParallelEqualsSequential | sources/chain/dag.cpp:3036-3076 | For any number of threads and any interleaving the outcome is the range cleared, with the control of 0 kept |
| DagObject.Dag.ClearControlsFrom | sources/chain/dag.cpp:3036-3048 | The one loop has that same outcome |
| ResyncTheorems.EqualControlMeansAgreement | sources/chain/dag.cpp:3203-3237 | A control compares equal if and only if the two nodes agree on every section up to it |
| ResyncTheorems.DifferenceStays | sources/chain/dag.cpp:3203-3237 | Controls above one that differs differ too |
| ResyncTheorems.WindowScan | sources/chain/dag.cpp:3203-3237 | The comparison loop stops at the lowest differing control of the window, and asks for lower ones exactly if that is the first |
| ResyncTheorems.WindowOutcome | sources/chain/dag.cpp:3239-3297 | One answer leads to a repair, the next lower window, silence or completion, depending only on where the lowest difference lies |
| ResyncTheorems.SearchIsExact | sources/chain/dag.cpp:3203-3265 | The whole search reports the lowest differing control unless that is at section 0 or is the first of a window; what it does then |
| ResyncTheorems.SearchFindsNothing | sources/chain/dag.cpp:3251-3297 | Without a difference the first window settles the search |
| ResyncTheorems.RepairBrackets | sources/chain/dag.cpp:3279-3297 | Everything up to the control below the reported one agrees, the first section that differs is among the 20 above it, and deletion starts at or below that section |
| ResyncTheorems.RemoveCuts | sources/chain/dag.cpp:2311-2344 | Deletion, whole folders included, leaves nothing at or above its start and every section from 0 up to it untouched; negative sections stay unless the start is at or below 0 and they are in the folder of section 0 |
| ResyncTheorems.ReceiveCopies | sources/chain/dag.cpp:1697-1763 | A batch brings exactly the peer's sections of its range and leaves all others alone |
| ResyncTheorems.ReceiveBounds | sources/chain/dag.cpp:1697-1736 | Whatever the bounds were, after a batch the first saved section is the old one or one received, never above the old one unless there was none, and not above any received; the current section likewise from below |
| ResyncTheorems.TakeFilesBounds | sources/chain/dag.cpp:1697-1736 | The same of any list of files, in whatever order and whoever sent it |
| ResyncTheorems.TakeFilesCopies | sources/chain/dag.cpp:1697-1736 | Exactly the sections received are replaced; of two files for one section the later one stays |
| ResyncTheorems.DownloadCopies | sources/chain/dag.cpp:1697-1763 | The batches tile: together they copy every section from the first to the last downloaded, which is the peer's last one or, in one stated case, the one before |
| ResyncTheorems.FirstSynchronisation | sources/chain/dag.cpp:1721-1729 | A node without any section knows after its first download where its chain begins and ends |
| ResyncTheorems.RepairSucceeds | sources/chain/dag.cpp:3183-3298 | After a reported difference, deletion and download the two nodes hold the same transaction hashes from section 0 to the last one downloaded |
| ResyncTheorems.RepairFails | sources/chain/dag.cpp:3203-3265 | If the lowest difference is at section 0 or first of a window it is still there afterwards |
| ResyncTheorems.ResyncRepairsIff | sources/chain/dag.cpp:3183-3298 | The repair removes a difference if and only if its control is neither at section 0 nor the first of a window |
| ResyncTheorems.ResyncCatchesUpIff | sources/chain/dag.cpp:3267-3297 | A node that is merely behind ends up with the peer's transaction hashes if and only if it had nothing wrong between the control where the search starts and the section where deletion starts |
| ResyncTheorems.DownloadShape | sources/chain/dag.cpp:1697-1736 | From any start, downloading leaves controls below it alone and has the peer's above it; the first saved section becomes the least of the old one and those received, the current one the greatest |
| ResyncTheorems.DownloadedControls | sources/chain/dag.cpp:1697-1763 | Controls that were right on both sides are right after deletion and download, with none missing below another |
| ResyncTheorems.RepairKeepsControls | sources/chain/dag.cpp:3279-3297 | After a repair the controls are right, and runs go on under the same invariant if and only if none is within reach of late transactions; with the peer's last section received none is |
| ResyncTheorems.RightRunsAreComparable | sources/chain/dag.cpp:3094-3134 | The hypotheses of the repair theorems hold for any two nodes that kept their controls right, whether or not they were repaired before |
| ResyncTheorems.CrossedGapLooksLikeDivergence | sources/chain/dag.cpp:2868-2900 | A node that crossed a gap differs at the next control from a peer with the very same transactions |
| GapRepair.CrossingInterrupts | sources/chain/dag.cpp:2868-2900 | A save that crosses a gap leaves one control missing, the next one wrong, and all others below right |
| GapRepair.ScanOfInterrupted | sources/chain/dag.cpp:3203-3237 | The comparison passes over a missing local control and stops at the wrong one after it |
| GapRepair.ScanIs | sources/chain/dag.cpp:3203-3237 | What the comparison answers for any list and any missing local controls: a first one missing or different asks for lower ones, otherwise the first that differs, failing that the last one missing |
| GapRepair.SearchOfInterrupted | sources/chain/dag.cpp:3203-3297 | The search of such a node reports the missing control if it is the last of a window, the wrong one otherwise, and neither if the missing one is the first of a window |
| GapRepair.ResyncCuresIff | sources/chain/dag.cpp:3183-3298 | A resynchronisation from a right peer makes all its controls right again if and only if the missing one is not the first of a window |
| ResyncTheorems.RequestsAreWindows | sources/chain/dag.cpp:3251-3265 | Whatever either node stores, the ranges requested are an initial part of the walk down from the start |
| ResyncTheorems.WindowsTile | sources/chain/dag.cpp:3108-3125 | The windows are aligned, non-negative, at most 16 controls wide, each ending 20 below the one before, down to section 0 |
| ResyncTheorems.WindowHolds16 | sources/chain/dag.cpp:3108-3125 | A window holds 16 controls, its top included, or all there are below section 300 |
| ResyncTheorems.WindowCount | sources/chain/dag.cpp:3251-3265 | At most one request per 320 sections, plus one |
| DagObject.Dag.RequestControlSection | sources/chain/dag.cpp:3094-3134 | Requests the window below the aligned start, unless a live search is under way |
| DagObject.Dag.NetworkRequestControlSection | sources/chain/dag.cpp:3136-3181 | Answers with every control of the range, or finds the last one missing, or refuses a malformed range |
| DagObject.Dag.RegenerateAndRetry | sources/chain/dag.cpp:3169-3174 | What a missing control leads to: the controls from it on generated anew, and the request answered from these |
| ResyncTheorems.RegenerationAnswersIff | sources/chain/dag.cpp:3148-3174 | The second reading finds all controls if and only if the range starts at 0 or later and ends where a generation reaches; the next round is in the same position |
| DagObject.Dag.CompareControls | sources/chain/dag.cpp:3203-3237 | The loop computes the comparison that the search theorems are about, including missing local controls |
| DagObject.Dag.NetworkControlRangeResponse | sources/chain/dag.cpp:3183-3298 | The outcome and the new state of a handled answer; a malformed range, a repair and completion release the search flag, everything else leaves it as it was |
| DagObject.Dag.RemoveSections | sources/chain/dag.cpp:2311-2344 | The downward loop removes exactly the files in the range and in folders that start in it, and lowers current section and cache |
| DagObject.Dag.NetworkRequestFileSections | sources/chain/dag.cpp:1631-1678 | The stored files of the range in order, or a refusal outside the peer's chain |
| DagObject.Dag.NetworkFileSectionsResponse | sources/chain/dag.cpp:1680-1765 | Files are taken over and both bounds moved as `TakeFilesBounds` and `TakeFilesCopies` describe, and the next range starts right after this one unless the end is reached |
| ResyncProtocol.SearchStaysInReach | sources/chain/dag.cpp:3267-3297 | A repair starts at a compared control or at the node's own last section |
| ResyncProtocol.SearchControls | sources/chain/dag.cpp:3094-3298 | The exchange of control messages ends, within the bound on requests, in the outcome of the specified search |
| ResyncProtocol.Fetch | sources/chain/dag.cpp:1631-1765 | The exchange of file messages ends and has downloaded what the specification says |
| ResyncProtocol.Synchronise | sources/chain/dag.cpp:3094-3298 | The whole exchange between two nodes leaves the peer alone and the node in the state that the repair theorems describe |
| ResyncProtocol.ResynchronisedBounds | sources/chain/dag.cpp:3183-3298 | What a whole synchronisation makes of the bounds: unchanged without a repair; otherwise the first saved section is the old one or the least received, and the cache stands at the multiple of 20 at or below the start of the deletion |
| Transactions.LessIsStrictTotalOrder | sources/chain/transaction.cpp:212-239 | The order over eleven fields is a strict total order |
| Transactions.FirstDifferentKeyDecides | sources/chain/transaction.cpp:212-239 | Which order it is: the first of the eleven fields, in this sequence, in which two transactions differ decides |
| Transactions.EqualityIsCoarserThanOrder | sources/chain/transaction.cpp:241-263 | What the order identifies is equal; what is equal is told apart by the order exactly when amount, hash or signature differ |
| TransactionHashing.CalculateHash | sources/chain/transaction.cpp:96-115 | The accumulating loop hashes all fields followed by all previous hashes |
| TransactionHashing.FieldsStandInOrder | sources/chain/transaction.cpp:96-110 | Every field stands in the hashed text right after those before it, and the previous hashes after all of them |
| TransactionHashing.HashInputCommits | sources/chain/transaction.cpp:96-110 | Between transactions written with the same widths, the hashed text is equal if and only if all hashed fields are |
| TransactionHashing.WidthsMatter | sources/chain/transaction.cpp:96-110 | Otherwise it need not be: two different transactions with the same hashed text |
| OrderedSets.InsertAddsOne | sources/chain/dag.cpp:793-794 | Insertion keeps the set ordered and duplicate-free and adds exactly the one element |
| OrderedSets.SameElementsSameSequence | sources/chain/transaction.cpp:212-239 | An ordered set has one iteration order, whatever order its elements arrived in |
| SectionStorage.SaveAddsOne | sources/chain/dag.cpp:756-817 | Cache moves and control generation included, a save changes the contents by the one transaction and the bounds |
| SectionStorage.SavingEachAddsAll | sources/chain/dag.cpp:756-817 | Saving a sequence one by one adds it all, on any chain |
| SectionStorage.AddedBounds | sources/chain/dag.cpp:756-817 | Adding any sequence raises the current section to the greatest one among them, and only an empty chain gets a first section: the first non-negative one |
| SectionStorage.AddedContents | sources/chain/dag.cpp:756-817 | Every section then holds exactly what it held and what was added for it |
| SectionStorage.RunIsOneByOne | sources/chain/dag.cpp:841-932 | Inserting the transactions of one section at once is adding them one by one |
| SectionStorage.SavedRunAdds | sources/chain/dag.cpp:865-918 | Cache moves and generation included, one section of a batch adds its transactions and nothing else |
| SectionStorage.SavedBatchAdds | sources/chain/dag.cpp:841-932 | So does the whole batch, whatever sections it names |
| DagObject.Dag.SaveTransactions | sources/chain/dag.cpp:841-932 | On any chain, an empty one included, a batch leaves the state, controls and cache included, that its sections leave when saved one after the other, and the contents and bounds that saving its transactions one by one leaves; the upper bound returned is right, the lower one is the least section other than -1 |
| DagObject.Dag.SaveRun | sources/chain/dag.cpp:865-918 | One section of a batch is read and written once: a section whose transactions changed has no control afterwards, an unchanged one keeps its own, and the cache moves as the specified run says |
| DagObject.Dag.EndOfRun | sources/chain/dag.cpp:865-869 | The inner loop takes the longest run of transactions of one section, never none |
| BatchControls.RunOfOneIsSave | sources/chain/dag.cpp:756-932 | For one transaction and a section not stored yet, a batch does what a save does, control generation included |
| BatchControls.RunIntoStored | sources/chain/dag.cpp:865-918 | Into a stored section it moves the cache without generating: no other section gains or loses a control, and nothing changes if every transaction is there already |
| BatchControls.CacheMoveKeepsControls | sources/chain/dag_cache.cpp:408-478 | A cache move on any chain whose controls are right keeps them right if it crosses no gap, and writes none above where it moves to |
| BatchControls.BatchKeepsControls | sources/chain/dag.cpp:841-932 | All stored controls are right after a batch, of any length, whose sections lie at or above every stored control and whose cache moves cross no gap |
| BatchControls.RunBelowControlIsWrongIff | sources/chain/dag.cpp:865-918 | A run into a stored section leaves all controls right if and only if it adds nothing there or no control lies above |
| DagObject.Dag.CalculateSectionDiff | sources/chain/dag.cpp:721-754 | Walking both versions side by side yields exactly new without old and old without new, ordered and duplicate-free |
| SectionStorage.DiffLeadsToNew | sources/chain/dag.cpp:721-754 | Applying the difference to the old version gives the new one |
| DagObject.Dag.SearchDuplicateByHash | sources/chain/dag.cpp:1263-1290 | Finds a transaction with the hash if and only if one is stored in a section that the search reaches |
| Acceptance.StoredHashIsFoundIff | sources/chain/dag.cpp:1263-1290 | Within the 15-section window a stored hash is found if and only if its section is neither negative nor below the first saved one |
| Acceptance.StoredHashIsReachedIff | sources/chain/dag.cpp:1263-1290 | Without the window: a hash stored in one section is found if and only if that is neither negative nor below the first saved one and at most 100 non-empty sections lie above it |
| Acceptance.AcceptedStaysStored | sources/chain/dag.cpp:367-377 | Along every run of acceptances what was accepted stays stored |
| Acceptance.NoHashIsAcceptedTwice | sources/chain/dag.cpp:1005-1012 | Over every run a hash accepted twice for its section is for a negative section or one below the first saved |
| Acceptance.UnsearchedIsAcceptedAgain | sources/chain/dag.cpp:1266-1275 | Whatever is accepted for a negative section or one below the first saved is accepted once more after it was saved, unless it is weighed against a balance that it changed |
| DagObject.Dag.ProcessTransaction | sources/chain/dag_cache.cpp:605-663 | Every balance moves by the transaction's effect on it, which is what `AcceptedEffectIs` says, and no other entry changes value |
| DagObject.Dag.CalculateBalances | sources/chain/dag_cache.cpp:268-331 | The cached balance plus the effects of every later section up to and including the last one asked for |
| DagObject.Dag.AddSection | sources/chain/dag_cache.cpp:307-320 | Skipping transactions that do not involve the actor makes no difference |
| DagObject.Dag.FoldSection | sources/chain/dag.cpp:1146-1188 | The validator's pass adds the effect of every other transaction of the section once |
| Balances.InsertedEffect | sources/chain/dag.cpp:1146-1188 | Where in the set order a transaction lands does not matter to balances; one already present adds nothing |
| DagObject.Dag.ProveTransaction | sources/chain/dag.cpp:934-1216 | The verdict is that of the specified checks in their order, with the first failing one reported |
| DagObject.Dag.ProveParties | sources/chain/dag.cpp:1014-1094 | The checks of sender, receiver and signature by type, in their order; what passing and failing them means is `AcceptedIff` and `RefusalNamesFirst` |
| DagObject.Dag.ProveAmount | sources/chain/dag.cpp:1096-1215 | The limits by type, and the comparison with balance and frozen amount |
| Verdicts.AcceptedIff | sources/chain/dag.cpp:934-1216 | A transaction is accepted if and only if it meets all its requirements, stated in no order: window, right and new hash, known sender, receiver by type, signature verified, limits by type, positive and covered amount, tokens of a conversion |
| Verdicts.AcceptedRunMeetsRequirements | sources/chain/dag.cpp:334-390 | Along every run of acceptances every transaction met them when its turn came |
| Verdicts.RefusalNamesFirst | sources/chain/dag.cpp:934-1216 | The verdict is the error of the first check that fails, in the table of checks for the type |
| DagObject.Dag.NetworkTransaction | sources/chain/dag.cpp:334-390 | The chain changes exactly if the verdict is positive, and then by one save |
| Acceptance.BalanceMoves | sources/chain/dag_cache.cpp:268-331 | Storing one more transaction moves each balance by its effect if balances are computed through its section, and not at all otherwise |
| Ledger.AcceptedEffectIs | sources/chain/dag_cache.cpp:605-663 | For every type that is accepted: the receiver of transfers and mintings, the sender of rewards, contracts and conversions gains the amount in its token; the sender of transfers, burns and conversions loses it, the latter in the token converted from; nobody else gains or loses |
| Ledger.OpeningsAreTransfers | sources/chain/dag_cache.cpp:605-663 | Genesis and Balance transactions move balances as a transfer does; unknown ones move none |
| Ledger.AcceptedMovesBalances | sources/chain/dag_cache.cpp:268-331 | Storing an accepted transaction moves the calculated balances by just that, if its section counts |
| Ledger.AcceptedChangesTotal | sources/chain/dag_cache.cpp:605-663 | Over all actors transfers change no token's total, rewards, mintings and contracts raise it, burning lowers it, and a conversion moves the amount from one total to the other |
| Ledger.FoldIsEffectIff | sources/chain/dag.cpp:1146-1188 | The validator's own pass over a section agrees with the balances on a transaction if and only if it is not one of the kinds misjudged |
| Ledger.AcceptedIsMisjudgedIff | sources/chain/dag.cpp:1146-1188 | Of what is accepted those are conversions away from the token, mintings sent by the actor and contracts for it |
| Ledger.FoldIsSum | sources/chain/dag.cpp:1146-1188 | Where none of these is in the section, the pass adds its effects |
| Acceptance.AdmittedMovesBalanceIff | sources/chain/dag_cache.cpp:268-331 | A transaction that the window admits takes effect if and only if its section is after the cached one, or it has no effect; below that only the cached section itself is admitted |
| Acceptance.LatePaymentIsNeverCounted | sources/chain/dag_cache.cpp:480-603 | When the cache moves on and takes the balances along, a transaction that came too late is still missing from all of them |
| Acceptance.CarryingOverKeepsBalances | sources/chain/dag_cache.cpp:480-603 | Moving the cache and carrying the balances over changes no balance |
| Acceptance.SavedBalances | sources/chain/dag.cpp:756-817 | A save, with or without a cache move, does to every balance what adding the one transaction does, except for a transaction for the very section that the cache moves to, which does nothing |
| Acceptance.SavedMovesBalanceIff | sources/chain/dag.cpp:756-817 | A save takes effect on balances if and only if its section is after the cached one as it stands then, or there is no effect |
| Acceptance.AcceptedTransferIsCovered | sources/chain/dag.cpp:1142-1213 | What an accepted transfer's amount is bounded by: the balance through the section plus the section's own effects again, less what is frozen |
| Acceptance.TransferKeepsNonNegativeIff | sources/chain/dag.cpp:1190-1213 | An accepted transfer leaves all balances non-negative if and only if the balance through its section covers it, or its token is the zero id, or balances are not computed through its section |
| Acceptance.ValidatorIsSoundIff | sources/chain/dag.cpp:1142-1213 | No amount beyond the balance is let through if and only if the section credits the sender on balance with no more than is frozen |
| Acceptance.ValidatorIsCompleteIff | sources/chain/dag.cpp:1142-1213 | No covered amount is refused if and only if the section credits the sender on balance with at least what is frozen, or its balance is zero |
| Acceptance.FrozenBindsRegularOnly | sources/chain/dag.cpp:1190-1213 | What is frozen limits regular transfers on a network with an id, and no other type |
| Acceptance.PaymentKeepsNonNegative | sources/chain/dag.cpp:1096-1115 | Rewards and contract initialisations never hurt, transfers do not without a net credit beyond what is frozen |
| Acceptance.SavedPaymentKeepsNonNegative | sources/chain/dag.cpp:367-377 | The same of an accepted payment that is saved, with the balances carried over if the cache moves |
| Acceptance.SectionRunKeepsNonNegative | sources/chain/dag.cpp:1146-1193 | Over every run of accepted and saved payments into one section, in whatever order and with cache moves in between, no balance becomes negative if no transfer's sender has a net credit in the section; for a section that does not count, without that condition |
| Acceptance.DoubleCountingOverdraws | sources/chain/dag.cpp:1142-1188 | A sender with one credit in the section and nothing else is let through with twice that credit, less what is frozen |
| Acceptance.TransferConserves | sources/chain/dag_cache.cpp:605-663 | An accepted transfer leaves the total of every token unchanged, in any section; into the cached section nothing moves |
| Instances.SaveStep | sources/chain/dag.cpp:756-817 | What one save that crosses no gap does to transactions and controls |
| Instances.Climb | sources/chain/dag.cpp:934-1216 | Any chain of rewards, each at most 15 sections after the one before, is accepted from the empty chain on, and ends with every control in place |
| Instances.GapIsReachable | sources/chain/dag.cpp:2868-2900 | A run of seven accepted transactions that crosses a gap and stores a wrong control |
| Instances.SuchTransactions | sources/chain/dag.cpp:970 | Such transactions exist for any seven hashes |
| Instances.BlindSpot | sources/chain/dag.cpp:3239-3265 | Two runs of accepted transactions, one transaction apart, whose difference is still there after the whole resynchronisation |
| Instances.SuchLadders | sources/chain/dag.cpp:3239-3265 | Such runs exist for any 25 hashes, with one transaction in every 15th section up to 345 |
| Instances.OverdraftIsAccepted | sources/chain/dag.cpp:1142-1215 | A run of four accepted transactions, network id set or not, after which a balance is negative |
| Instances.SpentTwice | sources/chain/dag_cache.cpp:268-331 | A run of accepted transactions in which an actor with one unit pays one to each of two others, and the first gets nothing |
| Instances.NegativeTwice | sources/chain/dag.cpp:1266-1275 | A run in which one transaction, for section -1, is accepted twice |
| Instances.BelowFirstTwice | sources/chain/dag.cpp:1266-1275 | A run in which one transaction, for a section below the first saved one, is accepted twice |
| Instances.LowerBoundIsWrong | sources/chain/dag.cpp:848-863 | A batch for sections -1 and 5 returns 5 as its lower bound |
| TaintSearch.BuildIndex | sources/chain/dag.cpp:2495-2498 | The index lists exactly the receivers of each sender and token |
| TaintSearch.NextLayer | sources/chain/dag.cpp:2503-2515 | One level adds exactly the receivers of the actors known so far |
| TaintSearch.LayerIsReachedWithin | sources/chain/dag.cpp:2500-2517 | After k levels exactly the actors at the end of a chain of at most k transfers are known |
| TaintSearch.SettledIsClosure | sources/chain/dag.cpp:2500-2517 | Once a level adds nothing, every actor ever reached is known |
| TaintSearch.FindTainted | sources/chain/dag.cpp:2500-2517 | The search yields exactly the actors within 10 transfers, and all that are ever reached if its queue empties |
| ActorBuckets.EqualHashEqualBucket | headers/chain/actor_filter.h:86-107 | Bucket hashes are equal if and only if the buckets are, the empty one included |
| ActorBuckets.SameItemsSameHash | headers/chain/actor_filter.h:86-107 | Without any assumption on collisions: buckets of the same actors hash alike, and the empty one to 0 |
| ActorBuckets.KnownHashes | headers/chain/actor_filter.h:53-63 | The hash of an id takes the known values of 64-bit FNV-1a |
| ActorBuckets.ReplyCompletes | headers/chain/actor_filter.h:264-276 | A reply supplies everything the requester lacks, and nothing at all between equal nodes |
| ActorSynchronization.SortDistinct | headers/chain/actor_filter.h:211-214 | Sorting distinct ids gives the ordered set of them |
| ActorSynchronization.InsertedActor | headers/chain/actor_filter.h:285-292 | Inserting into the bucket its hash selects, and marking it if new, keeps buckets sorted right and unmarked hashes up to date |
| ActorSynchronization.ActorSynchronizer.ApplyReceivedIds | headers/chain/actor_filter.h:285-292 | The known actors grow by exactly the ids received; no unmarked hash goes stale |
| ActorSynchronization.ActorSynchronizer.SetActors | headers/chain/actor_filter.h:234-238 | Afterwards exactly the given actors are known |
| ActorSynchronization.ActorSynchronizer.CreateBucketHashes | headers/chain/actor_filter.h:133-147 | Though only marked buckets are hashed, every hash handed out is that of its bucket now |
| ActorSynchronization.ActorSynchronizer.FindDifferentBuckets | headers/chain/actor_filter.h:177-188 | Exactly the indices at which the hashes differ |
| ActorSynchronization.ActorSynchronizer.GetActorsFromBuckets | headers/chain/actor_filter.h:198-221 | The ordered, duplicate-free union of the buckets named, also with repeated indices |
| ActorSynchronization.ActorSynchronizer.CreateSyncRequest | headers/chain/actor_filter.h:247-253 | The request carries the up-to-date hash of every bucket |
| ActorSynchronization.ActorSynchronizer.ProcessSyncRequest | headers/chain/actor_filter.h:264-276 | The reply is exactly the actors in buckets that differ from the request, ordered and duplicate-free |
| ActorSynchronization.Exchange | headers/chain/actor_filter.h:247-292 | One exchange turns the requester's actors into the union and leaves the responder's alone |
| ActorSynchronization.Reconcile | headers/chain/actor_filter.h:247-292 | An exchange each way makes two nodes equal to the union, and a third transfers nothing |
| ActorIndexing.ActorIndex.constructor | sources/chain/actor_index.cpp:56-74 | Opening what is stored makes counter and synchronizer agree with the rows |
| ActorIndexing.ActorIndex.Add | sources/chain/actor_index.cpp:310-335 | Creates a file if there is none, and on an error changes nothing |
| ActorIndexing.ActorIndex.RollBack | sources/chain/actor_index.cpp:453-466 | The scope guard removes the files made, unless rolling back failed |
| ActorIndexing.ActorIndex.SaveOne | sources/chain/actor_index.cpp:470-507 | One more actor is dealt with or the batch is given up with its files listed: given up exactly if that actor's fate is such, with the not-opened error exactly for a lone actor whose missing file does not open |
| ActorIndexing.MidwayEnds | sources/chain/actor_index.cpp:470-507 | What that means at the end of the batch: the rows added, the files behind them, and every actor handled |
| ActorIndexing.GuardCleans | sources/chain/actor_index.cpp:453-466 | However a batch is given up, every row keeps its file, and if nothing fails in cleaning up no file is left over |
| ActorIndexing.FaultlessBatch | sources/chain/actor_index.cpp:470-507 | Without a fault no batch is given up, and every actor in it ends up with file and row |
| ActorIndexing.LoneActor | sources/chain/actor_index.cpp:470-507 | When a lone actor ends its batch: if it has a row, exactly if the look-up fails; else exactly if inserting fails or its missing file cannot be made |
| ActorIndexing.ActorIndex.SaveActorBatch | sources/chain/actor_index.cpp:434-515 | For every batch and every failure pattern: it errs exactly if it is not empty and opening, beginning or committing fails or one of its actors ends it, with the not-opened error exactly if the database or a lone actor's file does not open; otherwise files and rows are what the actors' fates make them, and without faults everyone has both. Each row has a file, counter and synchronizer agree with the rows, and on an error none of the three changed |
| ActorIndexing.ActorIndex.SaveActor | sources/chain/actor_index.cpp:391-401 | An actor is reported as present if and only if everything works and it has a row, and saved if and only if everything works, it has none, and file and row can be made |

## Left out

- Hash function, signatures and encodings: Blake3, key handling, JSON, MessagePack, compression and the byte layout of bucket hashes; the hash and the rendering of numbers are parameters, `verifies` and `computedHash` look-ups, and a bucket request is a sequence of 64-bit words.
- Actor ids are hexadecimal, so the sign extension of a character above 127 in the FNV loop is not modelled.
- Server build: there `remove_sections` does nothing, and Light mode, its transfer and its range file are not modelled.
- Disk and database failures, except in the batch save of actors; a section file that exists is read and written as it is.
- Threads, mutexes, timers, signals and logging; the parallel clearing is the exception and is modelled by its interleavings. A hardware concurrency reported as 0 is not covered.
- Shutdown and reentry: the `node_enabled` flag and the static flag against generating twice at once.
- ResyncTheorems.SearchIsExact: assumes that both nodes hold their right controls up to the start of the search; of missing local controls only the gap left by a late transaction is followed through the search (`SearchOfInterrupted`).
- DagObject.Dag.NetworkRequestControlSection: the recursion after a missing control is modelled round by round (`RegenerateAndRetry`), not as one call.
- ResyncProtocol.Synchronise: one honest peer that does not change and answers everything; last-info messages, timeouts, choice of peers and what runs after the last batch (control check, queued transactions) are not part of it.
- DagObject.Dag.NetworkTransaction: a ready node; the rate limit per sender, queueing while synchronising, the broadcast of the result and saves caused by other nodes' results are not part of it.
- ReadyRuns.RunIsRightIffNoGapIsCrossed: runs consist of saves within the window and control checks; Genesis and Balance transactions, which skip the window check, are excluded; batches, which have none, are treated on their own (`BatchKeepsControls`).
- Cache contents: the balances up to the cached section are given (`cachedBalances`), and removing transactions that overdraw an account while the cache is rebuilt is not modelled.
- Acceptance.SectionRunKeepsNonNegative: Burn, Conversion and Minting are not balance-checked by the source and are not part of these runs.
- Fatal stops: builds other than the UI client stop at an interval off the grid, where the model, like the UI client, leaves the interval out (`Stops`); every run that does not stop is a run of the model.
- Mint analysis: only its search over transfers; amounts, spent totals and the log are left out.
- Actor index: file contents, actor types, requests for single actors and the broadcast of new ones; the batch save is seen after its connection is closed.
- Wrappers and remaining operations: sending transactions, history listings, statistics and cached queries would add easy members only.
