# Verified model of the win32 bindings: call path, lazy loading, and generator core

The project models the parts of go-bindings-win32 whose correctness is not visible in any one function.

- **The register-aware call path** (`bindings/runtime/win32/call.go`). Memory is a map from addresses to bytes and
  words are 64-bit little-endian. The planners are given three times: as imperative code over frames, slices
  and a heap (`CallFrames`), as functions (`Arm64Planner`, `Amd64Planner`, `Returns`), and from the outside by callees
  written from the standards alone (`Aapcs64`: sections 6.8.2 and 6.9 of the AAPCS64; `MicrosoftX64`: "Parameter
  passing" and "Return values" of the x64 calling convention). The callees know nothing of the planner's state: they count
  NGRN, NSRN and a byte offset NSAA. The methods are proved equal to the functions, and the functions are proved to
  give the callees what the caller meant. `FramePool` is the life of pooled frames over all interleavings.
- **Breaking import cycles** (`internal/codegen/pipeline/cycles.go`). `Metadata` is the tree of type references,
  `ReferenceWalk` the counting walk, `ImportGraph`/`CycleSearch` the depth-first search, `CycleBreaking`/`ImportCycles`
  the greedy loop, and `ImportBlocking` what the loop means for the metadata. `ExtraEdges` and `ShadowedReferences` settle
  what it means when a namespace has several records. Three modules say without the algorithm what it computes:
  `ReferencePositions` what a weight counts, `FirstCycle` which cycle is reported, `SeveranceOrder` which edges are blocked.
- **Registry indexes and vtable layout** (`internal/codegen/pipeline/loader.go`, `cmd/generate/validate.go`):
  `Vtables` and `Registry`.
- **Lazy resolution** (`bindings/runtime/win32/loader.go`). `LazyLoad` is a step system: any number of goroutines,
  nested `sync.Once` bodies, and an operating system that answers as it likes. `LazyAnswers` traces every answer to
  an event of the run. `LazyProcs` is the same code as objects,
  proved to do what one undisturbed goroutine does in the step system.
- **Structs as words** (`bindings/runtime/win32/runtime.go`): `StructWords`.

What comes from outside is a parameter: the addresses the Go allocator answers with (`Operand.base`; they may be anything
that overlaps neither live memory nor each other), the callee's result registers and memory, the answers of
LoadLibraryExW and GetProcAddress, the scheduling of goroutines, the enumeration order of maps, and the moments at which
the pool drops frames.

Descriptors of composites are taken as the generator promises them: not empty, room for 16 bytes of slack in
32 bits, at most four HFA elements, and an HFA exactly as large as its elements. Nothing is assumed of a descriptor's
alignment, and nothing of metadata.

## Where the code and a promise part

- By-reference copies on arm64 are 8-byte aligned whatever alignment the composite asks for. They meet the composite's
  own alignment for every allocator answer if and only if that alignment divides 8 (`Arm64Placement.CopyMeetsAlignmentIff`).
- Two records for one namespace overwrite each other's edges, so a reference can be shadowed: missing from the graph whose
  cycles are broken. No import cycle is left, however often each reference occurs, if and only if no cycle of references
  goes through a shadowed one (`ShadowedReferences.OrderedIff`); `ShadowedReferences.DuplicateRecordsLeaveACycle` is
  a concrete input on which no ranking of the namespaces exists.
- `ProcError.Is` takes an empty procedure name to mean that the DLL is missing, so an unnamed export that merely is not
  found is misreported: a Proc's failures are told apart truthfully in every run if and only if it has a name (`LazyLoad.TruthfulIffNamed`);
  `LazyLoad.UnnamedExportMisreported` is a misreporting run for any unnamed one.
- `lightestEdge` joins names with "→" to break ties. With that character inside names two different edges can tie
  (`CycleBreaking.ArrowsCanTie`); the choice is independent of where the cycle is entered if and only if nothing ties
  (`CycleBreaking.RotationInvariantIff`), and names without the character never tie.

## Model

| member | source | states |
|---|---|---|
| Arm64RoundTrip.RoundTrip | bindings/runtime/win32/call.go:258-321 | for every argument list and every allocator, a callee following AAPCS64 section 6.8.2 finds every word, every float's bits and every composite's bytes; no live byte of the caller changes and nothing but the copies' buffers is mapped |
| Arm64RoundTrip.OperandRecovered | bindings/runtime/win32/call.go:271-318 | in any later state of the call, the standard's rules applied at this argument's cursor give its value and the cursor of the next planner state |
| Arm64RoundTrip.RunRecovered | bindings/runtime/win32/call.go:271-319 | the same for any suffix of the argument list, from any planner state |
| Arm64Placement.ExactCover | bindings/runtime/win32/call.go:258-321 | disjoint homes, each holding exactly its argument's words; stacked homes in argument order, 16-byte-aligned ones at even words; every other slot zero, and on the stack only padding in front of such a composite |
| Arm64Placement.HomesDisjoint | bindings/runtime/win32/call.go:258-321 | no two arguments share an int register, a float register or a stack word, from any planner state |
| Arm64Placement.HomeContents | bindings/runtime/win32/call.go:258-321 | after the whole run an argument's slots still hold its own words in order |
| Arm64Placement.Uncovered | bindings/runtime/win32/call.go:403-414 | a slot of no argument keeps its old content, or is a zero word right before a 16-byte-aligned stacked composite |
| Arm64Placement.StackOrder | bindings/runtime/win32/call.go:258-321 | stacked arguments lie in argument order without overlap |
| Arm64Placement.WideStartsEven | bindings/runtime/win32/call.go:403-406 | a stacked 16-byte-aligned composite starts at an even word |
| Arm64Placement.CountersIndependent | bindings/runtime/win32/call.go:259-318 | deleting every argument of the other class changes no register and no register home of this class |
| Arm64Placement.NoBackfill | bindings/runtime/win32/call.go:260-318 | once an argument has spilled, no later argument of its class writes or is given a register |
| Arm64Placement.FullStaysFull | bindings/runtime/win32/call.go:260-318 | with a counter at 8, no argument list touches that class's registers |
| Arm64Placement.CopyMeetsAlignmentIff | bindings/runtime/win32/call.go:297-300 | the by-reference copy meets the composite's alignment for every allocator answer if and only if the alignment divides 8 |
| Arm64Planner.RunKeeps | bindings/runtime/win32/call.go:258-321 | counters only grow, and registers below them and stack words already placed are never written again |
| Arm64Planner.RunPreserves | bindings/runtime/win32/call.go:297-300 | by-reference copies never overwrite memory that was in use |
| Amd64RoundTrip.RoundTrip | bindings/runtime/win32/call.go:209-238 | for every call an x64 callee finds every argument's value by position and class, and the hidden return pointer in RCX exactly when it expects one; the stack holds only the words past the fourth, unused registers are zero, and nothing but the copies' buffers is mapped |
| Amd64RoundTrip.ArgumentAtHome | bindings/runtime/win32/call.go:212-236 | argument i of any call, one position later behind a hidden return pointer, is where the convention looks for it: register i of either class, or eight bytes above the shadow space |
| Amd64RoundTrip.Positional | bindings/runtime/win32/call.go:229-236 | position p, read by the convention's offsets from RSP in either class, is word p |
| Amd64RoundTrip.CopyIsFaithful | bindings/runtime/win32/call.go:221-225 | every by-reference copy is 16-byte aligned, inside its buffer, and equal to the source at the call |
| Amd64Planner.CopiesHold | bindings/runtime/win32/call.go:382-389 | later copies do not disturb earlier ones |
| Returns.Arm64ReturnArrives | bindings/runtime/win32/call.go:323-343 | whatever composite a conforming callee returns, finishing leaves its bytes in the buffer and changes no other byte; the finish stores exactly the register results |
| Returns.Amd64ReturnArrives | bindings/runtime/win32/call.go:240-244 | the same for x64, with the hidden pointer that the planner passed |
| Returns.Arm64FinishFrame | bindings/runtime/win32/call.go:323-343 | whatever the registers hold, nothing is written after a word or float return, and nothing outside the buffer after a composite one |
| Returns.Amd64FinishFrame | bindings/runtime/win32/call.go:240-244 | the same for x64 |
| Returns.IndirectResultIff | bindings/runtime/win32/call.go:268-270 | X8 is the buffer's address exactly for a result that the standard returns through memory, and zero otherwise |
| Returns.Arm64CallIsTransparent | bindings/runtime/win32/call.go:258-343 | if a conforming callee computes f of the parameters it finds, the caller reads back f of the values passed, as a word, a float or a composite, and of the callee's memory only a composite's buffer is written |
| Returns.Amd64CallIsTransparent | bindings/runtime/win32/call.go:209-244 | the same for x64 |
| Bytes.PackWordRoundTrip | bindings/runtime/win32/call.go:365-374 | loading up to eight bytes into a zeroed word and taking the low bytes back loses nothing, and the rest is zero |
| Bytes.ByteOfWord | bindings/runtime/win32/call.go:364-374 | byte i of a word is its digit of weight 256 to the i: words are little-endian |
| Bytes.PackWordsRoundTrip | bindings/runtime/win32/call.go:407-413 | a composite rounded up to whole words has its bytes at the front of their image, with under eight bytes of slack |
| CallFrames.Heap.CopyBytes | bindings/runtime/win32/call.go:376-378 | the bytes that were in the source range are at the destination, also when the ranges overlap, and nothing else changed |
| CallFrames.Heap.LoadWord | bindings/runtime/win32/call.go:365-369 | the little-endian reading of the bytes, zero-extended |
| CallFrames.Heap.StoreWord | bindings/runtime/win32/call.go:372-374 | exactly the low bytes of the word are written |
| CallFrames.Heap.AlignedCopy | bindings/runtime/win32/call.go:382-389 | the copy lies at the first aligned address of the fresh buffer, and nothing outside the buffer changed |
| CallFrames.WordSlice.Append | bindings/runtime/win32/call.go:266 | one word more; while the words fit they stay in the array the slice started on |
| CallFrames.WordSlice.AppendComposite | bindings/runtime/win32/call.go:403-414 | padding to an even word when 16-byte aligned, then the composite's bytes in whole words |
| CallFrames.CallFrame.Reset | bindings/runtime/win32/call.go:165 | every field but fn is zero whatever a previous call left |
| CallFrames.Arm64Plan.PutInt | bindings/runtime/win32/call.go:260-267 | the next int register, or one more stack word |
| CallFrames.Arm64Plan.PutFloat | bindings/runtime/win32/call.go:275-282 | the next float register, or one more stack word |
| CallFrames.Arm64Plan.HfaElement | bindings/runtime/win32/call.go:393-398 | element e as the bits a D register carries |
| CallFrames.Arm64Plan.PutHfa | bindings/runtime/win32/call.go:286-296 | one element per register when all fit, else the whole aggregate on the stack and NSRN full |
| CallFrames.Arm64Plan.PutSmall | bindings/runtime/win32/call.go:301-316 | consecutive registers from an even one when 16-byte aligned, else the stack and NGRN full |
| CallFrames.Arm64Plan.PutReference | bindings/runtime/win32/call.go:297-300 | a pointer to an aligned copy, placed like a word |
| CallFrames.Arm64Plan.Put | bindings/runtime/win32/call.go:271-318 | one turn of the loop is one step of the planner function |
| CallFrames.PlanArm64 | bindings/runtime/win32/call.go:258-321 | the frame, the stack words, memory and X8 are those of the planner function the round trip is about |
| CallFrames.PlanAmd64 | bindings/runtime/win32/call.go:209-238 | the same for x64 |
| CallFrames.FinishArm64 | bindings/runtime/win32/call.go:323-343 | memory after is that of the finish function the return and frame lemmas are about |
| CallFrames.FinishAmd64 | bindings/runtime/win32/call.go:240-244 | the same for x64 |
| CallFrames.Enter | bindings/runtime/win32/call.go:160-182 | which calls panic before the trampoline, exactly: a count mismatch, an unsupported GOARCH, too many stack words; otherwise a frame with any history holds the plan over a zeroed frame and its stack words lie in its own 42-word array |
| CallFrames.Call | bindings/runtime/win32/call.go:160-197 | the whole call on heap and frame: unless one of the three panics applies, the caller of a conforming callee that computes f reads back f of the values it passed, from the Result or from its buffer; nothing else of the callee's memory is written, in particular nothing at all for a word or float |
| FramePool.RecyclingIsInvisible | bindings/runtime/win32/call.go:137-197 | over every run: frames in flight are distinct and not pooled; every trampoline loads what a first-use frame would hold and its frame is untouched until the callee returns; every finished call reports its own capture |
| FramePool.Reentry | bindings/runtime/win32/call.go:137-140 | from any reachable state, a callee that re-enters can make a whole call on another frame with its own result, and nothing of the outer call changes |
| FramePool.StepKeepsInv | bindings/runtime/win32/call.go:164-195 | Get, plan, load, return, Put, panic and pool drops each keep that invariant |
| FramePool.FirstUseIsThePlan | bindings/runtime/win32/call.go:160-182 | a first-use frame holds the planner functions' result on either architecture |
| ImportGraph.FindCycleCorrect | internal/codegen/pipeline/cycles.go:121-173 | nothing is reported exactly when the graph is acyclic; otherwise a closed path of at least one edge along edges, distinct but for its end; and an empty-handed search yields a ranking that every edge descends |
| FirstCycle.FindCycleIsFirst | internal/codegen/pipeline/cycles.go:118-173 | which cycle: findCycle reports exactly the cycle met from the first doomed source by going on to the first doomed target each time, a node being doomed when some walk from it comes back on itself |
| CycleSearch.CycleFinder.Visit | internal/codegen/pipeline/cycles.go:137-166 | the recursive visit over the mutable state map and stack is the search function, and restores the stack |
| CycleSearch.CycleFinder.Run | internal/codegen/pipeline/cycles.go:121-173 | the whole search is that function, whatever order map keys arrive in |
| Names.SortedKeys | internal/codegen/pipeline/cycles.go:131-145 | the unique increasing listing of the keys |
| Names.LessIsPrecedes | internal/codegen/pipeline/cycles.go:135-145 | the order used throughout is string order: a proper prefix, or the smaller character at the first difference |
| CycleBreaking.LightestIsBest | internal/codegen/pipeline/cycles.go:175-188 | the chosen edge lies on the cycle; every edge of the cycle weighs more, or as much with the same or a later label in string order; on equal labels it is the first such edge of the path |
| CycleBreaking.RotationInvariantIff | internal/codegen/pipeline/cycles.go:177-188 | the choice is the same wherever the cycle is entered if and only if no two edges tie for best |
| CycleBreaking.ArrowFreeNamesNeverTie | internal/codegen/pipeline/cycles.go:183 | names without the separator never tie |
| CycleBreaking.ArrowsCanTie | internal/codegen/pipeline/cycles.go:183 | with the separator in names a cycle exists on which two edges tie |
| CycleBreaking.BreakCyclesCorrect | internal/codegen/pipeline/cycles.go:40-53 | blocked and surviving edges partition the original edges, the survivors descend under one ranking, and no closed walk is left |
| SeveranceOrder.BlockedIsSeverance | internal/codegen/pipeline/cycles.go:40-53 | the blocked set without the loop: its arcs can be ordered so that each is the edge to sever of the first cycle left by those before it and none is left at the end, and every such order has this set |
| CycleBreaking.SeveredIsLightest | internal/codegen/pipeline/cycles.go:40-53 | every blocked edge is a lightest edge of some cycle of the original graph |
| CycleBreaking.SeversHeavyIff | internal/codegen/pipeline/cycles.go:40-53 | an edge of some weight or more is blocked if and only if some cycle of the original graph has no lighter edge |
| CycleBreaking.HeavyEdgesSurvive | internal/codegen/pipeline/cycles.go:12-15 | where every cycle has an edge below a bound, every blocked edge is below it |
| ExtraEdges.ExtrasHarmlessIff | internal/codegen/pipeline/cycles.go:40-53 | with arcs that the loop does not see, breaking the cycles leaves none whatever the weights if and only if no cycle of all arcs goes through an unseen one |
| ExtraEdges.FavouredCycleSurvives | internal/codegen/pipeline/cycles.go:40-53 | where one does, weights under which the loop severs no edge of that cycle |
| CycleBreaking.WithoutRemovesOne | internal/codegen/pipeline/cycles.go:47 | a round deletes exactly one edge and alters no weight, which is why the loop ends |
| ImportCycles.LightestEdge | internal/codegen/pipeline/cycles.go:177-188 | the running best ends as that edge |
| ReferencePositions.WeightCountsPlaces | internal/codegen/pipeline/cycles.go:22-34 | the weight of a namespace is the number of places in the record, found by path, that hold a reference to it, plus 1000 for every interface with a base there |
| ImportBlocking.EdgeWeightCounts | internal/codegen/pipeline/cycles.go:22-37 | the same of an edge of the graph, for the shown record |
| ImportCycles.Weights | internal/codegen/pipeline/cycles.go:22-34 | the weights computed for one record are these numbers |
| ImportCycles.Edges | internal/codegen/pipeline/cycles.go:19-38 | the weighted graph built by the loop is that of the references |
| ImportCycles.ComputeBlockedImports | internal/codegen/pipeline/cycles.go:16-53 | ends on every metadata set with the blocked set the lemmas are about, that of a severance order of the reference graph, the same for every enumeration order of the maps |
| Metadata.MentionsAgree | internal/codegen/pipeline/cycles.go:58-116 | the walk counts a namespace exactly when a type reference at any depth or a base interface leads there |
| Metadata.NeverSelf | internal/codegen/pipeline/cycles.go:23-37 | a namespace never counts itself or the empty name |
| Metadata.EmbeddingIsHeavy | internal/codegen/pipeline/cycles.go:29-34 | an embedded base counts at least 1000 |
| Metadata.SumAnyOrder | internal/codegen/pipeline/cycles.go:72-103 | the counts over a map do not depend on which key is taken first |
| ReferenceWalk.ReferenceCounter.WalkStruct | internal/codegen/pipeline/cycles.go:68-79 | fields, nested types and architecture variants, recursively, each counted once |
| ReferenceWalk.ReferenceCounter.WalkNamespaceRefs | internal/codegen/pipeline/cycles.go:58-116 | the weights grow by exactly the namespace's mentions, in whatever order maps are enumerated |
| ReferenceWalk.WalkCounts | internal/codegen/pipeline/cycles.go:58-116 | and these add one for every place of the record that refers to a namespace |
| ReferenceWalk.ReferenceCounter.CountEmbeddings | internal/codegen/pipeline/cycles.go:29-34 | and by 1000 for every embedded base of another namespace |
| ReferenceWalk.EmbeddingCounts | internal/codegen/pipeline/cycles.go:29-34 | these add 1000 for every interface with a base in a namespace |
| ImportBlocking.EdgeIff | internal/codegen/pipeline/cycles.go:19-38 | an edge exists exactly when the last record of the namespace with references refers there |
| ImportBlocking.UnblockedReferencesDescend | internal/codegen/pipeline/cycles.go:16-116 | under one ranking of namespaces every reference of a shown record, at any depth, is blocked or strictly descends |
| ShadowedReferences.ReferencesIff | internal/codegen/pipeline/cycles.go:19-38 | the arcs of the metadata are exactly the references of its records, at any depth |
| ShadowedReferences.ShadowedIff | internal/codegen/pipeline/cycles.go:35-37 | a reference is missing from the graph exactly when a record makes it and the shown record of that namespace does not |
| ShadowedReferences.OrderedIsAcyclic | internal/codegen/pipeline/cycles.go:16-53 | for any metadata: one ranking orders all unblocked references of all records if and only if the survivors and the shadowed references close no cycle |
| ShadowedReferences.AllReferencesDescend | internal/codegen/pipeline/cycles.go:16-116 | if no cycle of references goes through a shadowed one, one ranking orders all unblocked references of all records |
| ShadowedReferences.OrderedIff | internal/codegen/pipeline/cycles.go:16-53 | that condition is exact: the promise holds however often each reference occurs if and only if no cycle of references goes through a shadowed one |
| ShadowedReferences.ACycleSurvives | internal/codegen/pipeline/cycles.go:35-47 | where one does, metadata with the same references in which no ranking exists |
| ShadowedReferences.DistinctNamespacesOrdered | internal/codegen/pipeline/cycles.go:16-116 | with one record per namespace nothing is shadowed and the promise holds |
| ImportBlocking.EmbeddingsSurvive | internal/codegen/pipeline/cycles.go:14-17 | if every cycle has an edge lighter than 1000, no base embedding is blocked |
| ShadowedReferences.DuplicateRecordsLeaveACycle | internal/codegen/pipeline/cycles.go:35-37 | a metadata set of three records, two for one namespace, in which nothing is blocked and no ranking orders the references |
| Vtables.VtableStartSlot | internal/codegen/pipeline/loader.go:136-154 | the loop ends on every registry, cyclic ones included, with the result the lemmas below characterise; slot 0 on failure, and 0 with ok for a name that is not indexed |
| Vtables.StartSlotCorrect | internal/codegen/pipeline/loader.go:136-154 | for an indexed interface: ok exactly when the base chain is finite and fully resolved, and then the method count of all proper ancestors |
| Vtables.StartsWhereBaseEnds | internal/codegen/pipeline/loader.go:133-154 | ok(D) exactly when the base is indexed and ok, and then D starts where its base's methods end |
| Vtables.VtableTiles | internal/codegen/pipeline/loader.go:133-154 | the ancestors' methods occupy exactly the slots below the start slot, each once |
| Vtables.AncestorStart | internal/codegen/pipeline/loader.go:133-154 | within the chain each ancestor's own start slot is the one VtableStartSlot gives for it |
| Vtables.AncestryUnique | internal/codegen/pipeline/loader.go:139-152 | an interface has at most one finite base chain |
| Vtables.FailsExactlyWhenCyclic | internal/codegen/pipeline/loader.go:142-144 | where no base dangles, failure means exactly that the chain revisits an interface |
| Registry.FunctionOwners | internal/codegen/pipeline/loader.go:77-99 | for every name: an entry exactly when some record declares it; with one declaring namespace that namespace and the first such function of the first such record; otherwise the empty entry |
| Registry.OwnersByFirst | internal/codegen/pipeline/loader.go:31-34 | the same of the fold the loop computes, in terms of records and positions |
| Registry.OwnersCorrect | internal/codegen/pipeline/loader.go:31-34 | a definition exactly when one namespace declares the name, and then its first declaration; ambiguous otherwise, for good |
| Registry.OwnershipIgnoresOrder | internal/codegen/pipeline/loader.go:77-99 | known, owned or ambiguous, and the owner, depend only on which namespace declares which name |
| Registry.LoadOrderIrrelevant | internal/codegen/pipeline/loader.go:77-99 | so they are the same for every order of the namespace records |
| Registry.InterfaceIndexOf | internal/codegen/pipeline/loader.go:115-118 | a key is indexed exactly when an interface has it, and maps to the last one that does, in whatever order maps are enumerated |
| Registry.IndexHasSource | internal/codegen/pipeline/loader.go:115-118 | every index entry is the last interface of the records with that key |
| Registry.QualifiedInjective | internal/codegen/pipeline/loader.go:44 | within a namespace different names have different keys |
| Registry.QualifiedDeterminesBoth | internal/codegen/pipeline/loader.go:44 | for names without a dot, over all namespaces, the key determines namespace and name |
| Registry.QualifiedCollides | internal/codegen/pipeline/loader.go:44 | with a dot in a name two different interfaces share a key |
| Registry.CheckBases | cmd/generate/validate.go:99-109 | for each interface whose base is not indexed exactly one error per record that declares it, and no other error |
| Registry.CleanCheckLeavesOnlyCycles | cmd/generate/validate.go:99-109 | after a clean check VtableStartSlot fails on an indexed interface exactly when its chain is cyclic |
| LazyLoad.LoadedAndLookedUpOnce | bindings/runtime/win32/loader.go:104-139 | in every state of every interleaving each DLL is loaded and each export looked up at most once, with the non-zero handle of the one successful load |
| LazyLoad.CompletedCallsAgree | bindings/runtime/win32/loader.go:125-158 | all completed Find and Addr calls on one Proc, at any two times, agree |
| LazyAnswers.AnswersComeFromTheRun | bindings/runtime/win32/loader.go:104-158 | over every run: a completed address is that of a successful lookup of its own export, a completed error that of its failed lookup or its DLL's failed load, and lookups use handles that loads of that DLL answered |
| LazyAnswers.OneLoad | bindings/runtime/win32/loader.go:104-109 | no run has two load events of one DLL |
| LazyAnswers.OneLookup | bindings/runtime/win32/loader.go:125-139 | no run has two lookup events of one export |
| LazyLoad.MissingDllIsReportedByAll | bindings/runtime/win32/loader.go:68-73 | after one named Proc has reported a missing DLL, every completed call on that DLL does, and none reports a missing export |
| LazyLoad.ReportedErrors | bindings/runtime/win32/loader.go:68-73 | which sentinel a completed call matches, in terms of the load and the lookup |
| LazyLoad.TruthfulIffNamed | bindings/runtime/win32/loader.go:68-73 | for any declared DLLs and Procs: in every run every failed call on a Proc reports ErrDLLNotFound exactly when the load failed, if and only if the Proc has a name (or there is no goroutine to call it) |
| LazyLoad.UnnamedExportMisreported | bindings/runtime/win32/loader.go:68-73 | for any start, goroutine and unnamed Proc, a run in which the DLL loads and a call reports it missing |
| LazyLoad.NoDeadlock | bindings/runtime/win32/loader.go:104-139 | while a call is unfinished some goroutine can take a step other than a new call |
| LazyLoad.CallsFinish | bindings/runtime/win32/loader.go:104-158 | without new calls at most eight steps per goroutine remain, however they interleave |
| LazyLoad.StepKeepsInv | bindings/runtime/win32/loader.go:104-139 | every step of every goroutine keeps the protocol's invariant |
| LazyLoad.AloneIsSequential | bindings/runtime/win32/loader.go:104-139 | an undisturbed goroutine's steps add up to the sequential meaning of find |
| LazyLoad.FindAlone | bindings/runtime/win32/loader.go:104-139 | from any reachable state with the onces free such a run exists |
| LazyProcs.Dll.Load | bindings/runtime/win32/loader.go:104-109 | the fields after load, the system's handle or an error for a zero one, kept by every later call, and the stored error returned |
| LazyProcs.Proc.Find | bindings/runtime/win32/loader.go:125-139 | the Proc's and the DLL's fields are what the step system leaves for an undisturbed goroutine |
| LazyProcs.Proc.Addr | bindings/runtime/win32/loader.go:146-151 | the same fields; the stored address or the stored error; and, when this call did the lookup, the address the system answered |
| StructWords.StructRoundTrip | bindings/runtime/win32/runtime.go:146-167 | passing a struct as a word and taking it back loses nothing; the only exceptions are the panics above eight bytes |
| StructWords.StructArgIsThePlannersWord | bindings/runtime/win32/call.go:219-220 | in any call, for any register-sized struct argument, the word an x64 callee finds is StructArg's, and StructRet reads the struct back from it |

## Left out

- CallFrames.WordSlice.AppendComposite: does not model the intermediate zero words; it appends each word with its bytes already in it, and the final slice is the same.
- CallFrames.CallFrame.Reset: models the frame's fields one by one; padding and the assembly's field offsets are not modelled.
- LazyLoad.CompletedCallsAgree: Find and Addr share one outcome record; that Addr panics where Find returns the error is in LazyProcs.Proc.Addr.
- LazyLoad.NoDeadlock: goroutines are never killed, and a panic inside an operating-system call is not modelled.
- ImportCycles.ComputeBlockedImports: weights are unbounded integers, and `map[string]map[string]bool` is a map to sets, since only true is ever stored.
- The assembly trampolines, SyscallN, OutParam and escape analysis: the trampoline is "loads these registers and words, captures those".
- Argument words that are no valid pointer to the composite: the callers' contract.
- Shadow-space and red-zone contents beyond the 32 bytes of x64 shadow space.
- Minimality of the blocked set: the greedy loop does not promise it.
- The typedef, enum, struct and delegate indexes: the same fold as the interface index.
- Ownership with external namespaces: this repository has none.
- The other checks of validate, naming, the diagnostics baseline, emission of the bindings, and all generated files.
- Reading metadata files: records are given; fields of the records that no modelled code reads are omitted.
