# Lock ranking, profile sweeps, call recording and signature encoding

This project models four parts of the repository in Dafny and proves what they are for.

**The lock-ranking tool** (`CoreClr/inc/CrstTypeTool.cs`) reads definitions of lock types, checks them and
ranks the types so that a lock may only be acquired while locks of higher rank are held. The model follows the
tool from the token sequence to the ranks: the parser builds type objects, rule lists and SameLevelAs groups in
place, validation searches for cycles depth first before and after the rules are spread over the groups, and
ranking is the destructive sort in passes. `CrstMain.Run` states the whole of it. What a file
says is read off its tokens by position (`CrstTokens`), apart from the grammar the parser follows: which keyword a
name stands under, in whose definition, and where the first fault is. The tool reports that fault, and otherwise it
rejects exactly the files for which no ranks do what they say (`CrstFeasibility.AcceptsWhatCanBeRanked`); the ranks
it prints do. The parts behind it are a theory of walks and cycles (`Digraph`), of the equivalence a set of pairs
generates (`EquivalenceClosure`), and of spreading rules over classes against contracting the classes (`Quotients`).

**The profile sweep** (`CoreClr/inc/bbsweep.h`) lets a sweeper make many processes write their data. Processes
share a gate mutex, a counting semaphore, a manual-reset event and a writer mutex; each step of the model is one
call on these objects or one test of the termination flag, for any number of sweepers and watchers and any
number `max` of permits. One inductive invariant carries the safety results; a measure shows that a sweep that
has begun ends. From every reachable state a watcher that was not asked to stop can be swept again, and one that was
can be brought to its end.

**The call recorder and the object tracker** (`SharedPerunProfiler/CoreProfiler.cpp`, `FunctionClass.cpp`) build
a tree of call records per thread and a sorted map of live objects from the runtime's callbacks, and write both
at shutdown. The records are objects that point to each other. A view of each thread's objects as numbered cells
ties them to a tree value, and the tree to the thread's events. The tree in turn refines a list of lines with a
stack of open calls (`CallStacks.TreeRefinesStack`), and the map of objects is followed one allocation at a time
(`GcFates`), so `CallRecorder.Profile`, `GcTracker.Track` and `CoreProfiling.Run`, which is both together behind one
set of callbacks, say what is written for every sequence of callbacks in terms of the positions of these callbacks.

**The signature codec** (`CoreClr/inc/cor.h`) holds the variable-length encodings of section II.23.2 of ECMA-335.
Words and bytes are bit vectors of 32 and 8 bits. The encoders write into a caller's array, the decoders move a
pointer; both are tied to functions on byte sequences, and the round trips are proved of those.

## What turned out not to hold as written

- The ranking can give up on valid input. Rules on ranked types are dropped only at the end of a pass, and an
  "Unordered" type never gets a rank, so a rule on one blocks the first pass. `CrstMain.RuleOnUnorderedStalls` is
  the smallest file that does it. `CrstMain.Run` has the exact condition: the tool stalls if and only if the file
  is consistent, something is to be ranked, and every ordered type has a rule once rules are shared within groups.
  Without rules on unordered types that never happens (`CrstMain.NoRuleOnUnorderedHasFirst`).
- The message about an "Unordered" type that is in a group but has no rules indexes an empty list (line 243), so
  the tool ends with an exception instead of the message. The model has a verdict of its own for it. A single type
  causes it exactly if it is defined, unordered, in a group and without rules; a file whose names are all defined,
  whose rules are acyclic and whose unordered types have no rules causes it if and only if it has such a type, in
  every order of the dictionary. `CrstMain.BareGroupMemberFails` is a file that does. The check at line 250 is never
  reached. The exception at line 431 can never be thrown.
- A watcher that holds the gate finds a permit for certain if and only if there are at most `max` watchers
  (`SweepCapacity.PermitsSufficeIff`). With more, the processes can jam: then nothing but shutting down a watcher
  that holds a permit gets them going again (`SweepCapacity.JamForever`, `SweepShutdown.JamEnds`), and the shutdown
  of the watcher at the gate waits without end.
- The comment at `CoreClr/inc/cor.h` lines 2364-2365 gives the bytes 0x81 0x00 for -8192; the code writes
  0x80 0x01 (`SigCodec.SmallestTwoByteNumber`). The model follows the code.
- A token whose type is none of the four that have a tag is written as if it were a TypeDef
  (`SigCodec.TokenRoundTrip`). The limit on record ids in `CorSigCompressToken` cannot be reached.
- A leave callback on a thread that has allocated but has no record yet follows a null pointer. The model says
  exactly when (`CallHistory.CrashesIff`); `CallRuns.EarlyLeaveCrashes` is the shortest way there.
- An allocation reported at the address of a live object loses that object; it is the only way to lose one
  (`GcModel.ConservedIff`).

## Files

| file | contents |
|---|---|
| `Basics.dfy`, `SortedMaps.dfy`, `Digraph.dfy`, `Equivalence.dfy` | shared notions; the order of a sorted map; graphs, equivalences, quotients |
| `CrstTypes.dfy`, `CrstTool.dfy`, `CrstRanking.dfy`, `CrstGrammar.dfy`, `CrstTokens.dfy`, `CrstParser.dfy`, `CrstMain.dfy`, `CrstFeasibility.dfy` | the lock-ranking tool |
| `SweepModel.dfy`, `SweepSafety.dfy`, `SweepProgress.dfy`, `SweepCapacity.dfy`, `SweepShutdown.dfy`, `SweepRounds.dfy` | the profile sweep |
| `CallTrees.dfy`, `CallRecords.dfy`, `CallSessions.dfy`, `CallHistory.dfy`, `CallStacks.dfy`, `CallRuns.dfy`, `CallCells.dfy`, `CallObjects.dfy`, `CallWriter.dfy`, `CallRecorder.dfy` | the call recorder: trees and events, then the objects that hold them |
| `GcModel.dfy`, `GcOutput.dfy`, `GcFates.dfy`, `GcTracker.dfy` | the object tracker: values and what is written of them, then objects |
| `CoreProfiler.dfy` | recorder and tracker as one profiler |
| `SigCodec.dfy`, `SigBuffers.dfy` | the signature codec: byte sequences, then buffers and pointers |

`dafny verify dfyconfig.toml` checks everything.

## Model

| member | source | states |
|---|---|---|
| CrstMain.Run | CoreClr/inc/CrstTypeTool.cs:62-115 | For every token sequence: a syntax error exactly if it is not well-formed or defines a name twice, and then the one its first fault calls for; otherwise ranks exactly if the facts its tokens state are consistent and something can be ranked first, and they respect those facts; a stall exactly if they are consistent and nothing can be ranked first; the escaped exception only if some unordered type is in a group and has no rules, and always then if nothing else is wrong. The same in terms of the definitions that spell the tokens |
| CrstFeasibility.AcceptsWhatCanBeRanked | CoreClr/inc/CrstTypeTool.cs:84-94 | A well-formed file passes validation if and only if there are ranks that do what its tokens say by position: names under AcquiredBefore below the type, under AcquiredAfter above it, under SameLevelAs with it, types marked Unordered apart, all defined; and ranks that are printed do that |
| CrstMain.PlainFileRanks | CoreClr/inc/CrstTypeTool.cs:350-356 | A file without SameLevelAs and Unordered is ranked exactly if every name in it is defined and its rules have no cycle |
| CrstTokens.FactsAreMeaning | CoreClr/inc/CrstTypeTool.cs:30-40 | The facts read off the tokens by position are those the definitions declare |
| CrstTokens.FirstFaultUnique | CoreClr/inc/CrstTypeTool.cs:494-632 | A file has one first fault, or none |
| CrstTokens.FaultlessIff | CoreClr/inc/CrstTypeTool.cs:17-24 | It has none exactly if every token fits after the one before, the last is End, and no name is defined twice |
| CrstMain.RankTypes | CoreClr/inc/CrstTypeTool.cs:84-94 | The same for a collection that holds given declarations: validation accepts exactly consistent ones, and with nothing else wrong fails exactly for an unordered group member without rules |
| CrstMain.RankingRespects | CoreClr/inc/CrstTypeTool.cs:338-342 | From ranks of type objects to ranks of names: every declared rule lowers the rank, linked types share a rank no other type has, unordered types are apart, no rank is skipped |
| CrstMain.RanksHonourDefinitions | CoreClr/inc/CrstTypeTool.cs:30-40 | Ranks in terms of the definitions: "A AcquiredBefore B" or "B AcquiredAfter A" gives A the higher rank, SameLevelAs the same one, Unordered none |
| CrstMain.RanksFallAlongPaths | CoreClr/inc/CrstTypeTool.cs:338-342 | Ranks fall along every chain of rules, not just along single ones |
| CrstMain.NoRuleOnUnorderedHasFirst | CoreClr/inc/CrstTypeTool.cs:350-356 | A consistent file without rules on unordered types never stalls the ranking |
| CrstMain.RuleOnUnorderedStalls | CoreClr/inc/CrstTypeTool.cs:445-460 | A consistent file with one rule on an unordered type, on which the ranking stalls and ends no other way |
| CrstMain.BareGroupMemberFails | CoreClr/inc/CrstTypeTool.cs:238-246 | A file with one unordered group member without rules, on which the tool ends with the escaped exception and no other way |
| CrstMain.RankableIsConsistent | CoreClr/inc/CrstTypeTool.cs:225-301 | What validation asks of the objects is what consistency asks of the declarations |
| CrstMain.CanStartIsHasFirst | CoreClr/inc/CrstTypeTool.cs:381-405 | Some object is ready in the first pass exactly if some declared type has no rule within its level |
| CrstTool.CrstTypeTool.FindCycle | CoreClr/inc/CrstTypeTool.cs:311-336 | Finds a way back to the root if and only if one avoids the types on the list; then the list has grown by a simple path that closes on the root, otherwise it is restored; it ends on cyclic graphs because each call puts a new type on the list |
| CrstTool.CrstTypeTool.CycleThrough | CoreClr/inc/CrstTypeTool.cs:266-267 | Started with an empty list the search decides whether the type lies on a cycle |
| CrstTool.NoChildCloses | CoreClr/inc/CrstTypeTool.cs:317-335 | If no child closes a path, none does from here: skipping types on the list loses nothing |
| CrstTool.PathThroughChild | CoreClr/inc/CrstTypeTool.cs:326-328 | A path found below a child is a path from here |
| Digraph.OnCycleIffCloses | CoreClr/inc/CrstTypeTool.cs:303-310 | A node lies on a cycle exactly if a repetition-free path from it closes on it |
| Digraph.ClosesUnfold | CoreClr/inc/CrstTypeTool.cs:314-329 | One level of the search: a path closes at once or through an unvisited successor |
| Digraph.SinkExists | CoreClr/inc/CrstTypeTool.cs:350-354 | In an acyclic graph every nonempty set has a node without an edge into the set |
| CrstTool.CrstTypeTool.ValidateCrst | CoreClr/inc/CrstTypeTool.cs:231-274 | One type passes exactly if it is defined, not both unordered and ordered, and on no cycle; the escaped exception exactly for a defined, unordered group member without rules; a message only for what is wrong |
| CrstTool.CrstTypeTool.ValidateDefinitions | CoreClr/inc/CrstTypeTool.cs:228-275 | The first pass accepts exactly fully defined collections with unordered types apart and acyclic rules; it reports a message only if some type is undefined, unordered with rules or on a cycle, so without those an unordered group member always ends in the escaped exception |
| CrstTool.CrstTypeTool.ValidateNormalized | CoreClr/inc/CrstTypeTool.cs:286-298 | The second pass accepts exactly acyclic rules |
| CrstTool.CrstTypeTool.NormalizeAndValidate | CoreClr/inc/CrstTypeTool.cs:280-298 | Rules become the normalized ones, and the answer is whether those are acyclic |
| CrstTool.CrstTypeTool.ValidateCrsts | CoreClr/inc/CrstTypeTool.cs:225-301 | Accepts exactly collections that are defined, keep unordered types apart, and whose declared rules stay acyclic with every group contracted to one node; leaves the normalized rules; with no other fault, the escaped exception exactly if an unordered type is in a group |
| CrstTool.VerdictGraph | CoreClr/inc/CrstTypeTool.cs:277-298 | The two passes together decide acyclicity of the contracted rules: the first never rejects what the second would accept |
| Quotients.NormalizedAcyclicIffQuotientAcyclic | CoreClr/inc/CrstTypeTool.cs:969-971 | Rules spread over each class have no cycle exactly if the graph with each class contracted has none, self-loops included |
| Quotients.LiftWalk | CoreClr/inc/CrstTypeTool.cs:969-971 | Every walk of the contracted graph is a walk of the spread rules that any member of the first class can start |
| Quotients.NormalizedContains | CoreClr/inc/CrstTypeTool.cs:277-280 | Spreading keeps every declared rule |
| CrstTypes.CrstTypeGroups.Join | CoreClr/inc/CrstTypeTool.cs:896-960 | Two types share a group afterwards exactly if they did before or both touch the joined pair; groups stay listed once, disjoint, duplicate-free and pointed back to |
| CrstTypes.CrstTypeGroups.AddGroup | CoreClr/inc/CrstTypeTool.cs:904-924 | One new group holds exactly the given types, all other groups stay |
| CrstTypes.CrstTypeGroups.AddMember | CoreClr/inc/CrstTypeTool.cs:930-941 | A type without a group enters an existing one |
| CrstTypes.CrstTypeGroups.Merge | CoreClr/inc/CrstTypeTool.cs:947-955 | Members of the absorbed group move to the other, nothing else changes its group |
| CrstTypes.SameLevelIsEquivalence | CoreClr/inc/CrstTypeTool.cs:872-883 | Being one type or sharing a group is an equivalence |
| CrstTypes.WithoutMembers | CoreClr/inc/CrstTypeTool.cs:955 | Removing the absorbed group from the list removes it and nothing else |
| EquivalenceClosure.AddPair | CoreClr/inc/CrstTypeTool.cs:872-883 | One more pair merges exactly the two classes it touches |
| CrstTypes.CrstTypeGroup.NormalizeRules | CoreClr/inc/CrstTypeTool.cs:972-991 | Every member gets the union of the members' rules, each once |
| CrstTypes.CrstTypeGroups.NormalizeAllRules | CoreClr/inc/CrstTypeTool.cs:963-967 | The rules become the normalization of the old ones over the SameLevelAs classes |
| CrstTypes.RulesNormalized | CoreClr/inc/CrstTypeTool.cs:969-991 | Lists that hold their groups' unions are the normalized graph |
| CrstRanking.LevelCrsts | CoreClr/inc/CrstTypeTool.cs:343-465 | On validated input it ends; it ranks every ordered type if and only if something is ready at the start or nothing is to rank; ranks obey rules and groups and are 0 to top - 1 without gap |
| CrstRanking.RankPass | CoreClr/inc/CrstTypeTool.cs:369-439 | One pass makes progress exactly if some type was ready, and then keeps all that holds of the ranks so far |
| CrstRanking.ScanTypes | CoreClr/inc/CrstTypeTool.cs:381-405 | Exactly the ready types without a group get the pass's rank; exactly the groups of the others are deferred, each once |
| CrstRanking.RankGroup | CoreClr/inc/CrstTypeTool.cs:425-435 | Exactly the members of the group get the rank; the check for differing rules cannot fire |
| CrstRanking.RankGroups | CoreClr/inc/CrstTypeTool.cs:413-439 | Every deferred group takes a rank that no type had before |
| CrstRanking.RankingStep | CoreClr/inc/CrstTypeTool.cs:381-439 | Giving an unused rank to ready types without a group, or to one whole group, keeps the ranks valid |
| CrstRanking.GroupReadyTogether | CoreClr/inc/CrstTypeTool.cs:427-431 | If one member of a group is ready all are |
| CrstRanking.PruneRules | CoreClr/inc/CrstTypeTool.cs:454-460 | Unranked types keep exactly their rules on unranked types, ranked ones their lists |
| CrstRanking.FindAllUnleveled | CoreClr/inc/CrstTypeTool.cs:469-472 | Keeps exactly the elements without a rank |
| CrstRanking.NotStuck | CoreClr/inc/CrstTypeTool.cs:441-449 | After the first pass some type is always ready: the exception at 448 can only be thrown in the first |
| CrstRanking.CountUnsorted | CoreClr/inc/CrstTypeTool.cs:356-359 | Counts the types to rank |
| CrstGrammar.ReadFileSound | CoreClr/inc/CrstTypeTool.cs:17-24 | What the reference reader accepts spells back to the same tokens |
| CrstGrammar.ReadFileComplete | CoreClr/inc/CrstTypeTool.cs:17-24 | Everything the grammar spells is read back as the same definitions, so the grammar is unambiguous |
| CrstGrammar.MeaningFacts | CoreClr/inc/CrstTypeTool.cs:30-40 | The facts collected from definitions are exactly those declared, for rules from either side of a rule |
| CrstParser.TypeFileParser.ParseFile | CoreClr/inc/CrstTypeTool.cs:494-516 | Accepts exactly the token sequences that spell definitions with distinct names, and then the heap holds exactly the facts the tokens state by position; otherwise the error is that of the first fault: a token that does not fit, a repeated name, or the end of the file |
| CrstParser.TypeFileParser.ParseDefinition | CoreClr/inc/CrstTypeTool.cs:501-514 | One round of the loop: the next definition is read and recorded without a fault, or the file's first fault is reported |
| CrstParser.TypeFileParser.ParseCrst | CoreClr/inc/CrstTypeTool.cs:519-600 | Reads one definition or finds that there is none, or that its name was defined before |
| CrstParser.TypeFileParser.ParseName | CoreClr/inc/CrstTypeTool.cs:522-545 | A forward reference becomes a definition, a second definition is an error |
| CrstParser.TypeFileParser.ParseBody | CoreClr/inc/CrstTypeTool.cs:548-599 | Reads the dependencies up to End and records each, or stops at the first token that does not fit or at the end of the file |
| CrstParser.TypeFileParser.ParseDependency | CoreClr/inc/CrstTypeTool.cs:555-598 | Reads what follows one keyword and records it; at the end of the file the error comes after the names were read |
| CrstParser.TypeFileParser.ParseList | CoreClr/inc/CrstTypeTool.cs:605-632 | Takes the longest run of names, leaves the token behind it, and makes types for new names |
| CrstParser.TypeFileParser.AddBefore | CoreClr/inc/CrstTypeTool.cs:560 | Adds the rules of an AcquiredBefore list |
| CrstParser.TypeFileParser.AddAfter | CoreClr/inc/CrstTypeTool.cs:568-571 | Adds the rules of an AcquiredAfter list, turned round |
| CrstParser.TypeFileParser.AddSame | CoreClr/inc/CrstTypeTool.cs:578-581 | Joins with every listed type: groups are the classes of the declared pairs |
| CrstParser.TypeFileParser.LookupOrAdd | CoreClr/inc/CrstTypeTool.cs:620-627 | The type of a name, made if it is new; no other fact changes |
| CrstParser.TypeFileParser.NextToken | CoreClr/inc/CrstTypeTool.cs:676-681 | The next token, or the end-of-file error without moving |
| CrstParser.TypeFileParser.UnwindToken | CoreClr/inc/CrstTypeTool.cs:684-689 | Undoes one NextToken; its exception cannot be thrown |
| SweepSafety.StepKeepsInv | CoreClr/inc/bbsweep.h:92-168 | Every step of every process keeps the invariant: owners of the mutexes, permits, phases of a sweep, and each watcher's record in it |
| SweepSafety.ReachableInv | CoreClr/inc/bbsweep.h:286-296 | It holds after every run from the initial state |
| SweepSafety.FinishedSweepMeansWritten | CoreClr/inc/bbsweep.h:98-110 | When a sweeper has all permits, every watcher that held one when the event was set has written exactly once or is terminating, the others have not written, and nobody is writing |
| SweepSafety.WritesAreExclusive | CoreClr/inc/bbsweep.h:139-144 | No watcher writes twice in a sweep, no two at a time, none outside a sweep |
| SweepSafety.ReleasesSucceed | CoreClr/inc/bbsweep.h:107-146 | No release exceeds the maximum of the semaphore |
| SweepProgress.StepLowersMeasure | CoreClr/inc/bbsweep.h:98-147 | While a sweeper holds the gate every step of any process lowers one measure |
| SweepProgress.SweepCanMove | CoreClr/inc/bbsweep.h:98-147 | While a sweeper holds the gate, it or some watcher can step |
| SweepProgress.SweepEnds | CoreClr/inc/bbsweep.h:98-112 | Every run as long as the measure reaches the release of the gate |
| SweepCapacity.PermitsSufficeIff | CoreClr/inc/bbsweep.h:41-42 | A watcher at the gate finds a permit in every run exactly if there are at most `max` watchers |
| SweepCapacity.GateHolderNotStuck | CoreClr/inc/bbsweep.h:128-132 | With at most `max` watchers the watcher that holds the gate can always step |
| SweepCapacity.JamReachable | CoreClr/inc/bbsweep.h:128-137 | With more watchers some run jams |
| SweepCapacity.JamForever | CoreClr/inc/bbsweep.h:128-137 | A jam outlasts every run in which no watcher that holds a permit is shut down, and in it the shutdown of the watcher at the gate does not complete |
| SweepShutdown.JamEnds | CoreClr/inc/bbsweep.h:157-168 | After the shutdown of a watcher that holds a permit some run lets the watcher at the gate on |
| SweepShutdown.ShutdownCanFinish | CoreClr/inc/bbsweep.h:157-168 | With at most `max` watchers, from every reachable state with a watcher's termination event set some run takes its thread to the end, so the wait for it can return |
| SweepRounds.StoppedWasAsked | CoreClr/inc/bbsweep.h:126-168 | In every reachable state a watcher's thread has ended only if it was asked to stop, and its shutdown is done only when the thread has ended |
| SweepRounds.AskedNeverWrites | CoreClr/inc/bbsweep.h:126-147 | A watcher that was asked to stop never writes again in any run, and outside its loop it does not take the gate again |
| SweepRounds.CanWaitAgain | CoreClr/inc/bbsweep.h:126-147 | With at most `max` watchers, from every reachable state some run, asking nobody to stop, brings any watcher that was not asked to stop to wait for the sweep event with a permit |
| SweepRounds.CanBeSweptAgain | CoreClr/inc/bbsweep.h:98-147 | From there any sweeper can hold a whole sweep in which that watcher writes once: it has not written when the sweep begins and has when all permits are collected |
| SweepRounds.ShutdownCanReturn | CoreClr/inc/bbsweep.h:157-168 | From every reachable state some run takes the shutdown of any watcher to its end |
| CallSessions.EveryThreadWritten | SharedPerunProfiler/CoreProfiler.cpp:321-357 | For every sequence of callbacks, a thread's lines in the output are one per mapped call that entered, in order, numbered 0 to n, each with an earlier caller one less deep and a leave time |
| CallStacks.TreeRefinesStack | SharedPerunProfiler/CoreProfiler.cpp:413-492 | After any events, balanced or not, the tree has the lines of a list with a stack of open calls: an enter pushes a line made by the call on top, a leave stamps the top and takes it off, the bottom stays |
| CallStacks.StackWritten | SharedPerunProfiler/CoreProfiler.cpp:321-357 | For every sequence of callbacks a thread's lines are those of the stack after its recorded enters and leaves, with the time of shutdown where a call was not left |
| CallHistory.EventsHeard | SharedPerunProfiler/CoreProfiler.cpp:52-87 | What is recorded on a thread: its enters of functions with an id that were mapped before, and, once there is one, its leaves, returns and unwinds; nothing else, whatever happens on other threads |
| CallHistory.FunctionsHeard | SharedPerunProfiler/CoreProfiler.cpp:149-156 | Which functions have an entry, and under which name: those first mentioned by a mapping |
| CallHistory.LinesListEnters | SharedPerunProfiler/CoreProfiler.cpp:413-448 | A thread's lines are one per recorded enter callback, in order, with its function and time |
| CallHistory.CrashesIff | SharedPerunProfiler/CoreProfiler.cpp:450-492 | The profiler follows a null pointer exactly at a leave on a thread that has allocated and has no recorded enter |
| CallHistory.LastCallIff | SharedPerunProfiler/CoreProfiler.cpp:740-743 | The number an allocation gets is one less than the count of recorded enters on its thread, none if there are none |
| CallHistory.TableOfNames | SharedPerunProfiler/CoreProfiler.cpp:377-386 | The table of names holds exactly the functions first mentioned by a mapping, under its name, ascending |
| CallRecords.WrittenByThread | SharedPerunProfiler/CoreProfiler.cpp:321-357 | The lines come thread after thread |
| CallSessions.EveryCallNamed | SharedPerunProfiler/CoreProfiler.cpp:377-386 | The function of every line written is in the table of names |
| CallSessions.NamesOfMapped | SharedPerunProfiler/CoreProfiler.cpp:377-386 | The table holds exactly the functions with a nonempty entry, under the names in their entries |
| CallRecorder.Profile | SharedPerunProfiler/CoreProfiler.cpp:311-403 | A session crashes exactly if some callback is a leave on a thread that has allocated and has no recorded enter; otherwise it writes, thread after thread, the lines of the stack after the thread's recorded callbacks, and the table of the functions first mentioned by a mapping |
| CallRecorder.Recorder.Handle | SharedPerunProfiler/CoreProfiler.cpp:52-87 | Each callback does to the objects what it does to the events, behind the guard of its stub |
| CallRecorder.Recorder.Lookup | SharedPerunProfiler/CoreProfiler.cpp:740 | Subscripting the map of active calls gives a new thread the default entry and tells whether a thread has a record |
| CallRecorder.Recorder.Map | SharedPerunProfiler/CoreProfiler.cpp:149-156 | Enters a function once; an earlier entry, even an empty one, stays |
| CallRecorder.Recorder.Enter | SharedPerunProfiler/CoreProfiler.cpp:413-448 | A mapped function's record becomes the active one and last callee of the one before; other threads' trees stay |
| CallRecorder.Recorder.NewCallee | SharedPerunProfiler/CoreProfiler.cpp:430-438 | The objects hold the tree with the new last child, next number and next depth |
| CallRecorder.Recorder.Leave | SharedPerunProfiler/CoreProfiler.cpp:450-492 | The active record gets its leave times and its caller becomes active, except that the root stays; also TailCall and lines 808-825 |
| CallRecorder.Recorder.LastCall | SharedPerunProfiler/CoreProfiler.cpp:740-743 | Gives the last number handed out on the thread if that thread has a record; asking adds an entry for the thread |
| CallRecorder.Recorder.CloseUp | SharedPerunProfiler/CoreProfiler.cpp:330-345 | The walk up ends at the root with the tree that has every open record on the way stamped |
| CallRecorder.Recorder.Shutdown | SharedPerunProfiler/CoreProfiler.cpp:321-399 | Writes each thread's closed tree, in the order of thread ids, then the names of the functions with a nonempty entry, in the order of their ids, and forgets everything |
| CallWriter.Serialize | SharedPerunProfiler/FunctionClass.cpp:7-52 | Appends exactly the lines of the tree the objects hold, in preorder, touching only its own objects, and leaves none of them with a list of callees |
| CallWriter.SerializeAll | SharedPerunProfiler/FunctionClass.cpp:40-51 | Appends the lines of all callees in order and empties every list below them |
| CallWriter.LayOut | SharedPerunProfiler/FunctionClass.cpp:40-51 | The callees' trees take up consecutive ranges of numbers, so writing one leaves the others alone |
| CallRecords.AnyRunIsNumbered | SharedPerunProfiler/CoreProfiler.cpp:413-492 | After any events a thread's tree is written as lines numbered 0 to n with earlier callers and right depths |
| CallRecords.AnyRunListsEnters | SharedPerunProfiler/CoreProfiler.cpp:421-446 | Those lines are one per enter event, with its function and time |
| CallRecords.AnyRunIsOpenOnChain | SharedPerunProfiler/CoreProfiler.cpp:450-470 | A record without leave time lies between the root and the active one |
| CallRecords.CloseChainCloses | SharedPerunProfiler/CoreProfiler.cpp:330-345 | So stamping that chain leaves no record open |
| CallRecords.CloseStep | SharedPerunProfiler/CoreProfiler.cpp:332-344 | Stamping upwards from the active record equals stamping the whole chain |
| CallRecords.ShutdownLines | SharedPerunProfiler/CoreProfiler.cpp:321-357 | What shutdown writes for a thread is its tree's lines, well numbered, with the time of shutdown exactly where no leave time was set |
| CallRecords.WrittenOfThread | SharedPerunProfiler/CoreProfiler.cpp:321-357 | The output's lines of one thread depend on its own events only |
| CallRecords.ForestRecorded | SharedPerunProfiler/CoreProfiler.cpp:413-470 | The events of calls t1, ..., tk are recorded as t1 with t2, ..., tk as further children of its root, with all functions and times |
| CallRuns.ForestWritten | SharedPerunProfiler/CoreProfiler.cpp:413-492 | If the enters and leaves on a thread are those of calls t1, ..., tk of mapped functions, each entered or unwound into and ended by a return, a tail call or an unwind, whatever comes in between: none crashes, and the thread's lines are the preorder of t1 with t2, ..., tk under its root, with functions, times, depths and callers; also lines 800-825 |
| CallRuns.EarlyLeaveCrashes | SharedPerunProfiler/CoreProfiler.cpp:808-825 | An allocation on a thread, then a leave there: the leave follows a null pointer |
| CallForests.ForestBuildsOneTree | SharedPerunProfiler/CoreProfiler.cpp:413-470 | The same of the tree of calls alone |
| CallForests.PlayCall | SharedPerunProfiler/CoreProfiler.cpp:413-470 | A call played below the active one becomes its next child and leaves it active |
| CallCells.HoldsEntered | SharedPerunProfiler/CoreProfiler.cpp:432-438 | Cells changed as by an enter hold the tree with the new last child |
| CallCells.HoldsRelabeled | SharedPerunProfiler/CoreProfiler.cpp:462-463 | Changing one record changes that record in the tree and nothing else |
| CallCells.ChainLinks | SharedPerunProfiler/CoreProfiler.cpp:465-468 | The caller pointer of a record on the chain leads to the record before it |
| GcOutput.EveryAllocationWritten | SharedPerunProfiler/CoreProfiler.cpp:360-374 | At the end of any run the lines are exactly the measured allocations, each once, with what was reported and the number of collections begun before it plus one, if and only if none was reported at the address of a live object; otherwise there are fewer lines |
| GcOutput.EveryRunBorn | SharedPerunProfiler/CoreProfiler.cpp:730-745 | In any run every live or dead object carries the data of the allocation it is |
| GcOutput.ConservedByCount | SharedPerunProfiler/CoreProfiler.cpp:360-374 | Nothing was lost exactly if there are as many lines as allocations |
| GcFates.EveryLine | SharedPerunProfiler/CoreProfiler.cpp:360-374 | The output of any run, as a multiset, by positions of callbacks: a line for each measured allocation whose address was not taken by another while it was alive, with what was reported, the collections begun before it plus one, and the number it lived until: of the last sighting for one that died, of the last collection for one seen since it began, and else one more |
| GcFates.EveryObjectTracked | SharedPerunProfiler/CoreProfiler.cpp:881-944 | At any point of any run an allocation is live with the number of its last sighting while neither collected nor replaced, dead as it was when a collection finished without having seen it, or lost |
| GcFates.UntrackedLine | SharedPerunProfiler/CoreProfiler.cpp:368-374 | With tracking off an object lives past the last collection exactly if that began after it was allocated |
| GcModel.ConservedIff | SharedPerunProfiler/CoreProfiler.cpp:721-749 | In any run every allocation stays among the live or the dead if and only if none was reported at the address of a live object |
| GcModel.EveryRunValid | SharedPerunProfiler/CoreProfiler.cpp:737-745 | In any run live objects lie at their addresses, no allocation is live or dead twice, and stamps lie between birth and the current collection, strictly before it for the dead |
| GcModel.CollectionKeepsReported | SharedPerunProfiler/CoreProfiler.cpp:863-944 | A collection keeps exactly the objects in some reported range and those allocated meanwhile; afterwards all live stamps are its number, and the newly dead, in order of address, have stamps from birth to below it |
| GcModel.NothingDiesUntracked | SharedPerunProfiler/CoreProfiler.cpp:882-885 | With tracking off nothing dies and no stamp changes |
| GcModel.FinishedKeeps | SharedPerunProfiler/CoreProfiler.cpp:926-939 | Finishing a collection moves objects, it neither makes nor loses one |
| GcModel.SurvivedMore | SharedPerunProfiler/CoreProfiler.cpp:888-903 | Ranges can be reported one after the other |
| GcModel.WrittenTellsDead | SharedPerunProfiler/CoreProfiler.cpp:362-374 | In the output of any run an object was collected exactly if the number it lived until is below the last collection's; a live one has that number if it is its stamp and else the next; no object ends before it begins |
| GcModel.WrittenOnce | SharedPerunProfiler/CoreProfiler.cpp:362-374 | No allocation is written twice |
| GcTracker.Track | SharedPerunProfiler/CoreProfiler.cpp:362-374 | What is written about objects: one line for each allocation that was not replaced, as its fate among the callbacks says |
| GcTracker.Tracker.Handle | SharedPerunProfiler/CoreProfiler.cpp:721-944 | Each callback does to the objects in memory what it does to their values |
| GcTracker.Tracker.ObjectAllocated | SharedPerunProfiler/CoreProfiler.cpp:721-749 | A measured allocation becomes the live object at its address |
| GcTracker.Tracker.GarbageCollectionStarted | SharedPerunProfiler/CoreProfiler.cpp:863-866 | Only the number of the collection goes up |
| GcTracker.Tracker.SurvivingReferences | SharedPerunProfiler/CoreProfiler.cpp:881-906 | Stamps exactly the objects inside some range, or nothing with tracking off |
| GcTracker.Tracker.MarkRange | SharedPerunProfiler/CoreProfiler.cpp:890-902 | Stopping behind the range misses no object of the sorted map |
| GcTracker.Tracker.GarbageCollectionFinished | SharedPerunProfiler/CoreProfiler.cpp:908-944 | Exactly the unstamped objects leave the map for the end of the dead list, in order of address |
| GcTracker.Tracker.Shutdown | SharedPerunProfiler/CoreProfiler.cpp:362-397 | Writes the dead, then the live in order of address, those without the last stamp as living past it |
| SortedMaps.SortedUnique | SharedPerunProfiler/CoreProfiler.cpp:890 | A sorted map has one order of walking it |
| CoreProfiling.Run | SharedPerunProfiler/CoreProfiler.cpp:311-403 | Lines, names and objects of a whole session, each as the stacks, first mentions and fates among its callbacks say; it crashes exactly if a leave finds a thread without a record |
| CoreProfiling.CoreProfiler.Handle | SharedPerunProfiler/CoreProfiler.cpp:413-944 | Each callback changes recorder and tracker as it changes their values, and neither disturbs the other |
| CoreProfiling.CoreProfiler.Allocate | SharedPerunProfiler/CoreProfiler.cpp:721-749 | A measured allocation becomes the live object at its address, with the last call number of its thread if the thread has a record; one whose size cannot be read leaves no trace |
| CoreProfiling.ObjectsHeard | SharedPerunProfiler/CoreProfiler.cpp:721-944 | The tracker hears one callback for each that is about objects, in order; an allocation with its data and with the number of recorded enters on its thread before it, less one |
| CoreProfiling.CallsHeardInPlace | SharedPerunProfiler/CoreProfiler.cpp:52-87 | The recorder hears the callbacks about calls and the allocations of known size, in order |
| CoreProfiling.CrashesAtIff | SharedPerunProfiler/CoreProfiler.cpp:450-492 | Exactly which callback follows a null pointer |
| CoreProfiling.AllocationsNameLines | SharedPerunProfiler/CoreProfiler.cpp:740-743 | The number written with an object is that of the line, in the same output, of the last call entered on its thread before it was allocated |
| SigCodec.DataRoundTrip | CoreClr/inc/cor.h:2049-2110 | Decoding an encoding, whatever follows it, gives the value and the length |
| SigCodec.AllRoundTrip | CoreClr/inc/cor.h:2283-2311 | Values encoded one after the other decode to the same values |
| SigCodec.SizeFromFirstByte | CoreClr/inc/cor.h:1997-2006 | The first byte alone tells the length of an encoding |
| SigCodec.DecodedIsEncodable | CoreClr/inc/cor.h:2049-2126 | What the decoder accepts, exactly; its values can be encoded, in no more bytes than were read |
| SigCodec.UncheckedAgrees | CoreClr/inc/cor.h:2017-2047 | The decoder that trusts its input agrees wherever the other succeeds, which fails exactly on unknown first bytes and short input |
| SigCodec.DataIsBigEndian | CoreClr/inc/cor.h:2283-2311 | An encoding is the value in big-endian order below the marker of its length |
| SigCodec.SignedRoundTrip | CoreClr/inc/cor.h:2225-2254 | Every integer that can be compressed comes back, with its length |
| SigCodec.SignedRange | CoreClr/inc/cor.h:2354-2394 | Exactly the integers from -2^28 to 2^28 - 1 can be compressed, and their range decides the length |
| SigCodec.SignedIsRotated | CoreClr/inc/cor.h:2366-2391 | The value of an encoded integer is its payload bits moved up by one, with the sign below |
| SigCodec.SignedExamples | CoreClr/inc/cor.h:2366-2391 | The bytes at the ends of the ranges, among them negatives that share payload bits with small positives |
| SigCodec.SmallestTwoByteNumber | CoreClr/inc/cor.h:2364-2380 | -8192 is written as 0x80 0x01 |
| SigCodec.TokenRoundTrip | CoreClr/inc/cor.h:2140-2190 | All three decoders recover the byte count, and the token if and only if its type has a tag; others come back as TypeDef |
| SigCodec.TokenExample | CoreClr/inc/cor.h:2327-2348 | One token written out |
| SigCodec.UntaggedToken | CoreClr/inc/cor.h:2316-2349 | The two-bit tag is undone exactly for the four types |
| SigCodec.TokenBits | CoreClr/inc/cor.h:2327-2348 | The value of an encoded token is its record id above the bits 00, 01, 10, 11 for the four types |
| SigCodec.BadToken | CoreClr/inc/cor.h:2152-2190 | What the two sized and unsized decoders make of a first byte that begins no encoding |
| SigBuffers.CorSigCompressData | CoreClr/inc/cor.h:2283-2311 | Writes exactly the encoding over the buffer and returns its length, or changes nothing and returns -1 |
| SigBuffers.CorSigCompressToken | CoreClr/inc/cor.h:2316-2349 | The same for tokens |
| SigBuffers.CorSigCompressSignedInt | CoreClr/inc/cor.h:2354-2394 | The same for signed integers |
| SigBuffers.SigPointer.UncompressBigData | CoreClr/inc/cor.h:2017-2039 | The value of a two- or four-byte encoding, with the pointer moved past it |
| SigBuffers.SigPointer.UncompressData | CoreClr/inc/cor.h:2040-2047 | The value, with the pointer moved past exactly its bytes |
| SigBuffers.SigPointer.UncompressToken | CoreClr/inc/cor.h:2140-2150 | The token, with the pointer moved past exactly its bytes |
| SigBuffers.WriteThenRead | CoreClr/inc/cor.h:2040-2047 | A value written into a buffer is read back, and the pointer moves past what was written |

## Left out

- Lexing: the parser starts from a sequence of tokens whose keywords are recognized; comments, regular expressions and the positions of tokens are not modelled.
- Output formatting: the header file of the ranking tool, the text of messages and the JSON layout of the profiler's log; a log is a sequence of records.
- The static list of groups is a field of an object that the tool owns, and lists are sequences: two variables for one list object do not occur in the source except while `ParseList` fills a rule list, which the model appends after reading. Copies made by `GetRange` are therefore not visible.
- A dictionary is walked in an arbitrary order, which may differ from loop to loop; the results hold for every order. Graphs are sets of pairs of names.
- Which of several faults is reported depends on that order and is not stated; a file with an unordered group member without rules and another fault may end in a message or in the exception.
- CrstParser.TypeFileParser.ParseList: the end of the file is a flag instead of an exception that leaves the method, because every caller passes it on at once.
- Calls of the operating system in a sweep succeed and the write callback returns; abandoned mutexes, failed initialization and closing of handles are not modelled.
- The processes of a sweep are steps of one relation instead of methods with loops: methods run one after the other, the protocol is about interleaving.
- Fairness: that a watcher is let through the gate between two sweeps is not stated, since nothing in the source orders the waiting processes. The results of SweepRounds and SweepShutdown say that some run gets there, not every one.
- Callbacks are atomic, clocks are parameters and positive, counters do not overflow. Thread ids, object sizes, function names and allowed assemblies are parameters.
- Recorder and tracker are one class in the source and two objects of one profiler here; they share no field but the map of active calls, which an allocation asks for the last number.
- CallWriter.Serialize: releasing the memory of records is not modelled; the model lets go of the callees, as the source does.
- Object addresses are integers: ranges do not wrap around.
- MovedReferences: it bounds the old addresses by the end of the new range and erases entries that keep their address, so it keeps none of the properties proved here; runs with it are not covered.
- Classes, module and assembly queries, the naked stubs and the registration of the hooks: calls into the runtime.
- The elements of signatures other than data, signed integers and tokens, such as calling conventions and element types, are single bytes.
- Headers that only hold declarations, tables or macros, and the Python visualization scripts.
