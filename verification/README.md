# Verified models of the OMR runtime layer

This project models the state machines, buffers and protocols of the OMR runtime layer in
Dafny and proves what holds of them in every run. Each component has one or two modules of
values (what an operation does, and the theorems about runs) and, where the C++ code
updates records, lists and buffers in place, a module with a class or methods over arrays
that are proved against those values.

| component | modules |
|---|---|
| trace options applied now or when a component registers | `TraceConfig`, `TraceComponents`, `TraceRegistration`, `TraceEffects` |
| trace buffer: writer, backward iterator, decoding, endless walks | `TraceLayout`, `TraceEntries`, `TraceBuffers`, `TraceFormatter`, `TraceDecoding`, `TraceReading`, `TraceWalk`, `TraceRedelivery` |
| memory category snapshot | `CategoryTree`, `MemoryCategories`, `CategorySnapshot`, `CategoryCounters`, `CategoryForest` |
| CPU load sampler | `CpuLoad`, `CpuLoadSamplers` |
| method dictionary | `MethodEntries`, `MethodDictionaries`, `MethodAccounting` |
| VM thread list | `VMThreads`, `VMThreadList` |
| compare-and-exchange loops | `AtomicSupport`, `AtomicLoop` |
| signal mutex | `SigMutex` |
| signal multiplexer | `SignalActions`, `SignalLibrary` |
| trace option parser | `TraceOptions`, `TraceOptionParser` |

`Wrappers` has the option type, and `CStrings` the strings that end with a NUL.

Lists that the C++ code links in place and only appends to (the registered components and
the kept options) are sequences that methods extend; the circular thread list keeps its
links. Protocols that several threads run are state machines over their single steps, for
any number of threads and any interleaving. I/O, clocks and failing allocations are
parameters.

## What the code does not do

Some expectations turn out not to hold of the code. In each case the code is modelled as it
is, a lemma shows the failing case or family, and a theorem says when the expectation is met.

- A trace option for all components is recognized by a prefix when it is set
  (`omrtracecomponent.cpp:596`) and by its whole name when a component registers later
  (line 293), with another precedence of level and group. The two ways agree on every
  component exactly for the options in `TraceConfig.Uniform`. A component whose own name
  starts with "all" never finishes registering once a kept option applies to it
  (`TraceRegistration.ReplayNeverEnds`).
- The iterator compares the start of a wrapped record with a 32-bit unsigned subtraction
  (`omrtraceformatter.cpp:912`). When the length it reads exceeds the position it reads it
  from, the subtraction underflows and the iterator does not notice that it has been all the
  way round. `TraceDecoding.OverwrittenIsNoticed` gives the condition for one step and
  `TraceWalk.EndsExactly` that for a whole walk: it visits each record once and ends if and
  only if it is guarded. In a buffer that short records fill exactly, it ends if and only if
  the newest record is not longer than its own end position (`TraceWalk.ExactFitEnds`);
  otherwise it goes round for ever, and delivers the same records without end, or, if none
  of them can be shown, the mutual recursion never returns (`TraceWalk.CallReturnsExactly`).
  `TraceRedelivery` has such a buffer, byte for byte.
- A long-record marker whose high length byte is 0x10 is taken for the lost-records warning,
  which is tested first (line 738 before 755). The high byte also goes through a plain
  `char` (line 757), which spoils lengths from 0x8000 on where `char` is signed.
- The negative-time counter of the CPU load sampler does not count consecutive failures
  (`OMR_TI.cpp:419-425` leaves it alone): see `CpuLoad.CountIsTrailing` and
  `CpuLoad.CountIsNotConsecutive`. The comment says consecutive.
- The method dictionary keeps counting the names of entries it replaces, and a new entry
  whose strings cannot be copied stays in the table uncounted
  (`MethodAccounting.FailedCopyUncovers`, `FailedCopyUnderflows`).
- A VM thread that is refused gets its slot and its attach count nevertheless
  (`VMThreads.RefusedLooksAttached`). When it leaves, it is counted out of a list in which it
  has never been (`VMThreads.RefusedLeavesMiscount`).
- The loop of the signal mutex also ends when the exchange has not stored anything
  (`SigMutex.ExclusiveExactly`, `TwoHolders`).
- `sigignore` does not tell the operating system (`SignalActions.SigIgnoreSyncsExactly`).
- A secondary with SA_NODEFER runs with its signal unblocked even if its own mask has it,
  which the comment at `omrsig.cpp:148-151` and `sigaction()` in chapter 3 of the System
  Interfaces volume of POSIX.1-2008 exclude; and where the system takes SA_RESETHAND for
  SA_NODEFER, as that volume allows, the library does so on AIX and z/OS only.
  `SignalActions.SecondaryMaskExactly` says when the mask is that of `sigaction()`, also with
  regard to what the primary masks in addition.
- The memory category code 0x7FFFFFFF is counted neither as a language category nor as one of
  OMR, so that it may have no slot of its own (`MemoryCategories.SlotsAreUsableExactly`).

## Model

| member | source | states |
|---|---|---|
| TraceComponents.ComponentData.UpdateActiveArray | omr32/omrtrace/omrtracecomponent.cpp:447-476 | exactly the bytes of the range change, each by zeroing, setting or clearing the bits of the value |
| TraceComponents.ComponentData.SetTracePointsByLevelTo | omr32/omrtrace/omrtracecomponent.cpp:1365-1394 | exactly the trace points up to the level change; none without a level table |
| TraceComponents.ComponentData.SetTracePointGroupTo | omr32/omrtrace/omrtracecomponent.cpp:1289-1363 | exactly the members of the named groups change, up to the first group that is not found, which is the error |
| TraceComponents.ComponentData.ConfigureByName | omr32/omrtrace/omrtracecomponent.cpp:639-679 | range checks, group before level before range, and nothing changes when the option is rejected |
| TraceComponents.ComponentData.ConfigureAsAll | omr32/omrtrace/omrtracecomponent.cpp:604-622 | auxiliary modules are left alone; level before group before the whole range |
| TraceComponents.ComponentList.SetTracePointsForComponent | omr32/omrtrace/omrtracecomponent.cpp:588-682 | an option changes every registered component it applies to, is kept when it is for all or names none that is registered, and returns the error of the one it names |
| TraceComponents.ComponentList.ProcessComponentDeferredConfig | omr32/omrtrace/omrtracecomponent.cpp:272-320 | replaying changes the newest component alone, by all kept options in their order, keeps no option again, and returns the last error of an option that names it |
| TraceComponents.ComponentList.RegisterComponent | omr32/omrtrace/omrtracecomponent.cpp:219-270 | a component is appended and the kept options are replayed on it |
| TraceConfig.UniformExactly | omr32/omrtrace/omrtracecomponent.cpp:293-305 | an option has the same effect on every component before and after it registers if and only if it is uniform |
| TraceConfig.UniformAgrees | omr32/omrtrace/omrtracecomponent.cpp:596-622 | a uniform option selects the same trace points either way |
| TraceConfig.OthersDisagree | omr32/omrtrace/omrtracecomponent.cpp:615-668 | for any other option, a component and a state of its trace points on which the two ways differ |
| TraceConfig.ApplyTwice | omr32/omrtrace/omrtracecomponent.cpp:452-468 | setting two selections one after the other sets their union, in any order and with any overlap |
| TraceRegistration.KeptIsEnough | omr32/omrtrace/omrtracecomponent.cpp:529-584 | for a component not registered yet, replaying the kept options is replaying all options that were ever set |
| TraceRegistration.RunGivesFinal | omr32/omrtrace/omrtracecomponent.cpp:272-320 | in every run each component ends with the earlier options replayed and the later ones applied live |
| TraceRegistration.RegistrationTimeIsIrrelevant | omr32/omrtrace/omrtracecomponent.cpp:588-682 | in every run of uniform options each component ends with the in-order fold of all options, whenever it registered |
| TraceRegistration.ReplayNeverEnds | omr32/omrtrace/omrtracecomponent.cpp:291-313 | for a component whose name starts with "all", the walk over the kept options never ends once one applies |
| TraceRegistration.ReplayEnds | omr32/omrtrace/omrtracecomponent.cpp:291-313 | it ends in all other cases |
| TraceEffects.EffectOnTracePoint | omr32/omrtrace/omrtracecomponent.cpp:452-468 | an option clears a selected byte, or switches the bits of its value on or off and leaves the others, and leaves all other bytes alone |
| TraceEffects.RangeSelects | omr32/omrtrace/omrtracecomponent.cpp:639-668 | a range selects exactly the trace points in it, if all of it is in the component |
| TraceEffects.AllSelects | omr32/omrtrace/omrtracecomponent.cpp:601-642 | an option without range, level or group selects the whole component unless that is auxiliary |
| TraceEffects.LevelSelects | omr32/omrtrace/omrtracecomponent.cpp:1387-1392 | a level selects a trace point from its own level on |
| TraceEffects.GroupsSelect | omr32/omrtrace/omrtracecomponent.cpp:1317-1352 | a list of groups selects the trace points of each in front of the first that is missing |
| TraceEffects.ForAllByName | omr32/omrtrace/omrtracecomponent.cpp:596 | which options are for all components, whatever the case of the letters |
| TraceEffects.RejectedSelectsNothing | omr32/omrtrace/omrtracecomponent.cpp:644-659 | an option is rejected if and only if the component is auxiliary or the range is not in it, and then changes nothing |
| TraceEffects.MissingGroupIsReported | omr32/omrtrace/omrtracecomponent.cpp:661-663 | any other is in error if and only if it names a group that is missing |
| TraceEffects.ReplaySucceedsExactly | omr32/omrtrace/omrtracecomponent.cpp:291-320 | replaying is without an error if and only if all options that name the component are |
| TraceEffects.LastOptionDecides | omr32/omrtrace/omrtracecomponent.cpp:588-682 | in every run of uniform options, each bit of each trace point is as the last option has left it that touches it |
| TraceLayout.U32RoundTrip | omr32/omrtrace/omrtraceformatter.cpp:333-351 | reading a word gives back the word that was encoded, in either byte order |
| TraceLayout.FramesOfWellFramed | omr32/omrtrace/omrtracelog.cpp:1091-1113 | records are written as runs of bytes that end with their length, and only a long record is followed by a marker with the rest of its length |
| TraceLayout.RingAppend | omr32/omrtrace/omrtracelog.cpp:333-419 | a byte written behind the last one, around the end of the buffer, leaves the newest bytes of the stream in place |
| TraceBuffers.TraceBuffer.CopyToBuffer | omr32/omrtrace/omrtracelog.cpp:333-419 | the bytes are appended to what was written, across the end of the buffer |
| TraceBuffers.TraceBuffer.WriteRecord | omr32/omrtrace/omrtracelog.cpp:715-1113 | a record is appended to the records written, and the header is left alone |
| TraceBuffers.TraceBuffer.WriteTracePoint | omr32/omrtrace/omrtracelog.cpp:698-808 | a trace point is written with the lower half of its time, after the old upper half if that has changed |
| TraceEntries.TimeIsInData | omr32/omrtrace/omrtracelog.cpp:726-740 | the two halves that are written are the time |
| TraceEntries.ByteOrder | omr32/omrtrace/omrtracelog.cpp:728-740 | ids are written with the high byte first, lengths in the order of the platform |
| TraceFormatter.TracePointIterator.LocateTracePoint | omr32/omrtrace/omrtraceformatter.cpp:870-969 | finding the record before the current position: the four ways to stop, the wrap, and the bytes found |
| TraceFormatter.TracePointIterator.ParseTracePoint | omr32/omrtrace/omrtraceformatter.cpp:701-856 | what a record stands for: control records go on with the one before, others are delivered or skipped |
| TraceFormatter.TracePointIterator.FormatNextTracePoint | omr32/omrtrace/omrtraceformatter.cpp:858-980 | on a guarded walk, delivers the first of what remains and leaves the rest, and the mutual recursion ends |
| TraceFormatter.LocateFrame | omr32/omrtrace/omrtraceformatter.cpp:879-966 | at the length byte of an intact record, the search finds exactly the bytes that were written, or stops |
| TraceFormatter.StepBack | omr32/omrtrace/omrtraceformatter.cpp:755-767 | going back over one frame keeps the walk guarded |
| TraceReading.Decode | omr32/omrtrace/omrtraceformatter.cpp:858-980 | reading a buffer back whose walk is guarded gives a prefix of the trace points written, newest first, each with its bytes and its own time, and all of them while the writer has not wrapped |
| TraceReading.EntryIsShown | omr32/omrtrace/omrtraceformatter.cpp:735-795 | a trace point is delivered if and only if it has a name and an id that is not for other tools, by its fields alone |
| TraceReading.EntriesAreExpected | omr32/omrtrace/omrtraceformatter.cpp:745-753 | going back over the records of any trace points gives each of them the upper half of its time |
| TraceReading.ModuleTracePointIsDelivered | omr32/omrtrace/omrtracelog.cpp:657-658 | every trace point of a component up to number 16126 is delivered with its time, unless the name is that of the trace engine itself |
| TraceDecoding.DeliveriesArePrefix | omr32/omrtrace/omrtraceformatter.cpp:879-966 | what a walk delivers down to its stop is a prefix of what was written, newest first, unless a marker looks like lost records |
| TraceDecoding.DeliveriesAreComplete | omr32/omrtrace/omrtraceformatter.cpp:879-966 | nothing is left out before the writer wraps |
| TraceDecoding.ShortRecordsAreGuarded | omr32/omrtrace/omrtraceformatter.cpp:900-914 | records that need no marker and are no longer than the offset of the first entry can always be read back |
| TraceDecoding.UnwrappedIsGuarded | omr32/omrtrace/omrtraceformatter.cpp:900-914 | so can all records before the writer wraps, unless a marker looks like lost records |
| TraceDecoding.MarkerIsRecognized | omr32/omrtrace/omrtraceformatter.cpp:738-757 | a marker is taken for one if and only if its high byte is not the id of the lost-records warning |
| TraceDecoding.OverwrittenIsNoticed | omr32/omrtrace/omrtraceformatter.cpp:912-914 | past the last intact record the iterator stops if and only if the length it reads does not exceed the position |
| TraceWalk.EndsExactly | omr32/omrtrace/omrtraceformatter.cpp:900-914 | the walk back from the newest record visits every record in front of its stop once and ends there if and only if it is guarded |
| TraceWalk.ShowsDeliveries | omr32/omrtrace/omrtraceformatter.cpp:879-966 | down to that stop it delivers what the records stand for, guarded or not |
| TraceWalk.NothingAtFirstEntry | omr32/omrtrace/omrtraceformatter.cpp:879-883 | a record whose length byte is at the first entry is not found |
| TraceWalk.ExactFitEnds | omr32/omrtrace/omrtraceformatter.cpp:912-945 | in a buffer that short records fill exactly, the walk ends if and only if the newest record is not longer than its own end position |
| TraceWalk.RunsForEver | omr32/omrtrace/omrtraceformatter.cpp:912-945 | a walk that comes round to the newest record makes any number of steps |
| TraceWalk.EveryRoundRepeats | omr32/omrtrace/omrtraceformatter.cpp:912-945 | after each round it is back where it was and has delivered all records of the round once more |
| TraceWalk.CallReturnsExactly | omr32/omrtrace/omrtraceformatter.cpp:755-767 | in such a walk a call returns if and only if some record of the round can be shown |
| TraceWalk.DeliveriesWithoutEnd | omr32/omrtrace/omrtraceformatter.cpp:858-980 | if one can, there is no bound on what is delivered |
| TraceRedelivery.ExampleIsWritten | omr32/omrtrace/omrtracelog.cpp:333-419 | the bytes that the writer leaves after three records, behind a header of 65 bytes |
| TraceRedelivery.RedeliveryExample | omr32/omrtrace/omrtraceformatter.cpp:912-945 | reading them back delivers the last two records n times in 2n steps, for every n |
| MemoryCategories.WalkForestParentsFirst | omr32/port/common/omrmemcategories.c:182-251 | in the walk over any forest every category comes after the one above it |
| MemoryCategories.ValidWalkPrefix | omr32/omr/OMR_TI.cpp:604-609 | so it does in a walk cut short by a full buffer |
| MemoryCategories.IndexInRange | omr32/omr/OMR_TI.cpp:564-570 | every walked code but 0x7FFFFFFF has a slot in the mapping, language codes in front and the others behind them |
| MemoryCategories.IndexInjective | omr32/omr/OMR_TI.cpp:564-570 | no two codes share a slot |
| MemoryCategories.PartsAdjoin | omr32/omr/OMR_TI.cpp:627-645 | the two parts of the mapping are no larger than the largest codes need |
| MemoryCategories.SlotsAreUsableExactly | omr32/omr/OMR_TI.cpp:564-645 | for any 32-bit codes, all walked categories have slots of their own within the mapping if and only if 0x7FFFFFFF is not walked or happens to get a slot that none of them takes |
| CategorySnapshot.CategoriesState.Callback | omr32/omr/OMR_TI.cpp:575-610 | a category is written with its parent's address, or the walk stops and the overflow is noted |
| CategorySnapshot.CategoriesState.Walk | omr32/omr/OMR_TI.cpp:770-774 | the walk writes as many categories as fit, each with the address of its parent |
| CategorySnapshot.LinkToParent | omr32/omr/OMR_TI.cpp:652-667 | one category is put behind the last child of its parent, whose deep counter holds the tail |
| CategorySnapshot.FillInChildAndSiblingCategories | omr32/omr/OMR_TI.cpp:647-668 | each first child and next sibling is the one in buffer order, and the tails are in the deep counters |
| CategorySnapshot.ChainsEnumerateChildren | omr32/omr/OMR_TI.cpp:647-668 | following the links visits exactly the children of an entry, in buffer order |
| CategoryTree.SumByChildren | omr32/omr/OMR_TI.cpp:670-692 | the weight of a subtree is its own plus that of the subtrees of its children |
| CategoryTree.RootsConserve | omr32/omr/OMR_TI.cpp:780-786 | the subtrees of the roots have all the weight between them |
| CategoryCounters.FillInCategoryDeepCounters | omr32/omr/OMR_TI.cpp:670-692 | the whole subtree gets the sums over subtrees and nothing else changes, except that the parent takes them over |
| CategoryCounters.FillInAllDeepCounters | omr32/omr/OMR_TI.cpp:779-786 | every deep counter becomes the sum of the shallow ones over its subtree |
| CategoryCounters.CalculateMappingSize | omr32/omr/OMR_TI.cpp:627-645 | the size of the mapping, which fits in 32 bits |
| CategoryCounters.GetMemoryCategories | omr32/omr/OMR_TI.cpp:694-822 | the error codes, the counts, and a finished snapshot of the categories that fit |
| CategoryCounters.ChildrenAreEnumerated | omr32/omr/OMR_TI.cpp:647-668 | in a finished snapshot the chain of each entry has exactly its written children |
| CategoryForest.SnapshotMirrorsForest | omr32/omr/OMR_TI.cpp:647-668 | in the snapshot of a whole forest, following the links of a category's entry visits its own children, in their order |
| CategoryForest.CountersMirrorForest | omr32/omr/OMR_TI.cpp:583-692 | its shallow counters are those of the category, and its deep ones the sums over its subtree, for bytes and for allocations |
| CategoryForest.RootsAccountForAll | omr32/omr/OMR_TI.cpp:779-786 | in any finished snapshot the deep counters of the roots add up to all that was walked |
| CategoryForest.RootsConserveForest | omr32/omr/OMR_TI.cpp:779-786 | in that of a whole forest, to all bytes and all allocations of the forest |
| CategoryForest.KidsInForest | omr32/port/common/omrmemcategories.c:182-222 | below a category of a forest exactly its own children are walked, in their order |
| CpuLoadSamplers.CpuLoadSampler.CalculateCpuLoad | omr32/omr/OMR_TI.cpp:345-397 | the outcome classes in their order, and a load exactly when the outcome is OK |
| CpuLoadSamplers.CpuLoadSampler.GetCpuLoad | omr32/omr/OMR_TI.cpp:399-549 | first call, later calls, and errors that stay; both records and the counter afterwards |
| CpuLoadSamplers.CpuLoadSampler.UseSample | omr32/omr/OMR_TI.cpp:425-470 | which record is replaced in which of the outcomes against the interim and the oldest record |
| CpuLoad.RunsAreOrdered | omr32/omr/OMR_TI.cpp:414-469 | in every run with timestamps that are not negative, the oldest record is less than the minimum interval after the interim one, and the counter stays in 0 to 3 |
| CpuLoad.AnsweredExactly | omr32/omr/OMR_TI.cpp:425-469 | a load is written if and only if the call succeeds, that is if the sample spans 10 ms from one of the records without less CPU time; it is that since the interim record if there is a choice |
| CpuLoad.FailuresAreFinal | omr32/omr/OMR_TI.cpp:260-279 | after an error of the port library every call fails |
| CpuLoad.NothingAfterFailure | omr32/omr/OMR_TI.cpp:411-416 | a call that cannot read the times fails, and so does every one after it |
| CpuLoad.BackwardSamples | omr32/omr/OMR_TI.cpp:457-467 | samples from before both records leave the records alone until the count is used up |
| CpuLoad.RecoversFromBackwardJump | omr32/omr/OMR_TI.cpp:443-467 | the fourth at the latest replaces the oldest record, and the next sample that spans the interval is answered |
| CpuLoad.RecoversFromLessCpuTime | omr32/omr/OMR_TI.cpp:427-447 | a late sample with less CPU time replaces the records that it contradicts, and the next one that spans the interval is answered by it |
| CpuLoad.CountIsTrailing | omr32/omr/OMR_TI.cpp:441-467 | what the counter counts, over any run: it skips the samples answered by the interim record |
| CpuLoad.CountIsNotConsecutive | omr32/omr/OMR_TI.cpp:421-462 | an answered call in between does not reset it |
| CpuLoad.SteadySamplesAreAnswered | omr32/omr/OMR_TI.cpp:420-425 | with a steady clock every call gives the load since the call before |
| CpuLoad.MeasureIsTrue | omr32/omr/OMR_TI.cpp:238-251 | for timestamps that are not negative the modular interval is the true one |
| CpuLoad.OverflowIsNoticed | omr32/omr/OMR_TI.cpp:386-389 | for all 64-bit deltas, when the test for an overflow of their sum succeeds |
| CpuLoad.ProcessLoadInUnit | omr32/omr/OMR_TI.cpp:372-397 | one for an overflow, and otherwise in the unit interval if and only if sum and capacity do not have opposite signs |
| CpuLoad.ProcessLoadInUnitUnlessBackwards | omr32/omr/OMR_TI.cpp:372-397 | with CPUs and no overflow of the product: in the unit interval if and only if the process times have not gone back |
| CpuLoad.SystemLoadInUnit | omr32/omr/OMR_TI.cpp:345-363 | the system load is in the unit interval |
| CpuLoad.SystemLoadIsRatio | omr32/omr/OMR_TI.cpp:357-361 | the load is the CPU time over the time of all CPUs, but at most one |
| CpuLoad.ProcessLoadIsRatio | omr32/omr/OMR_TI.cpp:384-395 | that of a process has its user and its system time |
| MethodDictionaries.MethodDictionary.Insert | omr32/omr/OMR_MethodDictionary.cpp:136-185 | table, byte count and maximum after an insertion, a replacement, and a copy that fails at any string |
| MethodDictionaries.MethodDictionary.DupEntryStrings | omr32/omr/OMR_MethodDictionary.cpp:337-364 | all strings are copied, or none is left before the one that fails |
| MethodDictionaries.MethodDictionary.EntryValueEquals | omr32/omr/OMR_MethodDictionary.cpp:370-383 | two entries with strings of their own are the same only when neither has any |
| MethodDictionaries.MethodDictionary.CountEntryNameBytesNeeded | omr32/omr/OMR_MethodDictionary.cpp:269-279 | the bytes of the names with their terminators |
| MethodDictionaries.MethodDictionary.CopyEntryNameBytes | omr32/omr/OMR_MethodDictionary.cpp:281-294 | the names are packed behind what is in the buffer, at the positions returned |
| MethodDictionaries.MethodDictionary.GetEntries | omr32/omr/OMR_MethodDictionary.cpp:187-267 | table, byte count, name buffer and descriptions are those of collecting the requests in order |
| MethodEntries.PackedIsReadable | omr32/omr/OMR_MethodDictionary.cpp:281-294 | each packed name can be read back at its position, whatever is around it |
| MethodEntries.DeliveredIsReadable | omr32/omr/OMR_MethodDictionary.cpp:219-227 | whatever is in the table and asked for in time is delivered, and its names can be read from the buffer |
| MethodEntries.DeliveredOnce | omr32/omr/OMR_MethodDictionary.cpp:219-242 | what is left is the old table without what was delivered; nothing is delivered twice, and all fits |
| MethodEntries.NothingAfterRetry | omr32/omr/OMR_MethodDictionary.cpp:214-250 | nothing is delivered from the first request to retry on, and none before is to be retried |
| MethodEntries.MetRequests | omr32/omr/OMR_MethodDictionary.cpp:207-261 | the requests before the first retry are met, and no other entry is touched |
| MethodEntries.ReasonsExactly | omr32/omr/OMR_MethodDictionary.cpp:207-250 | the reason of every request, from the table and the requests alone |
| MethodEntries.RemainingIsNeed | omr32/omr/OMR_MethodDictionary.cpp:214-250 | the remaining bytes are what the requests from the first retry on need |
| MethodEntries.EnoughBytes | omr32/omr/OMR_MethodDictionary.cpp:219-250 | with enough bytes all that is there is delivered |
| MethodEntries.SecondCallCompletes | omr32/omr/OMR_MethodDictionary.cpp:187-267 | a second call from the first retry on, with the remaining bytes, succeeds, and over both calls every key that was there is delivered once and removed |
| MethodEntries.SecondCallTells | omr32/omr/OMR_MethodDictionary.cpp:187-267 | the first request for each key that was there is told of its delivery by one of the two calls |
| MethodAccounting.InsertSlack | omr32/omr/OMR_MethodDictionary.cpp:162-174 | by how much an insertion counts too much |
| MethodAccounting.RetrieveSlack | omr32/omr/OMR_MethodDictionary.cpp:232-242 | a retrieval takes off exactly what it delivers |
| MethodAccounting.FailedInsertSlack | omr32/omr/OMR_MethodDictionary.cpp:164-177 | what a failed copy leaves uncounted |
| MethodAccounting.CountCoversTable | omr32/omr/OMR_MethodDictionary.cpp:136-185 | in every run in which no copy for a new key fails, the count is at least what the table holds, and at most the maximum |
| MethodAccounting.CountIsExact | omr32/omr/OMR_MethodDictionary.cpp:136-185 | the count is exact while no key is inserted a second time |
| MethodAccounting.TableIsLastInserted | omr32/omr/OMR_MethodDictionary.cpp:136-242 | in every run a key has the entry inserted last, unless it has been retrieved since |
| MethodAccounting.MaximumIsHighWaterMark | omr32/omr/OMR_MethodDictionary.cpp:170-174 | in every run the maximum is the highest count there has been, and goes with the number of entries then |
| MethodAccounting.FailedCopyLeavesNothing | omr32/omr/OMR_MethodDictionary.cpp:348-361 | a failed copy leaves none of the strings copied before, and none at all of an entry that it replaces |
| MethodAccounting.FailedCopyUncovers | omr32/omr/OMR_MethodDictionary.cpp:164-177 | after a failed copy the count still covers the table if and only if the key was there or the count was high enough for what is left behind |
| MethodAccounting.FailedCopyUnderflows | omr32/omr/OMR_MethodDictionary.cpp:232-242 | retrieving the entry left by a failed copy takes the count below zero if and only if it was less than what the entry costs |
| VMThreadList.VM.AddLast | omr32/include_core/omrlinkedlist.h:50-59 | the list stays circular and gets the node at its end |
| VMThreadList.VM.Remove | omr32/include_core/omrlinkedlist.h:61-72 | the list stays circular and loses the node, wherever it was |
| VMThreadList.StillLinked | omr32/include_core/omrlinkedlist.h:61-72 | once the neighbours of a node are linked with each other, the rest is circular |
| VMThreadList.VM.AttachThread | omr32/omr/OMR_VM.cpp:77-100 | list, counts and slot after an attach that is accepted or refused |
| VMThreadList.VM.DetachThread | omr32/omr/OMR_VM.cpp:102-120 | list, counts and slot after a detach |
| VMThreadList.VM.AttachVMThread | omr32/omr/OMR_VMThread.cpp:77-97 | the attach count goes up with every attach, and the first one attaches, refused or not |
| VMThreadList.VM.DetachVMThread | omr32/omr/OMR_VMThread.cpp:99-119 | the attach count goes down with every detach, and the last one detaches |
| VMThreadList.VM.FirstAttach | omr32/omr/OMR_VMThread.cpp:121-156 | a new internal thread is attached with count one, or nothing changes and the code says which allocation failed |
| VMThreadList.VM.LastDetach | omr32/omr/OMR_VMThread.cpp:158-171 | the thread is detached and freed |
| VMThreadList.VM.FreeOthers | omr32/omr/OMR_VM.cpp:186-208 | the walk frees exactly the nodes of other OS threads, asks no freed node for its link, and finds the last one of its own |
| VMThreadList.VM.PostForkChild | omr32/omr/OMR_VM.cpp:161-219 | a well-formed list of the one thread that forked, with the counts for it |
| VMThreads.RunsAreWellFormed | omr32/omr/OMR_VM.cpp:77-120 | in every run the list has no repetition, the counts are those of the listed threads and add up to its length, and a maximum that is not zero bounds the language threads |
| VMThreads.ListIsJoined | omr32/omr/OMR_VM.cpp:77-120 | a thread is in the list if and only if an attach that was accepted is still in effect |
| VMThreads.ListIsInAttachOrder | omr32/omr/OMR_VM.cpp:85-87 | the list is in the order of those attaches |
| VMThreads.AttachKeepsSlots | omr32/omr/OMR_VM.cpp:95-96 | attaching keeps the slots in agreement with the list if and only if it is not refused and the OS thread has no other thread attached |
| VMThreads.DetachKeepsSlots | omr32/omr/OMR_VM.cpp:114-116 | detaching keeps them in agreement |
| VMThreads.StepKeepsAgreement | omr32/omr/OMR_VMThread.cpp:77-171 | a step keeps list, attach counts and slots in agreement if and only if whoever joins is accepted and alone for its OS thread |
| VMThreads.OrderlyRunsAgree | omr32/omr/OMR_VMThread.cpp:77-171 | they agree in every run without a refusal |
| VMThreads.CountIsDepth | omr32/omr/OMR_VMThread.cpp:77-119 | in every run the attach count is how often the thread has been attached and not detached again |
| VMThreads.BalanceDecides | omr32/omr/OMR_VMThread.cpp:77-119 | in every run without a refusal a thread is in the list if and only if it has entered more often than it has left |
| VMThreads.CodesTellOutcome | omr32/omr/OMR_VMThread.cpp:77-119 | the codes tell whether the count, the list and the thread have changed |
| VMThreads.RefusedLooksAttached | omr32/omr/OMR_VMThread.cpp:86-91 | a refused thread has a count and a slot without being in the list |
| VMThreads.RefusedLeavesMiscount | omr32/omr/OMR_VMThread.cpp:107-112 | its detach takes one from the language count and leaves the list as it is |
| VMThreads.KeptIsCurrent | omr32/omr/OMR_VM.cpp:186-219 | the thread kept by the child is the one in the slot of the OS thread that forked |
| VMThreads.KeptIsWellFormed | omr32/omr/OMR_VM.cpp:209-219 | the counts of the child are those of its list, within the maximum |
| AtomicLoop.Word.Update | omr32/include_core/AtomicSupport.hpp:438-450 | the retry loop of one thread takes effect on the last value that was in the word, and ends once the others pause |
| AtomicLoop.Word.LockCompareExchange | omr32/include_core/AtomicSupport.hpp:404-425 | stores if and only if the word has the expected value, and returns what was there |
| AtomicSupport.MemoryIsFold | omr32/include_core/AtomicSupport.hpp:427-521 | in every interleaving the word is the fold of the completed operations, and each returned what it returns in that order |
| AtomicSupport.ThreadsAgree | omr32/include_core/AtomicSupport.hpp:438-450 | each thread is told exactly the results of its operations in the history, in order |
| AtomicSupport.CallsTakeEffectOnce | omr32/include_core/AtomicSupport.hpp:438-450 | each call takes effect exactly once, in the order of the calls of its thread |
| AtomicSupport.RunsAreInTime | omr32/include_core/AtomicSupport.hpp:438-450 | each operation takes effect after its call and by an exchange of its own thread |
| AtomicSupport.RealTimeOrder | omr32/include_core/AtomicSupport.hpp:438-450 | an operation that took effect before another was called precedes it |
| AtomicSupport.FailuresAreProgress | omr32/include_core/AtomicSupport.hpp:446-448 | a thread's exchanges fail at most as often as operations of others succeed |
| AtomicSupport.NothingIsLost | omr32/include_core/AtomicSupport.hpp:438-693 | if only additions and subtractions are called, the word is its start plus the sum of those completed, modulo the word size |
| AtomicSupport.AddsReturnSums | omr32/include_core/AtomicSupport.hpp:438-450 | each addition and subtraction returns the sum as far as itself |
| AtomicSupport.BitOperationsReturnOld | omr32/include_core/AtomicSupport.hpp:463-521 | bitAnd, bitOr and set return the word as it was before |
| AtomicSupport.LastTouchDecides | omr32/include_core/AtomicSupport.hpp:463-521 | the last bitAnd, bitOr or set that touches a bit decides it, whatever others do to the rest of the word |
| SigMutex.StepKeepsExclusive | omr32/omrsigcompat/omrsig_internal.hpp:98-121 | a step keeps the lock exclusive if and only if it is not a stale exit |
| SigMutex.LockIsLeftHolding | omr32/omrsigcompat/omrsig_internal.hpp:98-121 | a thread leaves the loop only with the lock, and loses that only by its own unlock |
| SigMutex.ExclusiveExactly | omr32/omrsigcompat/omrsig_internal.hpp:98-121 | in every run, `locked` is one exactly while one thread holds the lock if and only if no stale exit occurs |
| SigMutex.TwoHolders | omr32/omrsigcompat/omrsig_internal.hpp:105-109 | a run of two threads after which both hold the lock |
| SignalLibrary.SignalTables.SigactionInternal | omr32/omrsigcompat/omrsig.cpp:345-404 | both tables, the action given to the system, the old action and the return code, for valid and invalid requests |
| SignalLibrary.SignalTables.HandlerIsFunction | omr32/omrsigcompat/omrsig.cpp:93-106 | neither the default handler nor the one that ignores |
| SignalLibrary.SignalTables.Sigignore | omr32/omrsigcompat/omrsig.cpp:566-575 | the secondary ignores the signal, and the system is not told |
| SignalLibrary.SignalTables.OmrsigHandler | omr32/omrsigcompat/omrsig.cpp:122-210 | the return codes, how and with which mask the secondary is called, the reset, and that the mask is restored |
| SignalActions.RolesAreSeparate | omr32/omrsigcompat/omrsig.cpp:359-381 | in every run each role reads back the last action it has set, without SA_RESETHAND for the primary and reset after the one delivery for the secondary |
| SignalActions.SystemServesBoth | omr32/omrsigcompat/omrsig.cpp:126-400 | in every run of registrations, deliveries and ignored signals that takes the system along, its action is the last primary with the flags of the last secondary, or the last secondary |
| SignalActions.SystemHasExactly | omr32/omrsigcompat/omrsig.cpp:383-398 | handler, mask and flags of the system's action, one by one |
| SignalActions.PrimaryIsNeverReset | omr32/omrsigcompat/omrsig.cpp:372-380 | in no run does a primary have SA_RESETHAND, nor the system for it |
| SignalActions.KillAndStopAreNeverCaught | omr32/omrsigcompat/omrsig.cpp:108-120 | in no run are SIGKILL and SIGSTOP caught |
| SignalActions.OthersCanBeCaught | omr32/omrsigcompat/omrsig.cpp:108-120 | any other signal of the table can be, by either role |
| SignalActions.SigIgnoreSyncsExactly | omr32/omrsigcompat/omrsig.cpp:566-575 | ignoring keeps the system in sync if and only if the primary is a function or the secondary ignores already |
| SignalActions.SettingBackUndoes | omr32/omrsigcompat/omrsig.cpp:359-400 | setting back the old action that a call has reported undoes the call |
| SignalActions.SecondaryMaskExactly | omr32/omrsigcompat/omrsig.cpp:141-166 | the secondary has the mask that sigaction() would give it if and only if the primary masks no other signal in addition, and SA_NODEFER and SA_RESETHAND treat the signal alike |
| SignalActions.SecondaryInheritsMask | omr32/include_core/omrsig.h:53-60 | whatever is masked in the primary goes on being masked in the secondary, but for the signal |
| SignalActions.DeliveryExactly | omr32/omrsigcompat/omrsig.cpp:126-208 | which secondary is called, with how many arguments, with which return code, and that the thread has its mask back |
| SignalActions.ResetExactly | omr32/omrsigcompat/omrsig.cpp:178-182 | the reset takes the handler and SA_SIGINFO from the secondary, and nothing else from anyone |
| SignalActions.ResetHandIsOneShot | omr32/omrsigcompat/omrsig.cpp:168-185 | after one call of a handler with SA_RESETHAND the default action is asked for until the secondary is set again |
| TraceOptionParser.ParseTraceOptions | omr32/omr/omrtrcinit.c:152-254 | the return code, and the slots of an accepted list: key and value of each pair in turn, then NULL; the first is the start of the copy |
| TraceOptionParser.CutPairs | omr32/omr/omrtrcinit.c:180-235 | the loop over the keys cuts out every pair, the first at the start of the copy, and fails exactly for a key that begins with '=' or a pair for which there is no room |
| TraceOptionParser.CutPair | omr32/omr/omrtrcinit.c:201-232 | one key and its value are made strings in place, and the rest of the options is untouched |
| TraceOptionParser.Strchr | omr32/omr/omrtrcinit.c:201-202 | the first such character of the string, or none |
| TraceOptionParser.DropEmpty | omr32/omr/omrtrcinit.c:237-248 | slots of empty values become NULL, and no other slot changes its meaning |
| TraceOptions.PrintedAreRead | omr32/omr/omrtrcinit.c:184-235 | any list of pairs, printed with any number of separators, is read back |
| TraceOptions.ReadIsPrinted | omr32/omr/omrtrcinit.c:184-235 | whatever can be read is such a print |
| TraceOptions.AcceptedExactly | omr32/omr/omrtrcinit.c:152-254 | options are accepted if and only if they are the print of at most 27 pairs, and then they mean those pairs |
| TraceOptions.RoundTrip | omr32/omr/omrtrcinit.c:152-254 | a list without empty values is read back as it is, and a 28th pair rejects the list |
| TraceOptions.EmptyValuesAreRead | omr32/omr/omrtrcinit.c:237-248 | an empty value is read back as none, and nothing else changes |

## Left out

- `TraceComponents.ComponentList.RegisterComponent`: each component registers once, under a name of its own; components with the same name, chains of their modules, and removing modules are left out.
- The brace, `tpnid` and range syntax of trace options, publishing of trace buffers, and opening and reading trace files.
- Rendering of trace points as text, and bailing out when the output buffer is too small: the bytes handed to the renderer are modelled instead.
- `TraceReading.Decode`: requires `Readable`, without which lines 738 and 912 of the formatter go wrong. `TraceWalk.EndsExactly` shows that nothing less will do, and `ShortRecordsAreGuarded` and `UnwrappedIsGuarded` when it holds.
- `TraceWalk.EndsExactly`: leaves out walks that end at a long-record marker after exactly one full turn, and markers that look like lost records.
- `TraceFormatter.TracePointIterator.FormatNextTracePoint`: requires a guarded walk, like `Decode`; the other walks are those of `TraceWalk`.
- `TraceFormatter.LocateFrame`: no record is longer than the data area (line 937 underflows otherwise), and the buffer is shorter than 2 GB.
- `TraceReading.EntryIsShown`: looks for the internal component's name in the name and the parameters; bytes behind a record whose name is a proper prefix of it are left out: the comparison at line 768 reads on into memory that this model does not have.
- `TraceBuffers.TraceBuffer.CopyToBuffer`: the writer modelled here reuses its one buffer, without handing it to the file writer when it is full; records are not cut at the maximum length, as none is longer.
- `CategoryCounters.GetMemoryCategories`: sums are unbounded; the code adds in 64 bits. The code 0x7FFFFFFF is not walked.
- `CategorySnapshot.CategoriesState.Callback`: addresses are one more than the index in the buffer, and 0 for NULL.
- The checks of NULL arguments and of the monitor in `omrtiGetSystemCpuLoad` and `omrtiGetProcessCpuLoad`; system and process differ only in the record and the load, so one class serves both.
- `CpuLoad.ProcessLoadInUnit`: loads are real numbers, without the rounding of doubles; an infinite quotient and one that is not a number are treated as `OMR_MIN` does.
- `MethodDictionaries.MethodDictionary.GetEntries`: the hash table is a map from which removing a found entry does not fail; sizes are unbounded.
- Freed or borrowed string pointers of an entry after a failed copy, and a NULL result pointer of `getEntries`.
- `VMThreadList.VM.PostForkChild`: does not clear the slots of the other OS threads, as the code does not; the thread library's own handler is not part of this model, nor are names, garbage collection and language threads.
- `VMThreadList.VM.DetachVMThread`: requires that a thread with attach count one is in the list. The code does not check, and `VMThreads.RefusedLeavesMiscount` says what becomes of the counts otherwise; the links of a node that was never linked are not followed here.
- `omr_vmthread_reattach` and `omr_vmthread_redetach`, and locks around the list: each operation runs as one step.
- Memory barriers, inline assembly and the read before an exchange: steps are sequentially consistent.
- Adding doubles is an operation on the bits of the word like any other; `MemoryIsFold` holds for it.
- `SigMutex.ExclusiveExactly`: the masking of signals around the lock is left out.
- `SignalLibrary.SignalTables.OmrsigHandler`: the table operations run as one step each, `pthread_sigmask` does not fail, and what the handler does is not part of the call; `sigset`, `sigvec` and what else differs on z/OS, AIX and Windows are left out.
- `TraceOptionParser.ParseTraceOptions`: says nothing about the slots after an error.
