# A verified model of jleaker

jleaker is a JVM Tool Interface agent that looks for collections that grew too large. It tags them, replays the heap
references of the JVM in passes, records who refers to whom in a graph of memory nodes, and prints for every leak a chain
of references that ends in a heap root. This project models the agent in Dafny and proves what it promises, over every
heap, every sequence of callbacks and every input.

## How the project is laid out

The code that works in place is modelled in place, with classes and loops, and every such method is proved equal to a
function of the old state. What the agent promises is then proved about these functions.

The functions themselves are held to a second description, in elementary terms: `Callback.dfy`, `Chains.dfy`,
`StartOfRun.dfy`, `Runs.dfy`, `FieldNumbers.dfy`, `IniLines.dfy` and `OptionLaws.dfy` say in terms of kinds, bits,
numbers, settings and characters what a callback, a search, the start of a run, a whole run, a field number, a line of the
configuration file and an option come to, with the kinds, names and constants of the source written out, and prove the two
descriptions equal.

| file | what it is about |
|---|---|
| `DataStruct.dfy` | the records of the agent; leak bitsets as values that keep their padding bits |
| `Recording.dfy` | one heap callback, one pass, the pass loop, and the invariant that all of them keep |
| `Taint.dfy`, `Counts.dfy` | what recording promises: taint and sizes are justified; reference counts and fan-in are exact |
| `Holding.dfy` | who holds a leak in the heap: where unfinished bits can travel, and where recorded references come from |
| `Passes.dfy`, `Distance.dfy` | how many passes there can be, when stopping early loses nothing, what a chain length means |
| `Search.dfy`, `Reached.dfy` | the depth-first search for a chain: exact, linear, independent between leaks; when a finished leak is printed |
| `Detection.dfy` | recorded chains are chains of the heap, and a leak is found and printed exactly if the heap has one |
| `Callback.dfy` | what one callback does, in terms of kinds, bits and lists alone; recording is complete over a run |
| `Chains.dfy` | what the search finds, and that it is the first chain in depth-first order |
| `Fatal.dfy` | when `addReferenceClass` stops the process: exactly, over a whole run, and a condition to check before it |
| `Limits.dfy`, `Witnesses.dfy` | where the agent falls short of these promises: exact conditions, and the heaps that show it |
| `Teardown.dfy` | freeing the cyclic, reference-counted graph |
| `NodeMemory.dfy`, `JvmReference.dfy`, `LeakDetect.dfy` | the same three activities as code that works in place |
| `Session.dfy` | a whole leak search, from the tagged collections to the freed graph |
| `StartOfRun.dfy` | the nodes and ignore entries with which the passes begin, in terms of what the JVM answers |
| `Runs.dfy` | whole runs in terms of the settings: passes, lists, ignored fields, fan-in, reports |
| `FieldNumbers.dfy` | field numbers as cardinalities: how many fields come before one |
| `IniLines.dfy`, `OptionLaws.dfy` | what each kind of line and each option does, character by character |
| `BitmaskSet.dfy`, `FieldIndex.dfy`, `StrMap.dfy`, `Ini.dfy`, `Allocator.dfy` | bitset, field numbers, string map, configuration file, live-allocation list |
| `AgentOptions.dfy`, `Launch.dfy` | the option string and its parser; from the launcher's command line to the files that the agent reads |

A node's address is its allocation number; the agent uses addresses as tags, so it is the tag as well. The heap is any
finite list of references in the order in which the JVM would report them; a callback is made for those whose target has
a tag and a tagged class at that moment (`JVMTI_HEAP_FILTER_UNTAGGED`, `JVMTI_HEAP_FILTER_CLASS_UNTAGGED`). The JVM's
other answers (sizes, classes, which objects still live) are inputs.

`addReferenceClass` calls `fatal_error` when it is given a node that is no class node. The code that works in place has
this as an error result (`LeakDetect.Detector.CbObjectTagReferrer` up to `Session.FindLeaksInTaggedObjects`);
`Recording.Step` says what a callback does when it returns, so what is proved about passes is about runs that are not
stopped. `Fatal.StopsExactly` says which runs are.

## What is assumed of the JVM

- References without a referrer have a root kind, and the kinds that carry information (fields, static fields, locals)
  come with it (`WellShaped`).
- Local references have no referrer (`LocalsUnheld`); only `Reached.RootSeenIsPrinted` needs this, and only if locals do
  not count.
- The JVM lists every object once, and no class object is found to be too large a collection: calling `size()` on a tagged
  class object fails, which leaves 0 (`Answers`). Supertypes are loaded before their subtypes
  (`Loaded`).

## What turned out to be false, and when it holds

An object *holds* a leak if it is the leak, or if references that are no roots lead from the leak to it as a direct or
indirect referrer (`Holding.Holds`). A root reference to a node finishes all of its leaks, so unfinished bits are found
on holders only (`Holding.LoopReachable`); what matters below is therefore who holds what.

- `addReferenceClass` can stop the process. `tagAllClasses` gives `java.lang.Class` no node, but a reference from it to a
  leak, or to an object that holds one, does; the next reference of interest from a class object then finds a node that
  is no class node. One leak and two references suffice (`Limits.ClassOfClassesStops`). A run stops if and only if a
  callback records a class that was untagged when the passes began as a referrer, and a later callback for a target with
  an unfinished leak has a referrer of that class (`Session.RunStopsExactly`, `Fatal.StopsExactly`). It never does if no
  class without a class node refers directly to a holder of a leak (`Session.ApartRunsComplete`,
  `Fatal.ApartNeverStops`); what else `java.lang.Class` refers to, also by way of static fields and constant pools, does
  no harm.
- The node of leak number k is built when k + 1 leaks are known, so its bitset has no room for later leaks
  (`src/cpp/leak_detect.c:500-504`), although the bytewise operations can set such a bit in the padding. Therefore a leak
  that "reached static" need not get its chain. It does if no lower-numbered leak holds it (so always for the first one),
  locals are considered (by default they are not), and no object was collected before the report; without any of the
  three there are runs in which it does not (`Limits.FinishedMeansPrintedExactly`, `Holding.RoomExactly`).
  `Reached.PrintedExactly` says which leaks get a chain, under all settings. For a leak that no lower-numbered one holds,
  a considered root reference on a tainted node is enough and necessary while all objects live
  (`Reached.RootSeenIsPrinted`).
- A pass loop that ends by its own test may end too early: a later pass can still record references or finish leaks. The
  exit is final in every run with at most one leak, and in every run in which no lower-numbered leak holds a leak, no
  ignore entry for a reference to a holder has its threshold between two leak sizes that reach that holder, and no class
  of a holder that is untagged when the passes begin refers directly to a holder (`Passes.LoopExitIsFixpoint`); without
  any of the three there are runs in which it is not (`Limits.ExitIsFinalExactly`, with a heap for each way to fail).
  Ignore lists matter because a node takes over the size of a larger leak and outgrows their threshold; sizes travel
  along references to holders (`Holding.SizeReaches`). The third condition holds whenever `Fatal.ApartNeverStops` promises that
  the run is not stopped (`Fatal.ApartIsFixed`).
- The duplicate check returns before new leak bits are handed on (`src/cpp/leak_detect.c:118-121`), so a chain of d
  references need not be found in any number of passes if another leak is held by an object that holds this one. That d
  passes find it holds for all leaks that share no holder with another one, such as a single leak
  (`Distance.ChainLengthIsDistance`), and without that condition for none of several leaks
  (`Limits.ChainsAreFoundExactly`).
- For a leak that shares no holder, if the loop ends by its own test and not by the cap, a chain is found if and only if
  the heap has one that the filters and ignore lists let through, provided that these do the same for its holders in all
  passes and that the fan-in limit does not close every way (`Detection.DetectedExactly`). It is printed exactly then if
  also no object was collected since, and locals count or no local holds a holder of the leak
  (`Detection.ReportedExactly`). What is found has such a chain under any cap (`Detection.FinishedHasChain`).
- `bitMapSet_containsAll` divides only one operand of its size expression, because the macro argument is not
  parenthesised (`src/cpp/bitmask_set.c:6,83`). It stays inside both buffers if and only if the first set is not the
  smaller one, or has size 0 (`BitmaskSets.ComparableExactly`). The agent always passes the larger set first.
- From field number to name to field number is the identity if and only if no earlier field has the same name
  (`FieldIndex.OffsetRoundTripExactly`).
- The option string survives the round trip if and only if the list of configuration files is not empty and has no comma
  (`AgentOptions.OptionsRoundTripExactly`), and the agent reads exactly the files that the launcher was given, then the
  default one, if and only if none of their paths is empty or contains a comma or the path separator
  (`Launch.LaunchExactly`). A list of nothing but separators leaves the agent without any file, even the default one
  (`Launch.NothingIsRead`). An empty list swallows the next option. `consider_local_references` is never
  reset, so it stays set from an earlier run (`src/cpp/jleaker.c:162-172`).
- The launcher's help says that `--show-unreachables` displays direct references instead of looking for a chain
  (`JLeaker.java:72`). The code looks for the chain all the same and falls back to the direct references
  (`src/cpp/jvm_reference.c:517-536`); the model follows the code.
- The allocator is initialised before the options are parsed (`src/cpp/jleaker.c:411`), with the self check still off, and
  both `memset` calls in `initAllocator` have their arguments swapped and clear nothing. The report does not reset the
  counters, so a second report after a leak is never silent.

## Model

| member | source | states |
|---|---|---|
| Recording.WantedExactly | src/cpp/leak_detect.c:75-89 | the filters and the bytewise tests let a reference through exactly when target and class are tagged, the target carries an unfinished leak, and the referrer is no local of the agent's own thread |
| Recording.LinkedNodes | src/cpp/leak_detect.c:105-158 | what recording does to every single node: taint and one more reference for the referrer, one more list entry for the target, nothing for the others |
| Recording.LinkedRest | src/cpp/leak_detect.c:105-171 | only root references finish leaks, and they finish exactly those that the target carries; the tag table gains at most the referrer |
| Recording.StepInv | src/cpp/leak_detect.c:61-175 | every callback keeps tags and nodes inverse, bits inside their leaks, and references linked to existing nodes |
| Recording.StepGrows | src/cpp/leak_detect.c:61-175 | a callback never takes a reference, bit, size, tag or finished leak away |
| Recording.PassLoopFacts | src/cpp/leak_detect.c:299-328 | all of this over the whole pass loop |
| Callback.KindsExactly | src/cpp/jvm_reference.c:562-591 | the kinds that are no roots are class, field, array element, class loader, signers, protection domain, interface and superclass, and no others; the two kinds of locals count exactly if the setting is on, all others always |
| Callback.CallbackExactly | src/cpp/leak_detect.c:61-175 | the whole callback in elementary terms: when it does nothing, when it only counts the class of the referrer, and otherwise the list entry, bits, sizes, counts, tags and finished leaks of every node afterwards |
| Callback.JudgesExactly | src/cpp/leak_detect.c:71-121 | a reference is recorded exactly if the target carries an unfinished leak and neither the fan-in limit nor an ignore entry forbids it, unless the list has it already with this kind, information and referrer |
| Callback.LoopKeeps | src/cpp/leak_detect.c:299-328 | recording is complete: every reference that a callback of the loop may follow is in the list of its target at the end, with its kind, information and referrer |
| Callback.EndIsComplete | src/cpp/leak_detect.c:299-328 | when the loop has ended by its own test and refusals last, every reference of the heap that may be followed is in its list |
| Callback.PassInOrder | src/cpp/leak_detect.c:301-309 | a pass clears the counters and makes the callbacks in the order of the heap |
| Callback.LoopGoesOn | src/cpp/leak_detect.c:299-328 | after a pass the loop ends exactly at the cap or when every leak is finished or had no new node |
| Taint.TaintIsSound | src/cpp/leak_detect.c:82-152 | in every reachable state a raw bit i on a node means a chain of recorded references from leak i whose nodes all carry bit i, and a nonzero size is that of a leak with a chain to the node |
| Taint.PassLoopSound | src/cpp/leak_detect.c:280-331 | the same at the end of the pass loop |
| Counts.CountingHolds | src/cpp/leak_detect.c:91-158 | after any callbacks: reference counts are exact, at most max(0, max_fan_in - 1) references to a node come from one tagged class, no reference is recorded twice, and root references number at most the finished leaks |
| Counts.PassLoopCounting | src/cpp/leak_detect.c:280-331 | the same at the end of the pass loop |
| Holding.LoopReachable | src/cpp/leak_detect.c:131-152 | over the whole pass loop: an unfinished bit is found only on objects that hold the leak; every recorded reference is a reference of the heap with that target, kind, information and referrer which no filter or ignore entry forbids; a tainted node has the size of a leak from which references to holders lead to it; whatever is tagged refers to a holder |
| Holding.RoomExactly | src/cpp/leak_detect.c:500-504 | with the agent's bitset sizes all holders of a leak have room for its bit if and only if no lower-numbered leak holds it |
| Holding.SteadyAlone | src/cpp/leak_detect.c:133-138 | if no size of another leak reaches a holder of a leak, no ignore entry treats references to its holders differently in different passes |
| Passes.PassesBounded | src/cpp/leak_detect.c:299-328 | the number of passes is at most the distinct references plus the leaks plus one; with that cap the loop ends by its own test and a larger cap changes nothing |
| Passes.MoreIsSame | src/cpp/leak_detect.c:310-327 | once the loop ends by its own test, a larger cap gives the same state |
| Passes.EarlyExitIsFixpoint | src/cpp/leak_detect.c:310-327 | with one leak or none, and with more if all holders of each leak have room for its bit and what is ignored or filtered out at holders stays the same: after a pass that ends the loop no further pass records a reference or finishes a leak, though fan-in counters may rise |
| Passes.LoopExitIsFixpoint | src/cpp/leak_detect.c:299-328 | the same for the exit of the loop, under conditions on the heap and the start state that can be checked before the run |
| Distance.ChainLengthIsDistance | src/cpp/leak_detect.c:299-328 | for a leak that shares no holder with another one, whatever the bitset sizes: a chain of d heap references to a root finishes it within d passes, and the loop does not stop before, provided that no filter, ignore entry, fan-in limit or local of the agent is in the way of a reference of the chain |
| Search.SearchIsExact | src/cpp/jvm_reference.c:415-472 | the search finds a chain if and only if there is one over considered references through living nodes with the bit; the chain it finds passes no node twice |
| Search.SearchIsLinear | src/cpp/jvm_reference.c:443-448 | one top-level search makes at most one call more than there are considered references to nodes, and at least one for every reference of the chain it finds |
| Search.SearchesAreIndependent | src/cpp/jvm_reference.c:505-546 | whatever a search for one leak leaves behind, the search for another comes out as before |
| Chains.SearchFindsWays | src/cpp/jvm_reference.c:415-472 | a chain is found exactly if there is a way over living nodes with the bit, all of whose references but the last are of the eight inner kinds and whose last is a root, a local only if locals count; and what is found is such a way |
| Chains.SearchFindsFirst | src/cpp/jvm_reference.c:430-468 | what is found is the first such way: at every node the references passed over are locals that do not count, or inner ones from which every way comes back to the chain |
| Reached.PrintedExactly | src/cpp/jvm_reference.c:415-472 | with the agent's bitset sizes and any settings, leak i gets its chain if and only if a tainted path over living nodes, none of them of a lower-numbered leak, leads from it along references that are no roots to a root reference that the settings consider |
| Reached.RootSeenIsPrinted | src/cpp/jvm_reference.c:415-472 | while all objects live, a leak whose holders have room for its bit gets its chain if and only if the passes recorded, on a node that it taints, a root reference that the settings consider |
| Reached.ReachedStaticIsPrinted | src/cpp/leak_detect.c:168-171 | if locals count, or no local holds a holder of it, every such leak that the passes finish gets its chain |
| Detection.FoundIsInHeap | src/cpp/jvm_reference.c:415-472 | whatever chain the search finds after the passes shows, kind by kind, a chain of heap references from the leak to its first root, none of them a local of the agent |
| Detection.FinishedHasChain | src/cpp/leak_detect.c:168-171 | under any cap, if ignore lists and filter do the same for the holders of a leak in all passes, it is finished only if there is a chain of heap references from it to a root with nothing but the fan-in limit in its way |
| Detection.OneIsSteady | src/cpp/leak_detect.c:40-56 | a single leak shares no holder, and ignore entries do the same for its holders in all passes |
| Detection.DetectedExactly | src/cpp/leak_detect.c:280-331 | if the loop ends by its own test, a leak that shares no holder with another one is finished if and only if the heap has such a chain, provided that then the fan-in limit leaves one of these chains open |
| Detection.ReportedExactly | src/cpp/jvm_reference.c:505-546 | if locals count or hold no holder of the leak, and all objects live, its chain is printed exactly then |
| Limits.FinishedMeansPrintedExactly | src/cpp/leak_detect.c:500-504 | that a finished leak i of n is printed holds for all runs of a kind if and only if no lower-numbered leak may hold it (or i is 0), locals are considered and no object was collected since; each condition has a run that needs it |
| Limits.ExitIsFinalExactly | src/cpp/leak_detect.c:299-328 | that the loop's exit is final holds for all runs of a kind with n leaks if and only if n is at most 1, or no leak may be held by a lower-numbered one, no ignore entry may lie between sizes that reach a holder, and no untagged class of a holder may refer to a holder; each condition has a run that needs it |
| Limits.ChainsAreFoundExactly | src/cpp/leak_detect.c:118-133 | that d passes find a chain of d references holds for leak i of n if and only if n is 1, or no other leak may have a holder in common with it |
| Limits.ClassOfClassesStops | src/cpp/leak_detect.c:223-237 | with any number of leaks, two references from `java.lang.Class` and from a class to one leak stop the process in the first pass |
| Fatal.StopsExactly | src/cpp/data_struct.c:111-114 | a run of passes stops if and only if some wanted callback has a referrer whose class has a node of another sort: from the start, or because an earlier accepted callback recorded that class, untagged at the start, as a referrer |
| Fatal.ApartNeverStops | src/cpp/leak_detect.c:91-129 | it never stops if no class has a misplaced node and no class that is untagged at the start refers directly, by any kind of reference, to an object that holds a leak |
| Fatal.ApartIsFixed | src/cpp/leak_detect.c:307 | under the same condition the heap filter lets the same references to holders through in every pass |
| Teardown.TeardownIsComplete | src/cpp/data_struct.c:18-84 | after the leak list and the class nodes, every node was freed exactly once, no freed node was touched, every call for a class node returned true |
| Teardown.FreeNodeSane | src/cpp/data_struct.c:18-84 | one call at any depth keeps the counts of all live nodes exact, cycles included |
| NodeMemory.MemoryNode.AddReferenceClass | src/cpp/data_struct.c:107-131 | no result and no change if the given node is no class node; otherwise the counter of its class goes up, and the result is its new value |
| NodeMemory.MemoryNode.IsFieldIgnored | src/cpp/leak_detect.c:40-56 | true exactly if some entry names the field and the node is smaller than its threshold |
| NodeMemory.MemoryNode.HasReferenceFrom | src/cpp/data_struct.c:86-105 | true exactly if the list has a reference of this kind from this node and, if the JVM gave information, with the same information |
| NodeMemory.ThreadData.NewMemoryNode | src/cpp/data_struct.c:8-16 | a fresh node at the next address; nothing else changes |
| NodeMemory.ThreadData.FreeMemoryNode | src/cpp/data_struct.c:18-84 | the memory becomes what the teardown function says, and every dereference is of a live node |
| NodeMemory.ThreadData.FreeHandles | src/cpp/data_struct.c:133-144 | the same for a loop over nodes, with the results of the calls |
| Teardown.FreeNodeExactly | src/cpp/data_struct.c:18-84 | one call: a fault for a freed node, one reference less for a node whose flag is set, and otherwise an emptied node that is freed, and reported so, exactly if nothing references it any more |
| JvmReference.GenerateReferencesChainForNode | src/cpp/jvm_reference.c:415-472 | the circular list holds exactly the chain of the search function; all flags are restored and no bit but this leak's is cleared |
| JvmReference.Prepend | src/cpp/jvm_reference.c:451-455 | inserting after the last cell puts the reference in front of the chain |
| JvmReference.PrintReferenceChainToNode | src/cpp/jvm_reference.c:488-502 | prints the chain from leak to root and frees every cell once; in the trace of all reads and frees no cell is used after it was freed |
| JvmReference.FillClassInMemoryNode | src/cpp/jvm_reference.c:11-55 | a node is dead from then on exactly if its object is gone |
| JvmReference.PrintReferencesChainForLeakingNodes | src/cpp/jvm_reference.c:505-546 | every report is the one that the leak would get if it were the only one |
| LeakDetect.Detector.CbObjectTagReferrer | src/cpp/leak_detect.c:61-175 | the callback in place makes the step of the model, or stops the process exactly when the model says so, with nothing changed |
| LeakDetect.Detector.HandleReferrer | src/cpp/leak_detect.c:91-175 | what follows the tests on the target: counting, refusing or recording, or the stop |
| LeakDetect.Detector.VisitReference | src/cpp/leak_detect.c:307 | a reference that the heap filters hold back changes nothing, any other gets its callback |
| LeakDetect.Detector.CountReferrer | src/cpp/leak_detect.c:91-103 | no result exactly if the class of the referrer has a node of another sort; otherwise the fan-in counter rises, and it goes on exactly if neither the limit nor an ignored field forbids it |
| LeakDetect.Detector.RefusesReferrer | src/cpp/leak_detect.c:105-121 | true exactly for ignored static fields and for references recorded before |
| LeakDetect.Detector.AttachReferrer | src/cpp/leak_detect.c:122-129 | the referrer's count rises, or it gets a new node and tag |
| LeakDetect.Detector.LinkReferrer | src/cpp/leak_detect.c:131-171 | taint, list entry, counters and finished leaks afterwards |
| LeakDetect.Detector.FollowReferences | src/cpp/leak_detect.c:307-309 | one heap iteration is the fold of the step, or is stopped exactly when one of its callbacks is |
| LeakDetect.Detector.TagReferencesChain | src/cpp/leak_detect.c:299-328 | the loop in place is the pass loop of the model for the given number of passes, or is stopped exactly when one of its passes is; nothing happens for a number that is not positive |
| LeakDetect.Detector.FindUnfinished | src/cpp/leak_detect.c:310-319 | true exactly if some leak is unfinished and found new nodes |
| Session.SearchObjectsForLeaks | src/cpp/leak_detect.c:480-529 | one node per collection over the threshold, in order, with its size, with bit k of k + 1 set, tagged |
| Session.FillClassIgnoreList | src/cpp/leak_detect.c:177-205 | the list of the class moves to its node, with the specified field numbers |
| Session.TagAllClasses | src/cpp/leak_detect.c:207-242 | every class but `java.lang.Class` gets a class node and its tag |
| Session.ListsMoveOnce | src/cpp/leak_detect.c:192-197 | an ignore list goes to one class node only, so it is freed once |
| Session.BegunStarts | src/cpp/leak_detect.c:207-295 | both together give a state in which recording may start, with the tags that were set |
| Session.AnswersStart | src/cpp/leak_detect.c:207-295 | whatever the JVM answers, the passes begin in such a state, with the agent's bitset sizes |
| StartOfRun.LeakNodeExactly | src/cpp/leak_detect.c:480-529 | a collection over the threshold is the leak whose number is that of such collections before it; its node has the size that `size()` returned, its own bit, and is empty otherwise |
| StartOfRun.ClassNodeExactly | src/cpp/leak_detect.c:177-242 | every class but `java.lang.Class` has a class node, with the rules of its list if it is the first ready class of that name, and none otherwise |
| StartOfRun.IgnoredExactly | src/cpp/leak_detect.c:40-56 | when the passes begin, a reference to a collection is ignored exactly if a rule listed for its class names the field with that number and has a threshold above the size that `size()` returned |
| Session.RecordedIsBuilt | src/cpp/leak_detect.c:280-331 | whatever the passes recorded can be torn down |
| Session.ReportedIsBuilt | src/cpp/jvm_reference.c:505-546 | the report does not change that |
| Session.RunStopsExactly | src/cpp/leak_detect.c:207-331 | in a whole run that happens if and only if an accepted callback records an untagged class as a referrer and a later wanted one has a referrer of that class |
| Session.ApartRunsComplete | src/cpp/leak_detect.c:207-331 | it does not happen if no class without a class node refers directly to an object that holds a leak |
| Session.FindLeaksInTaggedObjects | src/cpp/leak_detect.c:426-478 | a whole run: it is stopped exactly if the model says so; otherwise the reports are right, every chain in them is a chain of heap references from the collection to its first root, every class node is freed by its call, nodes allocated equal nodes freed |
| Session.ReportIsExact | src/cpp/jvm_reference.c:517-543 | a leak's report is a chain exactly if chains are wanted and there is one; otherwise it is suppressed or lists the direct references |
| Session.RunReportsExactly | src/cpp/leak_detect.c:426-478 | in a whole run, under the conditions of `Detection.ReportedExactly`, the report of a collection has a chain if and only if the heap has one that the filters let through |
| Runs.RunMakesPasses | src/cpp/leak_detect.c:299-328 | a run is a sequence of passes: at most as many as `reference_chain_length`, none if that is not positive, fewer exactly if no unfinished leak had a new node in the last one |
| Runs.RunLists | src/cpp/leak_detect.c:105-158 | whatever any callback of any pass may follow is listed in the end |
| Runs.RunIgnores | src/cpp/leak_detect.c:40-56 | at every callback of a run a reference to a collection is ignored exactly if a listed rule of its class names the field and has a threshold above the size of the node, which is never below that of the collection |
| Runs.RunFinds | src/cpp/leak_detect.c:299-328 | a collection that shares no holder is found if the heap has a chain for it of at most `reference_chain_length` references with nothing in the way |
| Runs.RunKeepsFanIn | src/cpp/leak_detect.c:91-103 | a run records fewer than `max_fan_in` references to a node from instances of one class that was tagged when the passes began |
| Runs.RunReports | src/cpp/jvm_reference.c:505-546 | the report on each collection over the threshold: the first way to a root, if `reference_chain_length` is positive and there is one; otherwise nothing unless unreachables are shown, and then the direct references, or none if `reference_chain_length` is not positive |
| Runs.RunReportsRoots | src/cpp/jvm_reference.c:505-546 | no reported chain passes a root before its end, ends without one, or ends in a local unless locals count |
| BitmaskSets.BitmaskSet.AddBit | src/cpp/bitmask_set.c:30-39 | one raw bit is set, if it is below the size |
| BitmaskSets.BitmaskSet.RemoveBit | src/cpp/bitmask_set.c:41-50 | one raw bit is cleared, if it is below the size |
| BitmaskSets.BitmaskSet.ContainsBit | src/cpp/bitmask_set.c:90-99 | true exactly for set bits below the size |
| BitmaskSets.BitmaskSet.AddAllBits | src/cpp/bitmask_set.c:52-61 | union on the bytes that both sets have, also when both are the same |
| BitmaskSets.BitmaskSet.AddAllBitsWithExclusion | src/cpp/bitmask_set.c:63-76 | union with the difference on those bytes, where the exclusion reaches as far as its own bytes |
| BitmaskSets.BitmaskSet.ContainsAllBits | src/cpp/bitmask_set.c:78-88 | inclusion of raw bits on the compared bytes |
| BitmaskSets.BitmaskSet.IsEmptySet | src/cpp/bitmask_set.c:101-108 | true exactly if no raw bit is set |
| BitmaskSets.ElementsAreExact | src/cpp/bitmask_set.c:30-99 | below the size, add, remove and contains are those of a set, whatever the padding holds |
| BitmaskSets.PlainSets | src/cpp/bitmask_set.c:52-108 | for equal sizes and clean padding these are the plain set operations, and the padding stays clean |
| BitmaskSets.ComparableExactly | src/cpp/bitmask_set.c:78-88 | `containsAll` stays inside both buffers exactly if the first set is not smaller or has size 0 |
| BitmaskSets.PaddingExactly | src/cpp/bitmask_set.c:52-61 | between different sizes the padding stays clean exactly if no bit of the other set falls into it |
| BitmaskSets.BytesExactly | src/cpp/bitmask_set.c:52-76 | which bits the bulk operations add, by the bytes that bit numbers and sizes divided by eight fall into |
| BitmaskSets.InclusionExactly | src/cpp/bitmask_set.c:78-88 | between sets of comparable sizes, all bits in the bytes of the second must be in the first |
| FieldIndex.GetFieldOffset | src/cpp/jvm_reference.c:106-173 | the number is that of the JVM Tool Interface specification, section Heap, structure `jvmtiHeapReferenceInfoField`; -1 for an unknown name |
| FieldIndex.GetFieldNameByIndex | src/cpp/jvm_reference.c:175-228 | the name of the field with that number, nothing outside the range |
| FieldIndex.InterfaceList.FindInterfaceInList | src/cpp/jvm_reference.c:57-77 | whether the interface was seen; it is afterwards |
| FieldIndex.InterfaceList.RemoveImplementedInterfacesFromIndex | src/cpp/jvm_reference.c:79-104 | the fields of every interface not yet seen are taken off once, diamonds included |
| FieldIndex.InterfacesExactly | src/cpp/jvm_reference.c:79-104 | the interfaces that count are exactly those that some chain of supertypes leads to |
| FieldIndex.NameRoundTrip | src/cpp/jvm_reference.c:106-228 | from name to number to name is the identity |
| FieldIndex.OffsetRoundTripExactly | src/cpp/jvm_reference.c:106-228 | from number to name to number is the identity exactly for fields that no earlier field hides |
| FieldNumbers.FirstNumber | src/cpp/jvm_reference.c:160-173 | the first field has as many fields before it as all implemented interfaces together declare, each counted once |
| FieldNumbers.NumberedField | src/cpp/jvm_reference.c:175-228 | the field with a number is the one that has that many fields before it: those of the interfaces, of the superclasses, and of its own class in front of it |
| FieldNumbers.NumberExactly | src/cpp/jvm_reference.c:106-173 | the number found for a name is that of the first field of the name, from the topmost superclass down |
| FieldNumbers.UnknownExactly | src/cpp/jvm_reference.c:106-173 | -1 exactly if neither the class nor a superclass declares a field of the name |
| FieldNumbers.NumbersExactly | src/cpp/jvm_reference.c:175-228 | there is a name exactly for the numbers from that of the first field on, as many as the class and its superclasses have fields |
| StrMaps.StrMap.Put | src/cpp/strmap.c:154-216 | the map afterwards binds the key to the value and nothing else changes; the result is the previous value; a new pair goes to the end of the bucket with the number hash modulo capacity, and replacing a value moves no pair |
| StrMaps.StrMap.Get | src/cpp/strmap.c:111-131 | the value bound to the key, nothing for unknown keys and null |
| StrMaps.StrMap.Exists | src/cpp/strmap.c:133-152 | true exactly for bound keys |
| StrMaps.StrMap.GetCount | src/cpp/strmap.c:218-245 | the size of the map |
| StrMaps.StrMap.Enum | src/cpp/strmap.c:247-275 | every association exactly once, bucket by bucket |
| StrMaps.StrMap.Hash | src/cpp/strmap.c:307-316 | 5381 and the signed characters, weighted with powers of 33, summed up and reduced once by the size of an `unsigned long`, whether that has 32 or 64 bits |
| StrMaps.HashMore | src/cpp/strmap.c:312-314 | the hash starts at 5381, and one turn of the loop, with wrap-around in every operation and a signed character, is the next value of that polynomial |
| StrMaps.BucketsListOnce | src/cpp/strmap.c:218-275 | the buckets list every association of the map once |
| StrMaps.PairsInOrder | src/cpp/strmap.c:247-275 | the order of the calls: from the first bucket to the last, and in every bucket from the front |
| StrMaps.PutAll | src/cpp/strmap.c:154-216 | any sequence of puts leaves the map of these puts |
| StrMaps.LastPutCounts | src/cpp/strmap.c:154-216 | a key is bound exactly if it was put, to its last value |
| Ini.IniParser.IniParseFile | src/cpp/ini.c:62-160 | the parser that cuts its line buffer in place makes the calls of the model and returns its error |
| Ini.IniParser.HandleLine | src/cpp/ini.c:92-152 | one line: comment, continuation, heading, pair or error |
| Ini.IniParser.Rstrip | src/cpp/ini.c:24-30 | white space at the end goes, nothing else changes |
| Ini.IniParser.FindCharOrComment | src/cpp/ini.c:43-51 | the first such character, or a semicolon after white space, or the end |
| Ini.ErrorIsFirstBadLine | src/cpp/ini.c:91-159 | for any file the result is the number of the first bad line, or 0 if there is none |
| IniLines.LinesExactly | src/cpp/ini.c:91 | the lines together are the file; each ends at its first line break or after 199 characters |
| IniLines.LinesInOrder | src/cpp/ini.c:91-159 | the parser goes through these lines one after the other |
| IniLines.CommentLine | src/cpp/ini.c:104-106 | a line that begins with a semicolon or a number sign does nothing, whatever follows |
| IniLines.BlankLine | src/cpp/ini.c:104-147 | neither does a line of white space |
| IniLines.ContinuationLine | src/cpp/ini.c:108-113 | after a name, an indented line passes the whole of its text on as another value of it |
| IniLines.HeadingLine | src/cpp/ini.c:115-122 | a heading names the section, of which 49 characters are kept, and ends the continuations |
| IniLines.OpenHeadingLine | src/cpp/ini.c:123-126 | a heading without a closing bracket, or with a comment before it, is an error |
| IniLines.PairLine | src/cpp/ini.c:128-147 | a name, an equals sign and a value: the handler gets both without white space and comment, and 49 characters of the name are kept for continuations |
| IniLines.ColonLine | src/cpp/ini.c:131-133 | without an equals sign in front of a comment, the first colon takes its place |
| IniLines.BadEntryLine | src/cpp/ini.c:148-151 | without both the line is an error |
| IniLines.MarkedLine | src/cpp/ini.c:96-101 | the byte order mark of the first line is skipped |
| IniLines.NulLine | src/cpp/ini.c:91-103 | a line ends at its first NUL |
| Ini.IniRoundTrip | src/cpp/ini.c:91-159 | parsing rendered sections calls the handler with exactly their triples, in order; the result is 0 exactly if it accepts them all |
| AgentOptions.GlobalData.ParseAgentOptions | src/cpp/jleaker.c:157-289 | the loops over `strtok` set the fields, read the configuration files and return what the model says, for every string and whichever files cannot be opened |
| Launch.LoadedExactly | src/cpp/jleaker.c:273-285 | the files are read in order up to the first that cannot be opened; the options are accepted exactly if there is none |
| OptionLaws.DefaultsExactly | src/cpp/jleaker.c:162-172 | the settings without options, number by number; `consider_local_references` keeps its value |
| OptionLaws.FlagOption | src/cpp/jleaker.c:234-263 | each of the five words without a value sets its field, and the rest of the string is parsed |
| OptionLaws.NumberOptionExactly | src/cpp/jleaker.c:187-233 | each of the four words with a number sets its field; if something follows the digits the options are rejected, and otherwise the rest of the string is parsed |
| OptionLaws.MissingNumber | src/cpp/jleaker.c:189-190 | without a number, `strtol` is given the null pointer |
| OptionLaws.FileOption | src/cpp/jleaker.c:254-258 | the list of configuration files reaches to the next comma |
| OptionLaws.UnknownOption | src/cpp/jleaker.c:264-269 | any other word is rejected, with the settings so far, whatever follows |
| OptionLaws.AcceptedExactly | src/cpp/jleaker.c:273-288 | the options are accepted exactly if all of them are and all configuration files can be opened; the files are read in order up to the first that cannot |
| OptionLaws.NumberIsRead | src/cpp/jleaker.c:190 | `strtol` reads digits with an optional sign as the nearest number that a `long` can hold |
| OptionLaws.JunkBehind | src/cpp/jleaker.c:190-195 | what follows the digits makes a number unclean, but the digits count |
| OptionLaws.NoDigits | src/cpp/jleaker.c:190-195 | without a digit the number is 0 and unclean |
| OptionLaws.ConversionExactly | src/cpp/jleaker.c:190 | the conversion to `int` gives the number in range with the same lowest 32 bits |
| OptionLaws.TokensExactly | src/cpp/jleaker.c:182-270 | delimiters in front are skipped, and a word up to the next one is a token |
| AgentOptions.Strtok.Next | src/cpp/jleaker.c:182-270 | the next token and where the cursor stands after it |
| AgentOptions.JLeaker.Parse | src/java/com/intel/swiss/sws/netstar/application/jleaker/main/JLeaker.java:97-120 | the options in front of the numbers |
| AgentOptions.JLeaker.Execute | src/java/com/intel/swiss/sws/netstar/application/jleaker/main/JLeaker.java:177 | the option string of the launcher |
| OptionLaws.PrintedExactly | src/java/com/intel/swiss/sws/netstar/application/jleaker/main/JLeaker.java:97-177 | every option of that string in its place, with a comma behind all but the last |
| OptionLaws.DecimalExactly | src/java/com/intel/swiss/sws/netstar/application/jleaker/main/JLeaker.java:177 | numbers are written as their digits, with a minus sign if they are negative and without a zero in front |
| Launch.NormalizeFiles | src/java/com/intel/swiss/sws/netstar/application/jleaker/main/JLeaker.java:121-147 | the list of configuration files: every name given, as a path that can be read, then the default one; an exception if one cannot be read |
| OptionLaws.ListExactly | src/java/com/intel/swiss/sws/netstar/application/jleaker/main/JLeaker.java:121-147 | for any names: none exactly if a named file cannot be read, and otherwise the paths in order and the default one, with the separator between them |
| Launch.FilesRoundTripExactly | src/cpp/jleaker.c:275-284 | taking a list of files apart gives them back if and only if none is empty or has the separator in it |
| Launch.LaunchExactly | src/cpp/jleaker.c:157-289 | the agent takes over all settings and reads exactly the files that the launcher found, in order, if and only if no path is empty or has a comma or the separator in it |
| Launch.NothingIsRead | src/java/com/intel/swiss/sws/netstar/application/jleaker/main/JLeaker.java:125-142 | a list of nothing but separators makes the agent read no file at all; an empty list is not even understood |
| AgentOptions.DecimalRoundTrip | src/cpp/jleaker.c:190 | `strtol` and the conversion to `int` read back what Java prints for an `int` |
| AgentOptions.OptionsRoundTripExactly | src/cpp/jleaker.c:157-271 | the agent understands exactly the launcher's settings if and only if the list of files is not empty and has no comma |
| Allocators.Allocator.MyAlloc | src/cpp/allocator.c:33-53 | the new block is the last of the list |
| Allocators.Allocator.MyFree | src/cpp/allocator.c:62-76 | the block leaves the list, the others keep their order |
| Allocators.Allocator.FindInternalMallocsLeaks | src/cpp/allocator.c:78-96 | the report names file and line of exactly the live blocks, in order, and leaves a well-formed empty list; there is none exactly if nothing leaked |
| Allocators.Replay | src/cpp/allocator.c:33-76 | after any interleaving the list holds the live blocks of the model |
| Allocators.LiveInOrder | src/cpp/allocator.c:43-76 | these are in allocation order, and as many as allocations minus frees |
| Allocators.LiveAreTheRest | src/cpp/allocator.c:43-76 | they are exactly the blocks that were allocated and not freed |

## Left out

- JVMTI and JNI calls are foreign: the heap, the tag table, object sizes, the class hierarchy and the living objects are inputs.
- The order in which the JVM follows references is the order of the heap list, the same in every pass.
- Message texts, XML elements, sockets and `src/cpp/jobject_print.c` are output plumbing; a report is the sequence of its references.
- `printSingleReference` also looks up the objects of the nodes that it names; as the set of living objects is fixed, that changes no later search, and it is not modelled.
- `JLeakerServer`, attaching to the VM, the dumper thread, the agent monitor, timers and `selfCheck` are wrappers with little logic.
- `ini_handler` (how configuration triples become ignore lists) and the tagging of collections by class are not modelled; the ignore lists are an input of a session.
- `fopen` is a set of names that cannot be opened; `Ini.IniParser.IniParseFile` starts from the contents of a file.
- How `java.io.File` resolves a name is an input of `Launch.NormalizeFiles`; the other arguments of the launcher's command line are its settings.
- `strtol` has a 64-bit `long`; with 32 bits, as on Windows, it would stop at smaller numbers, which no option printed from an `int` reaches.
- Running out of memory, overflow of C counters and truncated messages are left out; counters are mathematical integers, except for the hash, `strtol` and the bitset bytes.
- `sm_delete` and `bitMaskSet_free` only release memory.
- Inside memory nodes, bitsets and lists are values that the methods reassign; BitmaskSet.dfy proves that the byte buffer refines the bitset values, and the table of ignore lists is a map that StrMap.dfy refines.
- JvmReference.FillClassInMemoryNode: leaves out the class and the class name that it fills in, which only the printing of texts uses.
- The other calls of `fatal_error` (no node behind a reference that is no root, more than one object for a tag) cannot happen: `Recording.StepInv` excludes the first, and tags are distinct.
- Distance.ChainLengthIsDistance: states an upper bound on the passes only, because one pass follows a whole chain if the JVM reports its references in that order; that nothing else is found is `Detection.FinishedHasChain`.
- Detection.DetectedExactly: leaves out leaks that share a holder with another one; for them the order of the heap decides, and `Limits.ChainsAreFoundExactly` shows that the statement fails.
