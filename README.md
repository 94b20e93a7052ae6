# supriya non-realtime session core, modelled in Dafny

This project models the part of supriya's non-realtime session that turns a
score into the timestamped request bundles an offline scsynth render runs.

**Session.** A `Session` keeps a strictly sorted list of offsets, starting
with the root-level offset −∞ and 0.0. It also keeps one `State` per offset,
and holds a node tree when the state is resolved. A sparse state holds none.

**Session operations.** The model covers these:
- creating the initial states;
- `at`, which finds or clones the state at an offset;
- finding the state at, before or after an offset, optionally skipping sparse states;
- removing a sparse state;
- the transition resolver `_apply_transitions`, which works through a priority queue of offsets;
- the per-kind session-id counters.

**Id mappings.** The mapping from the session's nodes, buffers and buses to
engine ids has three parts:
- buffers and their groups, keyed by session id and the group's first member;
- buses: hardware outputs, then hardware inputs, then one bump allocator per rate, with the private audio buses starting after the hardware channels;
- nodes: the root node, and every node that starts at a later offset, keyed by its session id.

**Per-offset compiler.** `_collect_requests_at_offset` is modelled with all
of its collectors. It emits, in order:
1. synth definitions not yet sent;
2. buffer allocations and post-allocation buffer commands;
3. node actions (create or move);
4. control-bus sets;
5. node settings;
6. node frees and gate closes;
7. pre-free buffer commands;
8. buffer frees.

Two things run through every offset:
- the record of which buffers have an open file, which decides where a close request is needed;
- the set of definitions already sent.

**Linearizer.** `_to_non_xrefd_request_bundles` takes the render end: a
given non-zero duration, else the session's `duration`. It compiles every
offset after the root level, up to and including the end, and emits one
bundle per offset that has requests. A `Nothing` request closes the end, and
the render stops there.

**Synth automation.** The model also covers the older `nonrealtimetools.Synth`:
- its add action;
- its per-parameter breakpoint tracks, with `_get_at_timestep` and `_set_at_timestep`;
- `_collect_requests`, which turns the tracks into timestamped create, set, map and end requests.

**Modules.** The modules follow the source's structure:
- `Offsets`: offsets ordered with −∞ and +∞, bisection and sorted insertion;
- `Sorting`: the sorts the source applies;
- `StateIndex`: the nearest state below or above an offset;
- `Sessions`: the `Session` class and the loop methods it runs;
- `IdMappings`: the buffer, bus and node id mappings;
- `BufferRequests`, `NodeRequests`, `BusRequests` and `SynthDefs`: the collectors;
- `OffsetCompiler`: one offset's request list;
- `Rendering`: duration, timeline and bundles;
- `SynthTrack`: the synth automation track.

**Style.** The session is a class whose fields (`offsets`, `states`,
`sessionIds`) its methods reassign. Each method states its new state in terms
of specification functions, and the properties are proved about those
functions as lemmas. Python's `KeyError`s and failing `assert`s are modelled
as explicit errors (`Result`, `Compiled`/`CompileFailed`). The few that are
preconditions instead are listed under "Left out", by member.

## Model

| member | source | states |
|---|---|---|
| Offsets.BisectLeft | supriya/nonrealtime/Session.py:913 | `bisect_left`: every entry before the index lies strictly below the offset, and every entry from it on lies at or above it |
| Offsets.BisectRight | supriya/nonrealtime/Session.py:889 | `bisect`: every entry before the index lies at or below the offset, and every entry from it on lies strictly above it |
| Offsets.Insert | supriya/nonrealtime/Session.py:997-999 | appending an offset and re-sorting keeps the list strictly sorted, holds exactly the old offsets plus the new one, and is one longer |
| Offsets.Push | supriya/nonrealtime/Session.py:385 | putting an offset on the priority queue keeps the queue in order and adds exactly that offset |
| Sorting.SortBy | supriya/nonrealtime/Session.py:476 | sorting by a key (the session id) yields a permutation that ascends by the key |
| Sorting.SortInts | supriya/nonrealtime/Session.py:735-736 | sorting the id lists yields an ascending permutation |
| StateIndex.LastBefore | supriya/nonrealtime/Session.py:912-928 | a state found before an offset is listed, lies strictly below it, and holds a tree when one is asked for |
| StateIndex.LastBeforeIsGreatest | supriya/nonrealtime/Session.py:912-928 | no eligible state lies between the one found and the offset; when none is found, no eligible state lies below the offset |
| StateIndex.FirstAfter | supriya/nonrealtime/Session.py:888-901 | a state found after an offset is listed, lies strictly above it, and holds a tree when one is asked for |
| StateIndex.FirstAfterIsLeast | supriya/nonrealtime/Session.py:888-901 | no eligible state lies between the offset and the one found; when none is found, no eligible state lies above the offset |
| StateIndex.LastBeforeFrame | supriya/nonrealtime/Session.py:912-928 | the search below an offset depends only on which states below it are eligible |
| StateIndex.FirstAfterFrame | supriya/nonrealtime/Session.py:888-901 | the search above an offset depends only on which states above it are eligible |
| StateIndex.ResolvedPredecessorExists | supriya/nonrealtime/Session.py:397-398 | the resolver's `assert previous_state is not None` always holds: above the root level a resolved state below always exists |
| Sessions.IndexOf | supriya/nonrealtime/Session.py:374 | `list.index` returns the position of the first occurrence |
| Sessions.RemoveSorted | supriya/nonrealtime/Session.py:980 | `list.remove` on the offsets keeps them strictly sorted, drops exactly that offset, and keeps the root level first |
| Sessions.RemoveSplice | supriya/nonrealtime/Session.py:980 | `list.remove` of an offset placed right after a run that lacks it takes out exactly that offset |
| Sessions.RemoveInsert | supriya/nonrealtime/Session.py:975-982 | removing an offset that was just added restores the offset list |
| Sessions.Predecessor | supriya/nonrealtime/Session.py:371 | the state `_add_state_at` clones is the last listed state strictly below the offset, which the root level guarantees |
| Sessions.ResolvedPredecessor | supriya/nonrealtime/Session.py:906 | the state cloned when one is missing is the last state below the offset that holds a tree |
| Sessions.InsertValid | supriya/nonrealtime/Session.py:370-375 | listing a new offset above the root level, with a state, keeps the offsets strictly sorted, −∞ first, and in step with the states |
| Sessions.PredecessorSlot | supriya/nonrealtime/Session.py:374 | splicing a new offset right after its immediate predecessor is the same as inserting it in sorted place |
| Sessions.SpliceAfter | supriya/nonrealtime/Session.py:374 | the splice `insert(index(old) + 1, offset)` yields the sorted insertion |
| Sessions.CloneSpliceAsWrittenUnsorted | supriya/nonrealtime/Session.py:903-910 | as written, cloning at 7.0 with a sparse state at 5.0 above the resolved one at 0.0 lists 7.0 before 5.0 |
| Sessions.IssueAll | supriya/nonrealtime/Session.py:930-936 | one id is issued per request |
| Sessions.IssueAllTable | supriya/nonrealtime/Session.py:930-936 | after a series of requests, each kind's counter has moved by exactly the number of requests for that kind |
| Sessions.IssueAllIds | supriya/nonrealtime/Session.py:930-936 | the i-th request gets its kind's start (1000 for nodes, 0 otherwise) plus the number of earlier requests of that kind: ids are consecutive per kind and kinds are independent |
| Sessions.Resolve | supriya/nonrealtime/Session.py:406-410 | after resolving, the state holds the replayed child table, and it is either unchanged or has the replayed tree |
| Sessions.Enqueue | supriya/nonrealtime/Session.py:382-387 | the filled queue is in order and holds exactly the given offsets |
| Sessions.WorklistStart | supriya/nonrealtime/Session.py:382-388 | the queue invariant holds before the first pop |
| Sessions.PopRepeat | supriya/nonrealtime/Session.py:391-392 | skipping a repeated offset keeps the queue invariant |
| Sessions.PopUnlisted | supriya/nonrealtime/Session.py:394-396 | skipping an offset with no state keeps the queue invariant, and offsets are taken in non-decreasing order |
| Sessions.PopListed | supriya/nonrealtime/Session.py:389-397 | a listed offset taken from the queue lies strictly above every offset resolved so far |
| Sessions.Advance | supriya/nonrealtime/Session.py:389-393 | taking a new listed offset strictly shrinks the listed offsets still ahead, so the resolver terminates |
| Sessions.PushNext | supriya/nonrealtime/Session.py:411-414 | queueing the next resolved state after a change keeps the queue invariant |
| Sessions.ReplayAtAbove | supriya/nonrealtime/Session.py:397-404 | writing a state above an offset does not change what that offset's transitions are replayed on |
| Sessions.ReplayAtSelf | supriya/nonrealtime/Session.py:407-409 | writing a state's own tree does not change what its transitions are replayed on |
| Sessions.SettledAfterWrite | supriya/nonrealtime/Session.py:406-410 | writing above every resolved offset keeps each resolved offset settled |
| Sessions.ResolveStep | supriya/nonrealtime/Session.py:397-410 | resolving the next offset extends the resolved trace and keeps every resolved state settled |
| Sessions.SettledSnoc | supriya/nonrealtime/Session.py:406-410 | an offset holding what resolving it leaves can join the settled trace |
| Sessions.StateBefore | supriya/nonrealtime/Session.py:912-928 | the bisect-and-scan search returns the last (resolved, when asked) state strictly below the offset |
| Sessions.ScanDown | supriya/nonrealtime/Session.py:921-927 | the downward scan finds the last resolved state at or below the start index |
| Sessions.ScanUp | supriya/nonrealtime/Session.py:890-896 | the upward scan finds the first resolved state at or above the start index |
| Sessions.LastBeforeBelow | supriya/nonrealtime/Session.py:913-918 | the search below an offset only needs the entries before its bisection point |
| Sessions.FirstAfterAbove | supriya/nonrealtime/Session.py:889 | the search above an offset only needs the entries after its bisection point |
| Sessions.CompileOffset | supriya/nonrealtime/Session.py:1007-1026 | one offset's bundles: fails exactly when its requests fail to compile; otherwise the requests, with `Nothing` appended at the render end, make one bundle at the offset's time, or none when empty |
| Sessions.NodeMapping | supriya/nonrealtime/Session.py:471-480 | the node mapping holds the root plus every node started at a listed offset, each mapped to its session id |
| Sessions.MapOffsetNodes | supriya/nonrealtime/Session.py:475-479 | one offset's starting nodes, in session-id order, join the mapping under their session ids |
| Sessions.MapStartedNodes | supriya/nonrealtime/Session.py:477-479 | each node joins the mapping under its session id, and nothing else changes |
| Sessions.Session.constructor | supriya/nonrealtime/Session.py:961-973 | a new session lists −∞ with the root-only tree and 0.0 with its clone, and has no counters yet |
| Sessions.Session.FindStateAt | supriya/nonrealtime/Session.py:903-905 | `_find_state_at` without cloning: the offset's state exactly when it is listed |
| Sessions.Session.FindStateBefore | supriya/nonrealtime/Session.py:912-928 | `_find_state_before` returns the last (resolved, when asked) state strictly below the offset |
| Sessions.Session.FindStateAfter | supriya/nonrealtime/Session.py:888-901 | `_find_state_after` returns the first (resolved, when asked) state strictly above the offset |
| Sessions.Session.AddStateAt | supriya/nonrealtime/Session.py:370-375 | the new offset is inserted in sorted place, and its state is the immediate predecessor's clone; nothing else changes |
| Sessions.Session.At | supriya/nonrealtime/Session.py:1033-1043 | a negative offset is an error; a listed offset's state is returned unchanged; otherwise the state is added as by `_add_state_at` |
| Sessions.Session.FindOrCloneStateAt | supriya/nonrealtime/Session.py:903-910 | `_find_state_at` with cloning, corrected: a missing state is cloned from the last resolved state below it, and the offset is inserted in sorted place |
| Sessions.Session.RenderStateAt | supriya/nonrealtime/Session.py:672-674 | the state the render reads at an offset; only a missing end state is cloned in, and the offsets then gain exactly that offset |
| Sessions.Session.RenderOffset | supriya/nonrealtime/Session.py:1006-1026 | one iteration of the render loop: the offset's bundles as the linearization specifies, with the session changed only by the end state's clone |
| Sessions.Session.RemoveStateAt | supriya/nonrealtime/Session.py:975-982 | an unlisted offset is a no-op; a resolved state is refused; a sparse state is removed from both the offsets and the states |
| Sessions.Session.ApplyTransitions | supriya/nonrealtime/Session.py:377-414 | when blocked, nothing changes. Given −∞, it fails before writing anything, since no resolved state lies below. Otherwise the given listed offsets are resolved in increasing order, each once, and each holds the tree its transitions give on the nearest resolved tree below. An offset that was not given is resolved only with chaining, as the next resolved state above an offset whose state changed. With chaining, the next resolved state above every changed offset is resolved. Offsets, listed states and counters are kept |
| Sessions.ResolveQueue | supriya/nonrealtime/Session.py:382-414 | the resolver loop: same promises as `ApplyTransitions` for an unblocked run, stated on the state map before and after |
| Sessions.ResolveAt | supriya/nonrealtime/Session.py:397-410 | one offset's state takes the replayed tree exactly when its child table differs, and `changed` says whether it did |
| Sessions.StateAfter | supriya/nonrealtime/Session.py:888-901 | the bisect-and-scan search returns the first (resolved, when asked) state strictly above the offset |
| Sessions.QueueNext | supriya/nonrealtime/Session.py:411-414 | after a change with chaining, the next resolved state above the offset is queued, if there is one; otherwise the queue is kept |
| Sessions.LoopStart | supriya/nonrealtime/Session.py:382-388 | the resolver's invariant holds before the first pop, with nothing resolved or written |
| Sessions.LoopSkip | supriya/nonrealtime/Session.py:389-396 | skipping a repeated offset, or one with no state, keeps the invariant and does not move the resolver back |
| Sessions.LoopTake | supriya/nonrealtime/Session.py:389-414 | resolving a listed offset keeps the invariant. The offset joins the written ones exactly when its state changed, and then, with chaining, the next resolved state above it is queued. The resolver strictly advances |
| Sessions.LoopEnd | supriya/nonrealtime/Session.py:384-414 | once the queue is empty, the invariant gives every promise of the resolver |
| Sessions.ChainStart | supriya/nonrealtime/Session.py:382-388 | before any pop, only given offsets are queued |
| Sessions.ChainSkip | supriya/nonrealtime/Session.py:391-396 | dropping a head that is already resolved, or has no state, keeps the chaining discipline |
| Sessions.ChainTake | supriya/nonrealtime/Session.py:389-397 | moving the head to the resolved offsets keeps the chaining discipline |
| Sessions.ChainWrite | supriya/nonrealtime/Session.py:411-414 | a change without chaining, or with no resolved state above, queues nothing and keeps the discipline |
| Sessions.ChainPush | supriya/nonrealtime/Session.py:411-414 | a change with chaining queues the next resolved state above it, keeping the discipline |
| Sessions.NextUnmoved | supriya/nonrealtime/Session.py:412 | nothing above the last offset taken has been resolved yet, so the next resolved state there is the same as before the resolver ran |
| Sessions.WrittenStep | supriya/nonrealtime/Session.py:406-410 | an offset joins the written ones exactly when resolving it changed its state |
| Sessions.ChainFinish | supriya/nonrealtime/Session.py:411-414 | with the queue empty, every resolved offset that was not given comes from a change, and every change's next resolved state is resolved |
| Sessions.Session.ResolveOne | supriya/nonrealtime/Session.py:397-410 | one offset's tree is replaced exactly when the replayed child table differs, and only that state changes |
| Sessions.Session.GetNextSessionId | supriya/nonrealtime/Session.py:930-936 | returns the kind's counter, starting from 1000 for nodes and 0 otherwise, and advances only that kind's counter |
| Sessions.Session.Duration | supriya/nonrealtime/Session.py:1341-1351 | the reverse scan with its early break yields the specified duration (last offset below +∞, clamped at zero, plus a non-zero padding when positive), whose bounds `Rendering.DurationCoversOffsets` proves |
| Sessions.Session.BuildNodeMapping | supriya/nonrealtime/Session.py:471-480 | the root maps to 0, and every node started after the root level maps to its session id |
| Sessions.Session.ToRequestBundles | supriya/nonrealtime/Session.py:991-1029 | the render fails exactly when the specification fails, and otherwise yields its bundles; the session gains at most the end offset, cloned in |
| Sessions.Session.RenderTimeline | supriya/nonrealtime/Session.py:1003-1029 | the render loop yields exactly the specified bundles, or fails exactly when they fail |
| Rendering.LastFinite | supriya/nonrealtime/Session.py:1343-1346 | the offset the reverse scan stops at is listed and below +∞ |
| Rendering.LastFiniteIsGreatest | supriya/nonrealtime/Session.py:1343-1346 | on sorted offsets that offset is the greatest one below +∞, and none is found only when every offset is +∞ |
| Rendering.DurationCoversOffsets | supriya/nonrealtime/Session.py:1341-1351 | the duration is never negative and lies at or after every finite offset; without padding it is 0.0 or a listed offset |
| Rendering.Timeline | supriya/nonrealtime/Session.py:996-999 | the render's offsets are strictly increasing, and are exactly the listed offsets after the root level plus the render end |
| Rendering.TimelineStates | supriya/nonrealtime/Session.py:996-999 | the render's offsets exclude −∞, include the end, and each has a state to compile |
| Rendering.RenderStates | supriya/nonrealtime/Session.py:672-674 | the states the render reads are the session's, plus the end state |
| Rendering.BundlesAdvance | supriya/nonrealtime/Session.py:1006-1028 | one step of the linearization: a failing offset fails the render, the end offset's bundle is the last, and any other offset's bundle precedes the rest |
| Rendering.BundlesShape | supriya/nonrealtime/Session.py:1003-1029 | bundles are timestamped with timeline times in strictly increasing order, none after the end and none empty; the last is at the end and finishes with `Nothing` |
| Rendering.ConsLinear | supriya/nonrealtime/Session.py:1022-1026 | a bundle at an earlier offset, put in front of a well-formed rest, keeps the bundles well formed |
| Rendering.RenderShape | supriya/nonrealtime/Session.py:991-1029 | a successful render's bundles carry timestamps taken from `offsets[1:]` plus the end, strictly ascending and at most the end, none empty, the last at the end and ending with `Nothing` |
| Rendering.GroupedControlBusesUnresolved | supriya/nonrealtime/Session.py:464-468 | because the bus mapping keeps one bus per group, two control buses in one group leave one without an engine id, and collecting the control-bus settings fails |
| IdMappings.BufferKeysMembership | supriya/nonrealtime/Session.py:423-435 | the buffer mapping's keys are exactly the buffers, their groups and the groups' members |
| IdMappings.KeyedBufferCovered | supriya/nonrealtime/Session.py:426-427 | skipping an already mapped buffer loses nothing: its group and the group's members are mapped too |
| IdMappings.BuildBufferMapping | supriya/nonrealtime/Session.py:423-435 | each buffer and group member maps to its session id, and each group maps to its first member's id |
| IdMappings.MapGroup | supriya/nonrealtime/Session.py:430-434 | mapping a group adds the group and all its members, each with the id the mapping specifies |
| IdMappings.GroupIdIsFirstMember | supriya/nonrealtime/Session.py:431-432 | a mapped group's id equals its first member's id |
| IdMappings.HardwareMapping | supriya/nonrealtime/Session.py:447-457 | the hardware buses get the fixed hardware mapping |
| IdMappings.MapOutputs | supriya/nonrealtime/Session.py:448-452 | the output group maps to 0 and output bus i maps to i |
| IdMappings.MapInputs | supriya/nonrealtime/Session.py:453-457 | the input group maps to the output count and input bus i maps to the output count plus i; the outputs are kept |
| IdMappings.HardwareKeysExact | supriya/nonrealtime/Session.py:447-457 | hardware keys exist exactly for the configured channel counts |
| IdMappings.BuildBusMapping | supriya/nonrealtime/Session.py:437-469 | the loop yields exactly the allocation the specification computes |
| IdMappings.MapBlock | supriya/nonrealtime/Session.py:466-468 | as written, the group loop leaves only the last id of the block on the bus that opened it |
| IdMappings.AllocatedHardware | supriya/nonrealtime/Session.py:447-457 | the allocation keeps the hardware mapping exactly as set up |
| IdMappings.AllocateInRange | supriya/nonrealtime/Session.py:441-446 | every allocated audio id lies above the hardware channels, and every control id is non-negative |
| IdMappings.AllocateCovered | supriya/nonrealtime/Session.py:458-468 | every bus not in a group gets an id, and every group gets one |
| IdMappings.AllocateOnBlockEnd | supriya/nonrealtime/Session.py:465-468 | a grouped bus's id is its group's block start plus the group size minus one |
| IdMappings.AllocateInjective | supriya/nonrealtime/Session.py:461-468 | two distinct buses of one rate never share an id: the bump allocators never reuse an id |
| IdMappings.AllocateOnePerGroup | supriya/nonrealtime/Session.py:459-460 | at most one bus per group is mapped, because later members see their group already mapped |
| IdMappings.AllocatedKeeps | supriya/nonrealtime/Session.py:458-468 | the allocation invariants (range, coverage, block end, injectivity, one per group) hold over the whole loop |
| IdMappings.BusMappingShape | supriya/nonrealtime/Session.py:437-469 | what the bus mapping guarantees and what it does not: ungrouped buses mapped, private audio ids above the hardware channels, distinct ids per rate, grouped ids at their block's end, a single bus per group |
| BufferRequests.Range | supriya/nonrealtime/Session.py:561 | `range(n)` lists 0 up to n − 1 |
| BufferRequests.FramesOrOne | supriya/nonrealtime/Session.py:569 | `frame_count or 1`: never zero, and the given count when it is non-zero |
| BufferRequests.ChannelsOrOne | supriya/nonrealtime/Session.py:568 | `channel_count or 1`: never empty, and the given count when it is non-empty |
| BufferRequests.AllocateRequest | supriya/nonrealtime/Session.py:551-569 | a buffer without a file gets a plain allocation with non-zero frames and channels; with a file it gets a read, or a channel read when channels are given; the id is the mapped one |
| BufferRequests.AllocateRequests | supriya/nonrealtime/Session.py:550-574 | one allocation per buffer, in order |
| BufferRequests.BySessionId | supriya/nonrealtime/Session.py:550 | the buffers are permuted into ascending session-id order |
| BufferRequests.CollectBufferAllocateRequests | supriya/nonrealtime/Session.py:544-576 | fails exactly when a starting buffer has no id; otherwise allocates in session-id order and records each allocated buffer as closed |
| BufferRequests.AllocateInOrder | supriya/nonrealtime/Session.py:550-575 | the allocation loop yields the specified requests and open-file record |
| BufferRequests.CloseThenFree | supriya/nonrealtime/Session.py:585-591 | a buffer with an open file is closed before it is freed, and the free is last |
| BufferRequests.CollectBufferFreeRequests | supriya/nonrealtime/Session.py:578-593 | fails exactly when a stopping buffer has no id, has no open-file entry, or shares its id with an earlier one (its entry is already deleted); otherwise frees in session-id order and drops the freed buffers from the record |
| BufferRequests.FreeInOrder | supriya/nonrealtime/Session.py:584-592 | the free loop yields the specified requests and record |
| BufferRequests.FreeUndefinedUnmapped | supriya/nonrealtime/Session.py:585 | a stopping buffer without an id fails the frees |
| BufferRequests.FreeUndefinedAt | supriya/nonrealtime/Session.py:585 | a stopping buffer whose open-file entry is missing (never allocated, or already freed) fails the frees |
| BufferRequests.OpsInOrderHasAll | supriya/nonrealtime/Session.py:608-611 | every command scheduled under a listed kind is issued |
| BufferRequests.StepOp | supriya/nonrealtime/Session.py:612-629 | a read or write closes an open file first, fails when the buffer has no open-file entry, and records `leave_open`; any other command passes through unchanged |
| BufferRequests.RunKindOps | supriya/nonrealtime/Session.py:617-627 | the per-kind loop yields the specified requests and record, or fails exactly when they fail |
| BufferRequests.CollectBufferNonlifecycleRequests | supriya/nonrealtime/Session.py:595-630 | the offset's scheduled commands, by kind in the given kind order, fail exactly when the specification fails and otherwise match it with the record it leaves |
| BufferRequests.KindFails | supriya/nonrealtime/Session.py:608-627 | a failure at one kind fails the whole collection |
| BufferRequests.RunOpsAppend | supriya/nonrealtime/Session.py:617-627 | running two command lists in turn is running their concatenation |
| BufferRequests.RunOpsErrPersists | supriya/nonrealtime/Session.py:619 | once a command fails, later commands do not recover it |
| BufferRequests.RunOpsFinalOpen | supriya/nonrealtime/Session.py:626-627 | after the commands, each buffer's open flag is its last read or write's `leave_open`, else what it was |
| NodeRequests.InjectedDuration | supriya/nonrealtime/Session.py:705-713 | the injected duration is the node's own when it ends before the render end, else it is cut at the render end |
| NodeRequests.CreationSettings | supriya/nonrealtime/Session.py:700-713 | a synth is created with its keyword arguments, overridden by its recorded settings, plus the injected duration when it declares one |
| NodeRequests.ActionRequest | supriya/nonrealtime/Session.py:699-719 | a starting synth is created with its settings, a starting group is created, and any other node is moved; fails exactly when source or target has no id |
| NodeRequests.CollectNodeActionRequests | supriya/nonrealtime/Session.py:693-720 | the action loop yields the specified requests and leftover settings, or fails exactly when they fail |
| NodeRequests.ActionRequestsDefined | supriya/nonrealtime/Session.py:693-720 | the actions succeed exactly when every source and target has an id, and give one request per transition |
| NodeRequests.ActionRequestsSpec | supriya/nonrealtime/Session.py:699-720 | request i is transition i's request, and the settings of the started synths are consumed (`pop`) |
| NodeRequests.WithoutMembers | supriya/nonrealtime/Session.py:704 | popping settings removes exactly those nodes' entries |
| NodeRequests.WithoutUnion | supriya/nonrealtime/Session.py:704 | popping twice is popping the union |
| NodeRequests.IdsWhereMembers | supriya/nonrealtime/Session.py:726-734 | the collected ids are exactly the ids of the stopping nodes of that kind (gated or freed) |
| NodeRequests.StopIds | supriya/nonrealtime/Session.py:726-736 | the freed and gated id lists are sorted and hold exactly the matching stopping nodes' ids |
| NodeRequests.StopRequests | supriya/nonrealtime/Session.py:737-743 | one free request for all freed ids (when any), then one gate close per gated id |
| NodeRequests.CollectNodeFreeRequests | supriya/nonrealtime/Session.py:722-744 | fails exactly when a stopping node has no id |
| NodeRequests.FreeBatchPresent | supriya/nonrealtime/Session.py:733-738 | a free request is issued exactly when some stopping node has a duration and no gate |
| NodeRequests.NodeFreeBatch | supriya/nonrealtime/Session.py:735-739 | at most one free request, first, listing exactly the freed nodes' ids in ascending order |
| NodeRequests.NodeGateOrder | supriya/nonrealtime/Session.py:740-743 | after the free request, only gate-closing set requests follow, in ascending id order |
| NodeRequests.StopRequestsGates | supriya/nonrealtime/Session.py:740-743 | the gate closes are exactly the gated ids |
| NodeRequests.NodeGateMembers | supriya/nonrealtime/Session.py:728-743 | a gate is closed exactly for stopping synths whose definition has a gate |
| NodeRequests.SetRequestsFor | supriya/nonrealtime/Session.py:774-811 | a node's settings compile exactly when the node and every bus and buffer a kept setting names have ids |
| NodeRequests.Pack3 | supriya/nonrealtime/Session.py:799-811 | the set, audio-map and control-map requests come in that order, each present only when non-empty and each for the node |
| NodeRequests.ValueArgs | supriya/nonrealtime/Session.py:795-798 | the set request carries exactly the kept number and buffer settings |
| NodeRequests.AudioBuses | supriya/nonrealtime/Session.py:793-794 | the audio-map request carries exactly the kept audio-bus settings |
| NodeRequests.ControlBuses | supriya/nonrealtime/Session.py:786-792 | the control-map request carries exactly the kept control-bus settings and unmappings |
| NodeRequests.NodeSetShape | supriya/nonrealtime/Session.py:774-811 | each request carries exactly the kept settings of its kind for that node; scalar parameters are skipped |
| NodeRequests.NodeSetCoverage | supriya/nonrealtime/Session.py:782-798 | every kept setting is carried by the request of its kind |
| NodeRequests.NodeSetRequestsResolve | supriya/nonrealtime/Session.py:763-812 | the node-set collection succeeds exactly when every node's settings resolve |
| BusRequests.Put | supriya/nonrealtime/Session.py:669 | writing a bus value keeps one value per bus and replaces any earlier value for that bus |
| BusRequests.SortedPairs | supriya/nonrealtime/Session.py:537 | the pairs are sorted by bus id and are exactly the offset's settings |
| BusRequests.CollectBusSetRequests | supriya/nonrealtime/Session.py:534-542 | no request without settings at the offset; otherwise one control-bus set with exactly those pairs, in bus-id order |
| BusRequests.Record | supriya/nonrealtime/Session.py:669 | `setdefault(offset, {})[bus_id] = value`: only that offset's row changes, and it gains or replaces that bus's value |
| BusRequests.RecordEvents | supriya/nonrealtime/Session.py:668-669 | recording a bus's events keeps one value per bus per offset |
| BusRequests.BusSettingsOf | supriya/nonrealtime/Session.py:662-670 | fails exactly when a control bus has no id; audio buses are skipped |
| BusRequests.CollectBusSettings | supriya/nonrealtime/Session.py:662-670 | the collection loop yields the specified table |
| BusRequests.BusSettingsErrPersists | supriya/nonrealtime/Session.py:667 | an unmapped control bus fails the whole collection |
| BusRequests.RecordEventsHolds | supriya/nonrealtime/Session.py:668-669 | after recording, every event's offset holds a value for that bus, and earlier entries stay present |
| BusRequests.RecordEventsProvenance | supriya/nonrealtime/Session.py:668-669 | every entry after recording was there before or comes from one of the events |
| BusRequests.BusSettingsProvenance | supriya/nonrealtime/Session.py:662-670 | every entry of the table comes from some control bus's event |
| BusRequests.BusSettingsComplete | supriya/nonrealtime/Session.py:662-670 | every control bus's event puts a value for that bus at that offset |
| SynthDefs.NewDefsSpec | supriya/nonrealtime/Session.py:873-879 | the new definitions are listed once each, and are exactly the starting synths' definitions not already sent |
| SynthDefs.Receives | supriya/nonrealtime/Session.py:881-885 | one receive request per definition, in order |
| SynthDefs.SynthDefRequestsOrdered | supriya/nonrealtime/Session.py:880-885 | the receives are ordered by anonymous name (digest) |
| SynthDefs.SynthDefRequestsDistinct | supriya/nonrealtime/Session.py:872-880 | no definition is received twice at one offset |
| SynthDefs.SynthDefRequestsSend | supriya/nonrealtime/Session.py:868-886 | exactly the starting synths' definitions not sent before are received |
| SynthDefs.CollectSynthDefRequests | supriya/nonrealtime/Session.py:868-886 | the loop yields the specified receives and marks every starting synth's definition as sent |
| SynthDefs.SentOnce | supriya/nonrealtime/Session.py:876-879 | a definition sent at one offset is never sent again at a later one |
| OffsetCompiler.Union | supriya/nonrealtime/Session.py:678-679 | `set.update`: holds exactly the elements of both, and stays duplicate-free |
| OffsetCompiler.StopNodes | supriya/nonrealtime/Session.py:676-679 | the stopping nodes are the state's, plus the overlapping ones at the last offset |
| OffsetCompiler.StopBuffers | supriya/nonrealtime/Session.py:675-678 | the stopping buffers are the state's, plus the overlapping ones at the last offset |
| OffsetCompiler.BufferStartRequests | supriya/nonrealtime/Session.py:838-848 | allocations followed by the post-allocation commands, as specified, sharing one open-file record |
| OffsetCompiler.BufferStopRequests | supriya/nonrealtime/Session.py:855-865 | the pre-free commands followed by the frees, as specified, sharing one open-file record |
| OffsetCompiler.CollectRequestsAtOffset | supriya/nonrealtime/Session.py:814-866 | the offset's requests and the records they leave match the specification, and fail exactly when it fails |
| OffsetCompiler.AtOffsetStages | supriya/nonrealtime/Session.py:825-866 | any failing stage fails the offset; otherwise the requests are definitions, buffer starts, actions, controls and buffer stops, concatenated in that order |
| OffsetCompiler.AtOffsetOrder | supriya/nonrealtime/Session.py:837-865 | in a compiled offset, definitions precede everything else, allocations precede node actions, actions precede settings, and frees come last |
| OffsetCompiler.DefinitionsFirst | supriya/nonrealtime/Session.py:837 | no request precedes a definition receive |
| OffsetCompiler.AllocationsBeforeActions | supriya/nonrealtime/Session.py:838-851 | every allocation precedes every node action |
| OffsetCompiler.ActionsBeforeControl | supriya/nonrealtime/Session.py:849-854 | every node action precedes every bus and node setting |
| OffsetCompiler.FreesLastOfStages | supriya/nonrealtime/Session.py:863-865 | nothing follows a buffer free |
| OffsetCompiler.CommandsThenFrees | supriya/nonrealtime/Session.py:855-865 | pre-free commands followed by frees leave the frees last |
| SynthTrack.ValueAt | supriya/tools/nonrealtimetools/Synth.py:171-172 | there is a value at t exactly when some breakpoint has time t, and on an ordered track it is that breakpoint's value |
| SynthTrack.HeldBefore | supriya/tools/nonrealtimetools/Synth.py:173-177 | a held value exists exactly when some breakpoint lies before t |
| SynthTrack.BisectPairs | supriya/tools/nonrealtimetools/Synth.py:166 | `bisect_left` on (time, value) pairs: every breakpoint before the index is tuple-smaller than the key, and none from it on is |
| SynthTrack.BisectPairsSplit | supriya/tools/nonrealtimetools/Synth.py:166-177 | on an ordered track, the bisection separates breakpoints before t from those at or after t |
| SynthTrack.SetAsWrittenDuplicatesTime | supriya/tools/nonrealtimetools/Synth.py:191-198 | as written, writing 2.0 at time 0.0 over the breakpoint (0.0, 1.0) keeps both, which breaks the time order, and a read at 0.0 still returns 1.0 |
| SynthTrack.Put | supriya/tools/nonrealtimetools/Synth.py:179-198 | the intended write adds at most one breakpoint |
| SynthTrack.PutKeepsOrder | supriya/tools/nonrealtimetools/Synth.py:186-198 | the intended write keeps breakpoint times strictly increasing |
| SynthTrack.PutLength | supriya/tools/nonrealtimetools/Synth.py:194-198 | the write overwrites in place when the time has a breakpoint, and adds one otherwise |
| SynthTrack.PutReads | supriya/tools/nonrealtimetools/Synth.py:194-198 | after a write, the breakpoint at that time holds the written value |
| SynthTrack.PutLeavesOthers | supriya/tools/nonrealtimetools/Synth.py:194-198 | a write leaves every other time's breakpoint as it was |
| SynthTrack.PutIsSplice | supriya/tools/nonrealtimetools/Synth.py:191-198 | the write is the bisect-and-splice: overwrite at the bisection point when the time matches, insert there otherwise |
| SynthTrack.LookupIsHeldValue | supriya/tools/nonrealtimetools/Synth.py:164-177 | the bisect-based read equals "the breakpoint at t, else the last one before t, else the default" |
| SynthTrack.LookupExact | supriya/tools/nonrealtimetools/Synth.py:171-172 | reading at a breakpoint's time returns its value |
| SynthTrack.LookupHeld | supriya/tools/nonrealtimetools/Synth.py:173-177 | reading between breakpoints returns the last one before, or the default before the first |
| SynthTrack.ReadTrack | supriya/tools/nonrealtimetools/Synth.py:161-165 | an unwritten parameter reads as its default |
| SynthTrack.WriteThenRead | supriya/tools/nonrealtimetools/Synth.py:179-198 | reading back a written time returns the written value |
| SynthTrack.ResolveAddAction | supriya/tools/nonrealtimetools/Synth.py:43-49 | no add action means add-to-head; only add-to-head and add-to-tail are accepted, and any other is an error |
| SynthTrack.Plain | supriya/tools/nonrealtimetools/Synth.py:92-100 | the plain settings are exactly the event's entries that are not bus mappings |
| SynthTrack.BusesOfRate | supriya/tools/nonrealtimetools/Synth.py:92-98 | the mappings of a rate are exactly the event's bus entries of that rate |
| SynthTrack.BreakpointsAt | supriya/tools/nonrealtimetools/Synth.py:78-82 | the event at a time holds exactly the parameters with a breakpoint there, with those values |
| SynthTrack.Assemble | supriya/tools/nonrealtimetools/Synth.py:101-131 | the first request comes first, then the audio and control mappings, each only when non-empty |
| SynthTrack.AppendAt | supriya/tools/nonrealtimetools/Synth.py:137 | `setdefault(stop, []).append(end)`: the end request is last at the stop time, and the other times are unchanged |
| SynthTrack.StartSettings | supriya/tools/nonrealtimetools/Synth.py:102-105 | the synth's length is added when its definition declares `duration` and no setting supplies it, and all settings are kept |
| SynthTrack.RequestsAt | supriya/tools/nonrealtimetools/Synth.py:101-131 | each time's requests open with its create or set request |
| SynthTrack.RequestsOfTimes | supriya/tools/nonrealtimetools/Synth.py:76-82 | requests fall exactly at the start, at every breakpoint's absolute time and at the stop |
| SynthTrack.FirstRequestAt | supriya/tools/nonrealtimetools/Synth.py:101-119 | at every time that carries requests, the create or set request comes first, including the stop time where the end request is appended |
| SynthTrack.RequestsOfStart | supriya/tools/nonrealtimetools/Synth.py:102-113 | the start time opens with the create request, carrying the synth's plain settings with its length added |
| SynthTrack.RequestsOfEnd | supriya/tools/nonrealtimetools/Synth.py:133-137 | the stop time ends with a gate close when the definition has a gate, else with a free |
| SynthTrack.RequestsOfBreakpoints | supriya/tools/nonrealtimetools/Synth.py:78-82 | every breakpoint's value reaches the opening request at its absolute time |
| SynthTrack.BreakpointTimed | supriya/tools/nonrealtimetools/Synth.py:78-81 | every breakpoint's absolute time carries requests |
| SynthTrack.Synth.constructor | supriya/tools/nonrealtimetools/Synth.py:27-53 | a new synth has its span, definition and keyword arguments, the resolved add action, and no breakpoints |
| SynthTrack.Synth.GetAtTimestepHolds | supriya/tools/nonrealtimetools/Synth.py:156-177 | `_get_at_timestep` fails exactly for a parameter the definition does not declare. Otherwise it returns the breakpoint at the relative time, else the last one before it, else the keyword argument, else the definition's default |
| SynthTrack.Synth.SetAtTimestep | supriya/tools/nonrealtimetools/Synth.py:179-198 | a write outside the synth's span is ignored; otherwise the parameter's track gets the intended write, stays ordered, and reads back the written value |

## Left out

- `Moment`, the object `at` returns, is left out. Propagation on leaving a moment is left out with it. `At` returns the state.
- `State._clone` and `State._apply_transitions` are not part of this model. They are the session's function-valued fields `clone` and `replay`, and the properties hold for any such functions.
- `is_sparse` is taken to mean that the state holds no node tree.
- `DoNotPropagate` is a process-wide stack. It is the `blocked` parameter of `ApplyTransitions`.
- `_collect_node_settings` reads each node's recorded settings through the node classes, which are not part of this model. It is the `nodeSettings` input of the render. Only `pop`, which removes the settings of created synths, is modelled.
- `_collect_buffer_settings` builds request objects from buffer events, which are not part of this model. It is the `schedule` input: commands by offset and by kind. The post-allocation and pre-free kind orders are the constants `BufferRequests.PostAllocKinds` and `BufferRequests.PreFreeKinds`, in the source's order.
- `_collect_durated_objects` also computes `all_buffers` and `all_nodes`. Nothing in the core reads them, so they are left out. The interval trees `find_intersection` queries are not part of this model.
- `BlockAllocator` is a bump allocator per rate: ids are handed out in order and never freed. This is all the bus mapping in a single pass needs.
- `NodeIdAllocator` is left out. Its result is overwritten by the session id on the next line, so the mapping is the same.
- IdMappings.BuildBusMapping: reproduces the group loop as written, where one bus of a group gets its block's last id. The mapping the authors intended for the other members is not modelled.
- The bus mapping, buffer groups and bus group sizes are parameters. `_setup_buses` and the bus and buffer constructors that build them are left out.
- Sessions.Session.ToRequestBundles: the `assert 0 < duration < inf` for an infinite session duration is not modelled. The duration scan only returns finite values, so the assert is unreachable.
- Rendering.LastFinite: returns None when every offset is +∞, and `DurationOf` then gives 0.0. The source would return +∞ there, because its loop variable ends on the first offset. This cannot happen in a session, because −∞ is always listed first.
- Python sets (start and stop nodes, buffers, visited definitions) are duplicate-free sequences or Dafny sets. Every consumer either sorts them or is order-independent.
- Synth definitions are ordered by a `digest` that stands for the anonymous name. Definition bodies and their encoding are left out.
- Request and bundle encoding to OSC, `_to_non_xrefd_osc_bundles`, `render`, the command line and all file I/O are left out.
- `_iterate_state_pairs`, `_build_rand_seed_synthdef` and the public `add_*` and `move_node` builders are left out, because they are outside the core.
- The synth's `__getitem__` and `__setitem__` read the current moment's timestep from the session. That timestep is the `timestep` parameter of `GetAtTimestep` and `SetAtTimestep`.
- SynthTrack.RequestsOf: requires that no keyword argument is an unmapping (`None`). The source fails on it with an `AttributeError` at Synth.py line 94.
- SynthTrack.Synth.SetAtTimestep: models the intended write (see Findings). The write as written is `SetAsWritten`.
- SynthTrack.Synth.SetAtTimestep: breakpoint values are numbers only. The source also accepts a `Bus` or `BusGroup` as a breakpoint value, and `_collect_requests` then sorts it into that time's audio or control map request. Bus-valued breakpoints and their per-time map requests are not modelled; bus mappings come only from the keyword arguments at the start.
- SynthTrack.Synth.constructor: requires an add action that `ResolveAddAction` accepts. The source's `assert` fails on any other; `ResolveAddAction` models that failure as `InvalidAddAction`, but a constructor cannot return it.
- Sessions.Session.FindOrCloneStateAt: models the corrected splice (see Findings). The splice as written is `CloneSpliceAsWritten`.
- Rendering.GroupedControlBusesUnresolved: two control buses in one group make the render fail. The behaviour the authors intended for grouped control buses is not modelled.
- Times are unbounded reals. Floating-point rounding is left out.

## Findings

| source | as written | input that shows it | evidently intended | confidence | as-written member | corrected member |
|---|---|---|---|---|---|---|
| supriya/nonrealtime/Session.py:903-910 | a missing state is spliced into the offsets right after the last state holding a node tree | resolved state at 0.0, sparse state at 5.0; cloning at 7.0 gives offsets −∞, 0.0, 7.0, 5.0, which are no longer sorted | insert the new offset in sorted place (after its immediate predecessor, as `_add_state_at` does) | not executed | Sessions.CloneSpliceAsWrittenUnsorted | Sessions.Session.FindOrCloneStateAt |
| supriya/tools/nonrealtimetools/Synth.py:191-198 | the write bisects on (time, value) tuples, so a larger value at an existing time bisects past that breakpoint and is inserted beside it | track [(0.0, 1.0)], write 2.0 at 0.0: gives [(0.0, 1.0), (0.0, 2.0)], and a read at 0.0 then returns 1.0 | overwrite the breakpoint at that time | not executed | SynthTrack.SetAsWrittenDuplicatesTime | SynthTrack.Synth.SetAtTimestep |
