# Verified models of the A1000 sources

Dafny models of the parts of this repository that hold real algorithms and state machines, each proved
against what its code and comments promise. Run `dafny verify dfyconfig.toml` in this directory.

| files | models |
|---|---|
| `CpusetTree`, `CpusetRules`, `CpusetRuns`, `CpusetEffects` | the cpuset hierarchy of `kernel/cpuset.c` as a value: every operation, what each of them keeps, the rules over whole runs, and what each operation does |
| `CpusetSystem` | the same operations as they run: cpuset objects changed in place, tied step by step to the value |
| `Partition`, `PartitionChange`, `SchedDomains`, `CpusetDomains`, `CpusetEvents` | the partition algorithm of `generate_sched_domains`, and when the domains last handed to the scheduler are still the right ones, CPU events included |
| `Fmeter` | the decaying event meter of a cpuset |
| `PcmRing` | the memory-mapped ring of tinyalsa, for playback and capture |
| `Caps`, `CapsOutcomes`, `CapsHooks` | credentials with the backported ambient capability set: the rules as functions, what they come to for each id and each capability, the kernel hooks as methods that fill in a prepared copy |
| `CredRefs` | the reference and subscriber counts of `kernel/cred.c` |
| `Bytes`, `Cpio`, `CpioReturns`, `BootImg` | the boot image tool: cpio reader and printer, when the reader returns, image assembly, file replacement |
| `ColourPixels`, `ColourHash`, `RoundRobin`, `ColourShim`, `PhysTable`, `ColourAddress` | the colour shim: pixel pass and hash, what the hash notices, the once-per-frame cache, the table that owns descriptors, and presents by address through both |
| `RilProtocol`, `RilDispatch` | the RIL: the lock and generation protocol around the callbacks, and ownership in the dispatch functions |
| `Crc32` | the table-driven CRC-32 of the framebuffer dump |
| `Common` | an option type and the size of a 32-bit word |

How the models read:

- Machine integers are mathematical ones; where width matters the wrap-around is written out (`U32`, `S32`, `WORD`) or
  excluded by proof, as in the assertions of `Fmeter`. CRC words and packed pixels are bit vectors.
- Masks and capability sets are sets of numbers; a capability word is the part of a set below 32 or from 32 on.
- A cpuset is named by its place in creation order, number 0 being the root. Walks go in that order; the kernel's own
  order differs, but `Partition.DomainsUnique` shows that the resulting domains do not depend on it.
- The hotplug worker and the propagations it queues and flushes are one step; the CPU events before it are steps of their
  own in `CpusetEvents`. Attaching is two steps, as in the kernel, so that a hotplug can come in between.
- A loop that may run for ever is followed for any number of rounds: `Cpio.ParseN` says what cpio_parse has after each.
- Failure of an allocation, of an LSM hook or of a task transfer, the answers of `dup`, and device progress are
  parameters or arbitrary choices. The BUG_ONs of `cred.c` and `cpuset.c` are assertions and counts that are proved.
- Where the code is a loop over the words of a set or the fields of a profile, the model is a loop as well; where one C
  function is long, its parts are methods of their own, named after what they do.

## Findings

What the proofs showed about the code, each stated exactly in the member named.

- The comment of `generate_sched_domains` that all child cpusets contain a subset of the parent's CPUs fails for the
  root's children since the A1000 hotplug rule: a child that keeps one active CPU also keeps its inactive ones
  (`CpusetRuns.AllNestedAfterHotplug`, `CpusetRuns.StaleChildExample`), and inactive CPUs can then reach the scheduler
  (`CpusetDomains.DomainsActiveAfterHotplug`, `CpusetDomains.InactiveCpuExample`).
- `cpuset_css_offline` cannot switch load balancing off for such a child, so removing it leaves its domain behind, and
  creating a cloned cpuset below an unbalanced root makes a balanced cpuset without a rebuild. Apart from CPU events these
  two are the only operations after which the domains can be out of date, and `CpusetDomains.CurrentExactly` says exactly
  when they are: unless the cloned mask lies inside a domain, or the other masks make up for the one removed.
  (`CpusetDomains.MissedCloneExample`, `CpusetDomains.MissedRemovalExample`)
- Every CPU event hands the scheduler the default single domain, and the worker rebuilds only if it finds other CPUs active
  than before. After events that end where they began, a CPU that goes down and comes back, the default domain stays, and
  it is right exactly when the collected masks hold all active CPUs and overlaps join them all
  (`CpusetEvents.TurnExactly`, `CpusetEvents.CoalescedEventsExample`).
- `pcm_mmap_playback_avail` reports a whole boundary of free space for a full ring whose raw pointer difference is the
  boundary, because of the strict test at line 1111; every other state is computed right. The next write then
  overwrites the oldest queued frame (`PcmRing.PlaybackAvailExactly`, `PcmRing.FullRingExample`,
  `PcmRing.Pcm.FirstRound`).
- The setuid fix-up clears the permitted set but not the ambient one, so a task that gave up root has its ambient
  capabilities back after the next plain exec (`Caps.CoveredExactly`, `Caps.AmbientSurvivesGivingUpRoot`,
  `Caps.GivingUpRootExample`).
- `assemble` drops a second stage but keeps its size in the header, so `split` then looks for the device tree too far
  on (`BootImg.AssembledSplits`, `BootImg.LostDtExample`).
- `cpio_parse` reads its sizes with `int`, which takes a sign, so an entry can lead its loop back. It fails to return
  exactly when the loop comes back to a place where it has been (`CpioReturns.NeverExactly`,
  `CpioReturns.NeverReturnsExample`), never where each entry passes a test on its two sizes
  (`CpioReturns.ReturnsMovingOn`). Where it does return, what it read may not read back once printed
  (`Cpio.PrintedAgain`, `CpioReturns.NotAgainExample`).
- The header of the tool says that the round-trip check guards a ramdisk of two gzip streams. It only sees the first, and
  replacing a file drops what is behind it: that is kept exactly when it is empty (`BootImg.SecondStreamUnseen`,
  `BootImg.ReplaceChangesOneFile`).
- On an image whose page does not hold the 44 bytes of the header, which `parse_hdr` accepts, `assemble` can lose the page
  size (`BootImg.SmallPageExample`).
- The first BUG_ON of `commit_creds` lets through a task that is overridden with its own objective credential. Once such
  an override is reverted, the next commit meets the BUG_ON, unless the credential committed was that same one
  (`CredRefs.CommitWhileOverridden`, `CredRefs.OverriddenCommitExample`).
- The comment at `FM_MAXTICKS` calls the meter stable after 99 ticks; it is, exactly when it started at 8407 or less,
  a rate of 8.4 events a second (`Fmeter.LongSpan`, `Fmeter.UnstableExample`).
- An unchanged frame whose descriptor lost its slot to 24 others is turned a second time
  (`ColourShim.LeftAloneExactly`, `ColourShim.TurnedTwiceExample`), and so is one whose address is recorded again under
  a number without its hash (`ColourAddress.RecordedAgain`, `ColourAddress.RecordedAgainExample`).
- `sendErrorResponse` calls the client without the read lock that `checkReturnStatus` gives up and takes back. When such
  a call fails, the function is entered without the lock and leaves a read lock behind that nobody releases: no client
  can register any more (`RilProtocol.DisciplinedExactly`, `RilProtocol.BareFailureRun`,
  `RilProtocol.LeakKeepsWritersOut`, `RilProtocol.DeadlockExample`). It can also clear callbacks registered while it was
  calling (`RilProtocol.BareFailureClearsLaterExample`).
- Any other failed RIL call spares callbacks registered later unless exactly a multiple of 2^32 updates came in between
  (`RilProtocol.LaterCallbacksStay`, `RilProtocol.WrapExample`).

## Model

| member | source | states |
|---|---|---|
| Partition.DomainsDisjoint | kernel/sc8830/kernel/cpuset.c:566-570 | two different domains have no CPU in common |
| Partition.DomainsUnion | kernel/sc8830/kernel/cpuset.c:585-588 | the domains together hold exactly the CPUs of the collected masks |
| Partition.DomainsFinest | kernel/sc8830/kernel/cpuset.c:566-570 | whatever disjoint sets split no collected mask, every non-empty domain lies inside one of them: as many and as small as possible |
| Partition.DomainsUnique | kernel/sc8830/kernel/cpuset.c:578-588 | the non-empty domains depend only on which non-empty masks were collected, not on order or repetition |
| Partition.MergedSound | kernel/sc8830/kernel/cpuset.c:666-675 | merging the labels of two overlapping cpusets never joins cpusets that no chain of overlaps joins |
| Partition.MergedCount | kernel/sc8830/kernel/cpuset.c:666-675 | such a merge lowers the number of distinct labels by exactly one |
| Partition.SettledSound | kernel/sc8830/kernel/cpuset.c:656-677 | when no overlapping pair differs in label, equal labels mean joined by a chain of overlaps, and conversely |
| SchedDomains.Absorb | kernel/sc8830/kernel/cpuset.c:667-672 | relabels exactly the cpusets that carry the second label |
| SchedDomains.FindOverlap | kernel/sc8830/kernel/cpuset.c:658-677 | finds two overlapping cpusets with different labels, or proves there are none |
| SchedDomains.FindPartition | kernel/sc8830/kernel/cpuset.c:652-677 | the restart loop ends, with `ndoms` the number of distinct labels and labels equal exactly along chains of overlaps |
| SchedDomains.FillSlot | kernel/sc8830/kernel/cpuset.c:718-732 | a slot gets the union of all masks with its label, which are marked done |
| SchedDomains.SlotLeft | kernel/sc8830/kernel/cpuset.c:693-735 | an unfinished label always finds a free slot, and all slots are used in the end: neither the confused branch nor the BUG_ON can be reached |
| SchedDomains.BuildDomains | kernel/sc8830/kernel/cpuset.c:652-735 | the masks produced are the union of a chain-connected class each, and every collected mask lies in its own |
| CpusetDomains.EveryBalancedCovered | kernel/sc8830/kernel/cpuset.c:631-649 | below an unbalanced root every balanced cpuset with CPUs, however deep, lies in exactly one domain although only the topmost are collected |
| CpusetDomains.TopmostExactly | kernel/sc8830/kernel/cpuset.c:630-650 | below an unbalanced root the domains are right for the masks collected exactly when they are right for the masks of all balanced cpusets |
| CpusetDomains.WalkExactly | kernel/sc8830/kernel/cpuset.c:631-649 | a cpuset is collected exactly if it is balanced and all between it and the root are unbalanced and have CPUs |
| CpusetDomains.RewriteQuiet | kernel/sc8830/kernel/cpuset.c:895-897 | writing the mask or flag that is there changes nothing and rebuilds nothing |
| CpusetDomains.BalancedRootExactly | kernel/sc8830/kernel/cpuset.c:606-623 | with a balanced root its mask alone is collected |
| CpusetDomains.DomainsActiveExactly | kernel/sc8830/kernel/cpuset.c:763-787 | only active CPUs reach the scheduler exactly when no collected mask is stale |
| CpusetDomains.DomainsActiveAfterHotplug | kernel/sc8830/kernel/cpuset.c:2058-2071 | after a hotplug that is so exactly when, before it, the root was balanced or every collected mask was to keep active CPUs only or none |
| CpusetDomains.InactiveCpuExample | kernel/sc8830/kernel/cpuset.c:2058-2071 | one CPU of two goes down, and the rebuilt domains hold it |
| CpusetDomains.RemovalSwitchesOff | kernel/sc8830/kernel/cpuset.c:1936-1949 | removal can switch balancing off exactly when the mask lies within the parent's |
| CpusetDomains.QuietExactly | kernel/sc8830/kernel/cpuset.c:864-920 | an operation that does not rebuild leaves the collected masks, cpuset by cpuset, alone, except exactly in the two cases of Missed |
| PartitionChange.GrownExactly | kernel/sc8830/kernel/cpuset.c:566-570 | with one mask more the domains stay right exactly when it lies inside one of them |
| PartitionChange.ShrunkExactly | kernel/sc8830/kernel/cpuset.c:566-570 | without one mask they stay right exactly when the others have all its CPUs and those that overlap it are joined without it |
| CpusetDomains.CurrentExactly | kernel/sc8830/kernel/cpuset.c:794-799 | the scheduler's domains, right before an operation, are right after it exactly when it is none of the two missed cases, or a cloned mask lies inside a domain, or the other collected masks make up for the one removed |
| PartitionChange.OneDomainExactly | kernel/sc8830/kernel/cpuset.c:566-570 | a single domain is right exactly when the masks together hold its CPUs and every two are joined by overlaps |
| CpusetEvents.DefaultExactly | kernel/sc8830/kernel/cpuset.c:2199-2212 | the default domain of a CPU event is right exactly when the collected masks hold every active CPU and are all joined |
| CpusetEvents.TurnExactly | kernel/sc8830/kernel/cpuset.c:2188-2215 | after any CPU events and the worker that follows, the domains are right exactly when other CPUs are active than before, or the default domain is right; otherwise as CurrentExactly says |
| CpusetEvents.BalancedRootUnharmed | kernel/sc8830/kernel/cpuset.c:2199-2212 | with a balanced root it always is |
| CpusetEvents.DomainsOverRuns | kernel/sc8830/kernel/cpuset.c:794-799 | over every run of operations and coalescing CPU events the domains are right after each turn exactly when each turn keeps them so |
| CpusetEvents.CoalescedEventsExample | kernel/sc8830/kernel/cpuset.c:2188-2215 | a CPU goes down and comes back before the worker runs, and the domains stay wrong |
| CpusetDomains.MissedCloneExample | kernel/sc8830/kernel/cpuset.c:1882-1934 | a clone below an unbalanced root, after which the domains are wrong |
| CpusetDomains.HarmlessCloneExample | kernel/sc8830/kernel/cpuset.c:1882-1934 | a clone after which they are right although nothing was rebuilt |
| CpusetDomains.MissedRemovalExample | kernel/sc8830/kernel/cpuset.c:1936-1949 | a stale child of the root leaves and its domain stays behind |
| CpusetRules.ValidateExactly | kernel/sc8830/kernel/cpuset.c:441-497 | where the rules hold, a trial value is accepted precisely when they still hold with it in place and no occupied cpuset loses its last CPU or node |
| CpusetRules.AcceptedKeepsRules | kernel/sc8830/kernel/cpuset.c:441-497 | an accepted write keeps nesting, exclusiveness and live masks |
| CpusetRules.WriteCpusKeepsRules | kernel/sc8830/kernel/cpuset.c:864-920 | every write to a cpus file keeps the invariant, whatever its outcome |
| CpusetRules.WriteMemsKeepsRules | kernel/sc8830/kernel/cpuset.c:1091-1152 | every write to a mems file keeps it |
| CpusetRules.UpdateFlagKeepsRules | kernel/sc8830/kernel/cpuset.c:1231-1276 | every flag write keeps it |
| CpusetRules.CreateKeepsRules | kernel/sc8830/kernel/cpuset.c:1882-1934 | creation, with or without cloning, keeps it |
| CpusetRules.RemoveKeepsRules | kernel/sc8830/kernel/cpuset.c:1936-1949 | removal keeps it, the count of cpusets included |
| CpusetRules.PropagatedMask | kernel/sc8830/kernel/cpuset.c:2058-2071 | what a propagation leaves: nothing new, the CPU mask untouched while it keeps an active CPU and empty otherwise, the nodes cut to the root's |
| CpusetRules.HotplugKeepsRules | kernel/sc8830/kernel/cpuset.c:2140-2197 | a hotplug with its propagations keeps the invariant |
| CpusetRules.FinishAttachKeepsRules | kernel/sc8830/kernel/cpuset.c:1433-1492 | completing an attach keeps it, even when hotplug emptied the cpuset meanwhile |
| CpusetRuns.StepKeepsRules | kernel/sc8830/kernel/cpuset.c:382-388 | every operation keeps the invariant, and all but hotplug keep the stronger rule for the root's children |
| CpusetRuns.RulesOverRuns | kernel/sc8830/kernel/cpuset.c:441-497 | from boot, over any sequence of operations: siblings disjoint where exclusive, children within parents below the root, masks live, count right |
| CpusetRuns.AllNestedWithoutHotplug | kernel/sc8830/kernel/cpuset.c:382-388 | without hotplug the root's children are subsets of the root as well |
| CpusetRuns.AllNestedAfterHotplug | kernel/sc8830/kernel/cpuset.c:2058-2071 | after a hotplug that holds exactly when no child of the root keeps both an active and an inactive CPU |
| CpusetRuns.StaleChildExample | kernel/sc8830/kernel/cpuset.c:2058-2071 | one CPU of two goes down and the child is no longer a subset |
| CpusetRuns.MaskSurvivesHotplugs | kernel/sc8830/kernel/cpuset.c:2058-2071 | a mask that always keeps one active CPU comes through any hotplug sequence unchanged |
| CpusetRuns.StepKeepsTasks | kernel/sc8830/kernel/cpuset.c:2017-2036 | an operation loses no task and leaves every task with CPUs and memory, unless its transfer failed |
| CpusetRuns.TasksOverRuns | kernel/sc8830/kernel/cpuset.c:2017-2036 | the same over whole runs |
| CpusetTree.Nearest | kernel/sc8830/kernel/cpuset.c:2017-2036 | the walk ends at the first cpuset on the way up, the one it starts at included, that has both CPUs and memory, or at the root |
| CpusetEffects.NearestExactly | kernel/sc8830/kernel/cpuset.c:2025-2028 | there is exactly one such cpuset for each |
| CpusetEffects.RulesExactly | kernel/sc8830/kernel/cpuset.c:441-497 | the rules that writes are held to, element by element: CPUs, nodes and exclusive flags of a cpuset are its parent's, and what a sibling holds exclusively is in no other |
| CpusetEffects.ExclusiveApart | kernel/sc8830/kernel/cpuset.c:472-482 | what a cpuset holds exclusively is nowhere else in the whole hierarchy but above and below it |
| CpusetEffects.ValidateReason | kernel/sc8830/kernel/cpuset.c:441-497 | which error validate_change gives for which broken rule, and which come first |
| CpusetEffects.WriteCpusExactly | kernel/sc8830/kernel/cpuset.c:864-920 | a list of active CPUs is stored exactly if the rules hold with it in place and no occupied cpuset loses its last CPU; the error otherwise, and then nothing changes |
| CpusetEffects.WriteMemsExactly | kernel/sc8830/kernel/cpuset.c:1091-1152 | the same for nodes; the mask that is there is always accepted |
| CpusetEffects.WriteFlagExactly | kernel/sc8830/kernel/cpuset.c:1231-1276 | the same for flags: afterwards the flag is what was written and all others what they were |
| CpusetEffects.NewbornExactly | kernel/sc8830/kernel/cpuset.c:1857-1934 | flags and masks of a new cpuset, its parent's masks exactly if cloning is on and no child of the parent is exclusive |
| CpusetEffects.RemoveExactly | kernel/sc8830/kernel/cpuset.c:1936-1949 | a removed cpuset is offline, and still balanced exactly if it has a CPU that its parent has not; nothing else changes |
| CpusetEffects.AttachUndone | kernel/sc8830/kernel/cpuset.c:1377-1424 | an attach begins exactly where there are CPUs and memory, and calling it off restores everything |
| CpusetEffects.HotplugMasks | kernel/sc8830/kernel/cpuset.c:2046-2197 | after a hotplug the root has the active CPUs and nodes, a mask without an active CPU is emptied, any other CPU mask whole, every node mask cut to the nodes left |
| CpusetEffects.HotplugHomes | kernel/sc8830/kernel/cpuset.c:2017-2036 | after a hotplug that takes something away every task that can move is in the first cpuset on its way up that has both resources; otherwise all stay |
| CpusetEffects.FinishAttachHomes | kernel/sc8830/kernel/cpuset.c:1433-1492 | a task that arrives is where it was going, or in the first cpuset on the way up with both resources if that has been emptied; tasks elsewhere stay |
| CpusetEffects.EvacuationExample | kernel/sc8830/kernel/cpuset.c:2025-2028 | a task two levels below the root, whose cpuset is emptied, is then in the parent and not in the root |
| CpusetSystem.Hierarchy.constructor | kernel/sc8830/kernel/cpuset.c:1985-2008 | the booted hierarchy: the root alone, holding every CPU, node and task, with one domain |
| CpusetSystem.Hierarchy.Issue | kernel/sc8830/kernel/cpuset.c:441-497 | every operation on the objects is the matching step of the value, keeps all rules and leaves the domains it should: what is proved over runs of values holds of the objects |
| CpusetSystem.Hierarchy.ValidateChange | kernel/sc8830/kernel/cpuset.c:441-497 | returns the first broken rule, in the order of the tests |
| CpusetSystem.Hierarchy.Walk | kernel/sc8830/kernel/cpuset.c:630-650 | collects exactly the topmost balanced cpusets |
| CpusetSystem.Hierarchy.Collect | kernel/sc8830/kernel/cpuset.c:625-650 | the array holds the masks of the collected cpusets, and fewer of them than there are online cpusets: its room is never used up |
| CpusetSystem.Hierarchy.GenerateSchedDomains | kernel/sc8830/kernel/cpuset.c:591-735 | returns the right domains for the hierarchy it finds, changing only the scratch labels |
| CpusetSystem.Hierarchy.Rebuild | kernel/sc8830/kernel/cpuset.c:763-787 | afterwards the scheduler has the right domains |
| CpusetSystem.Hierarchy.UpdateCpumask | kernel/sc8830/kernel/cpuset.c:864-920 | result, hierarchy and domains are those of a cpus write |
| CpusetSystem.Hierarchy.UpdateNodemask | kernel/sc8830/kernel/cpuset.c:1091-1152 | result and hierarchy are those of a mems write |
| CpusetSystem.Hierarchy.SetFlag | kernel/sc8830/kernel/cpuset.c:1231-1276 | result, hierarchy and domains are those of a flag write |
| CpusetSystem.Hierarchy.NoExclusiveChild | kernel/sc8830/kernel/cpuset.c:1917-1923 | cloning is allowed exactly when no online child is exclusive |
| CpusetSystem.Hierarchy.CssOnline | kernel/sc8830/kernel/cpuset.c:1857-1934 | adds one new object as creation says; the domains stay as they were |
| CpusetSystem.Hierarchy.CssOffline | kernel/sc8830/kernel/cpuset.c:1936-1949 | hierarchy and domains are those of a removal |
| CpusetSystem.Hierarchy.RemoveTasks | kernel/sc8830/kernel/cpuset.c:2017-2036 | the walk ends, and exactly the tasks that can move are in the first cpuset on the way up with both resources |
| CpusetSystem.Hierarchy.Propagate | kernel/sc8830/kernel/cpuset.c:2046-2097 | one cpuset's masks and tasks after its propagation |
| CpusetSystem.Hierarchy.PropagateAll | kernel/sc8830/kernel/cpuset.c:2174-2183 | all propagations, parents first, leave the hierarchy of the one-step hotplug |
| CpusetSystem.Hierarchy.HotplugWork | kernel/sc8830/kernel/cpuset.c:2140-2197 | hierarchy and domains are those of a hotplug step |
| CpusetSystem.Hierarchy.UpdateActiveCpus | kernel/sc8830/kernel/cpuset.c:2199-2215 | the scheduler has one domain of the active CPUs; nothing else changes |
| CpusetSystem.Hierarchy.CpuEvents | kernel/sc8830/kernel/cpuset.c:2140-2215 | events in a row and one run of the worker: the hierarchy is that of the last event, the rules hold, and the domains are right exactly in the cases of TurnExactly |
| CpusetSystem.Hierarchy.CanAttach | kernel/sc8830/kernel/cpuset.c:1377-1416 | refuses an empty cpuset, else counts the attach |
| CpusetSystem.Hierarchy.CancelAttaching | kernel/sc8830/kernel/cpuset.c:1418-1424 | takes the count back |
| CpusetSystem.Hierarchy.Attach | kernel/sc8830/kernel/cpuset.c:1433-1492 | moves the task, and on if the cpuset was emptied meanwhile |
| CpusetSystem.Hierarchy.GuaranteeOnlineCpus | kernel/sc8830/kernel/cpuset.c:318-328 | a non-empty subset of the online CPUs: the online part of the first mask on the way up that has one, or all if none has |
| Fmeter.Fmeter.Tick | kernel/sc8830/kernel/cpuset.c:1346-1348 | the decay loop, with no intermediate value beyond a 32-bit int |
| Fmeter.Fmeter.Update | kernel/sc8830/kernel/cpuset.c:1338-1353 | value, count and time after an update for any clock; with a clock that does not go back the bounds hold |
| Fmeter.Fmeter.MarkEvent | kernel/sc8830/kernel/cpuset.c:1356-1362 | one event more, counted up to the cap |
| Fmeter.Fmeter.GetRate | kernel/sc8830/kernel/cpuset.c:1365-1374 | the rate read, at least halved by ten idle seconds |
| Fmeter.TenHalve | kernel/sc8830/kernel/cpuset.c:1296-1298 | ten ticks at least halve any value, rounding included |
| Fmeter.IdleHalves | kernel/sc8830/kernel/cpuset.c:1296-1298 | so do any ten or more |
| Fmeter.SplitSpan | kernel/sc8830/kernel/cpuset.c:1338-1353 | reading in the middle of an idle span of at most 99 seconds changes nothing |
| Fmeter.LongSpan | kernel/sc8830/kernel/cpuset.c:1302-1305 | for a longer span that holds exactly when the meter started at 8407 or less, that is 8.4 events a second |
| Fmeter.DiesOutExactly | kernel/sc8830/kernel/cpuset.c:1302-1305 | such values, and no others, have died out after 99 ticks |
| Fmeter.UnstableExample | kernel/sc8830/kernel/cpuset.c:1302-1305 | from the highest value the level is still falling after 99 ticks |
| PcmRing.FindBoundary | external/tinyalsa/pcm.c:1021-1024 | the loop ends with a power-of-two multiple of the buffer size; room for one more buffer in an int exactly when two buffers fit, a usable geometry exactly up to a third of INT_MAX |
| PcmRing.PlaybackAvailExactly | external/tinyalsa/pcm.c:1103-1115 | free space is exact precisely when the raw difference is not the boundary, and then the ring is full and a boundary is reported |
| PcmRing.CaptureAvailExact | external/tinyalsa/pcm.c:1117-1123 | recorded frames are always counted right |
| PcmRing.FullRingExample | external/tinyalsa/pcm.c:1103-1115 | with the boundary that pcm_open computes for two frames, a full ring that reports 0x4000_0000 free frames |
| PcmRing.PointerSlot | external/tinyalsa/pcm.c:1156-1157 | pointer and absolute position fall on the same slot of the buffer |
| PcmRing.PointerForward | external/tinyalsa/pcm.c:1134-1143 | moving the application pointer wraps right at the boundary |
| PcmRing.Pcm.Avail | external/tinyalsa/pcm.c:1125-1132 | the space or frames there really are, unless the full-ring case occurs |
| PcmRing.Pcm.Begin | external/tinyalsa/pcm.c:1145-1170 | the slot, and the least of the frames asked for, those reported free, the buffer and the way to its end |
| PcmRing.Pcm.AreasCopy | external/tinyalsa/pcm.c:406-424 | copies exactly the given frames, in the direction of the stream |
| PcmRing.Pcm.ApplForward | external/tinyalsa/pcm.c:1134-1143 | advances the application's position by the frames committed |
| PcmRing.Pcm.PutChunk | external/tinyalsa/pcm.c:426-448 | a playback chunk joins the stream and overwrites no queued frame |
| PcmRing.Pcm.TakeChunk | external/tinyalsa/pcm.c:426-448 | a capture chunk is the next piece of what was recorded |
| PcmRing.Pcm.TransferAreas | external/tinyalsa/pcm.c:426-448 | with enough room the loop ends after exactly `size` frames, in order, touching nothing else of the caller's buffer |
| PcmRing.Pcm.TransferSome | external/tinyalsa/pcm.c:1251-1337 | one pass of the outer loop moves exactly the frames asked for or, if there is less, the room found when it looked, and the room then was at least what it was before |
| PcmRing.Pcm.FirstRound | external/tinyalsa/pcm.c:426-448 | with any amount of room: a round keeps the stream, or, exactly in the full-ring case, overwrites the oldest queued frame |
| PcmRing.Pcm.Play | external/tinyalsa/pcm.c:336-343 | the device plays the next frame that was written: over any run it plays the stream in order |
| PcmRing.Pcm.Record | external/tinyalsa/pcm.c:336-343 | the device records into a free slot and overwrites no unread frame |
| Caps.RunKeeps | kernel/sc8830/security/commoncap.c:256-291 | over any run of capset, exec, setuid and prctl steps: effective within permitted, ambient within inheritable, nothing from outside the initial permitted, inheritable and bounding sets |
| Caps.CapsetAndExecCover | kernel/sc8830/security/commoncap.c:497-609 | after each successful capset or exec the ambient set is permitted and inheritable |
| Caps.CoveredExactly | kernel/sc8830/security/commoncap.c:722-740 | a step keeps that rule exactly when it does not clear the permitted set by giving up root, or the ambient set is empty |
| Caps.CoveredOverRuns | kernel/sc8830/security/commoncap.c:722-740 | over every run without such a step the rule holds |
| Caps.PlainExec | kernel/sc8830/security/commoncap.c:497-609 | a plain file run by an ordinary task keeps its ambient set and grants exactly that |
| Caps.PlainExecChain | kernel/sc8830/security/commoncap.c:497-609 | so does any chain of plain files |
| Caps.AmbientSurvivesGivingUpRoot | kernel/sc8830/security/commoncap.c:722-740 | giving up root empties the permitted set, and the next plain exec grants the ambient set again |
| Caps.GivingUpRootExample | kernel/sc8830/security/commoncap.c:722-740 | root with one ambient capability becomes user 1000, loses the rule, and gets the capability back |
| Caps.UnsafeExecGainsNothing | kernel/sc8830/security/commoncap.c:544-562 | a traced, shared or no-new-privileges exec never enlarges the permitted set; under the latter the effective ids are the old real ones |
| Caps.RaiseExactly | tools/_los17_kernel_ambient_caps.py:120-161 | raising succeeds exactly for a valid capability that is permitted and inheritable; the query then finds it and lowering undoes it |
| CapsOutcomes.ExecFails | kernel/sc8830/security/commoncap.c:349-386 | a file's capabilities are refused exactly if they cannot be read, or an effective file forces one that it cannot grant |
| CapsOutcomes.ExecIds | kernel/sc8830/security/commoncap.c:544-569 | every id after an exec: the file's, or the old real ones under supervision without CAP_SETUID or under no-new-privileges; the ambient set is kept exactly without file capabilities and without a change of effective id |
| CapsOutcomes.ExecExactly | kernel/sc8830/security/commoncap.c:497-609 | for each capability, from the old credentials and the file: permitted exactly if root or the file grants it, supervision cutting that to the old permitted set, or if it is ambient and that set is kept; effective exactly if so granted at once, or ambient |
| CapsOutcomes.SetuidRootExample | kernel/sc8830/security/commoncap.c:516-535 | a set-uid-root file run by a user with a bounding set alone grants that set, effective |
| CapsOutcomes.CapsetExactly | kernel/sc8830/security/commoncap.c:256-291 | when capset succeeds, capability by capability, and what it stores |
| CapsOutcomes.RootIdRules | kernel/sc8830/security/commoncap.c:722-740 | permitted and effective set after root ids come or go, for every call of the family |
| CapsOutcomes.SetuidIds | kernel/sc8830/kernel/sys.c:797-837 | when setuid succeeds and every id after it |
| CapsOutcomes.SetreuidIds | kernel/sc8830/kernel/sys.c:726-784 | the same for setreuid, with the cases in which the saved id follows |
| CapsOutcomes.SetreuidSwaps | kernel/sc8830/kernel/sys.c:710-725 | real and effective id can be swapped without privilege, and swapped back |
| CapsOutcomes.SetresuidIds | kernel/sc8830/kernel/sys.c:844-907 | the same for setresuid |
| CapsOutcomes.RootRegained | kernel/sc8830/security/commoncap.c:722-740 | a daemon that gives up its effective root id alone has no effective capability, and all permitted ones again once it takes the id back |
| CapsOutcomes.SetfsuidExactly | kernel/sc8830/security/commoncap.c:767-783 | setfsuid: when it succeeds, and which file-system capabilities go and come |
| CapsOutcomes.BsetExactly | kernel/sc8830/security/commoncap.c:856-868 | dropping from the bounding set: when it succeeds, and what each capability reads as afterwards |
| CapsOutcomes.SecurebitsExactly | kernel/sc8830/security/commoncap.c:922-942 | the securebits are stored exactly if no locked bit changes, no lock opens, all are known and the task has CAP_SETPCAP |
| CapsOutcomes.KeepCapsExactly | kernel/sc8830/security/commoncap.c:953-964 | KEEP_CAPS is set or cleared unless it is locked, and no other bit changes |
| CapsOutcomes.AmbientExactly | kernel/sc8830/kernel/sys.c:2353-2392 | which ambient calls are refused and why, and what clearing, lowering, raising and asking do |
| Caps.StepRespectsLocks | kernel/sc8830/security/commoncap.c:922-942 | no step opens a securebits lock or changes a locked root or fix-up bit |
| Caps.RunRespectsLocks | kernel/sc8830/security/commoncap.c:922-942 | nor does any run |
| CapsHooks.CapCapset | kernel/sc8830/security/commoncap.c:256-291 | checks and new sets of capset, the ambient set cut to both |
| CapsHooks.CapsFromVfsCaps | kernel/sc8830/security/commoncap.c:349-386 | the loop over the words grants the bounded forced and the inherited capabilities, and fails when an effective file is not granted all it forces |
| CapsHooks.GetFileCaps | kernel/sc8830/security/commoncap.c:450-487 | the permitted set and flags a file gives, empty on every error |
| CapsHooks.CapBprmSetCreds | kernel/sc8830/security/commoncap.c:497-609 | the credentials after exec |
| CapsHooks.CapEmulateSetxuid | kernel/sc8830/security/commoncap.c:722-740 | the capability changes when root ids come and go |
| CapsHooks.CapTaskFixSetuid | kernel/sc8830/security/commoncap.c:751-788 | which fix-up applies to which call |
| CapsHooks.CapTaskPrctl | kernel/sc8830/security/commoncap.c:879-980 | the bounding-set, securebits and keep-caps cases |
| CapsHooks.PrctlAmbient | kernel/sc8830/kernel/sys.c:2353-2392 | the ambient case with its error order |
| CapsHooks.SysSetuid | kernel/sc8830/kernel/sys.c:797-837 | ids and capabilities after setuid |
| CapsHooks.SysSetreuid | kernel/sc8830/kernel/sys.c:726-784 | after setreuid |
| CapsHooks.SysSetresuid | kernel/sc8830/kernel/sys.c:844-907 | after setresuid |
| CapsHooks.SysSetfsuid | kernel/sc8830/kernel/sys.c:1005-1039 | after setfsuid, which reports the old id either way |
| CapsHooks.Task.Issue | kernel/sc8830/security/commoncap.c:256-291 | one step of a task's credentials, prepared, changed by the hooks and installed, is the matching step of the machine |
| CapsHooks.Task.IssueAll | kernel/sc8830/security/commoncap.c:256-291 | over any sequence of operations on the objects: effective within permitted, ambient within inheritable, nothing from outside the initial sets, no lock opened |
| CredRefs.CredTable.PutCred | kernel/sc8830/kernel/cred.c:127-143 | drops one reference; the BUG_ONs cannot fire, and the last one releases |
| CredRefs.CredTable.PrepareCreds | kernel/sc8830/kernel/cred.c:236-278 | a copy with one reference, or nothing left behind |
| CredRefs.CredTable.CopyCreds | kernel/sc8830/kernel/cred.c:315-374 | a thread shares its parent's credential, other children get a copy, and a failure leaves no reference |
| CredRefs.CredTable.CommitCreds | kernel/sc8830/kernel/cred.c:415-482 | both slots move to the new credential, what overrides saved stays, and counts stay exact; where the first BUG_ON lets the task pass, the other two cannot fire |
| CredRefs.CredTable.AbortCreds | kernel/sc8830/kernel/cred.c:492-503 | the reference of a caller who never committed goes; the usage BUG_ON cannot fire, the subscriber one is the caller's duty |
| CredRefs.CredTable.OverrideCreds | kernel/sc8830/kernel/cred.c:513-532 | the subjective slot moves and the old credential stays referenced |
| CredRefs.CredTable.RevertCreds | kernel/sc8830/kernel/cred.c:542-556 | the latest override is undone and its reference dropped |
| CredRefs.CredTable.ExitCreds | kernel/sc8830/kernel/cred.c:149-168 | both slots are emptied and their references dropped |
| CredRefs.CredTable.GetTaskCred | kernel/sc8830/kernel/cred.c:180-193 | the objective credential is live, so the loop takes one reference at once |
| CredRefs.CredTable.PrepareKernelCred | kernel/sc8830/kernel/cred.c:587-634 | a copy of the daemon's or the initial credential, the borrowed reference given back |
| CredRefs.CredTable.Modify | kernel/sc8830/kernel/cred.c:236-278 | a credential with one reference, the caller's, is seen by no task |
| CredRefs.CredTable.Issue | kernel/sc8830/kernel/cred.c:415-556 | any operation keeps the counts exact, and keeps overrides nested exactly when it commits no other credential for an overridden task |
| CredRefs.CredTable.IssueAll | kernel/sc8830/kernel/cred.c:127-143 | over any interleaving all counts stay exact and a credential is released exactly when nothing names it |
| CredRefs.ReleasedExactly | kernel/sc8830/kernel/cred.c:127-143 | released precisely when no slot, no saved override and no caller names it |
| CredRefs.NestedExactly | kernel/sc8830/kernel/cred.c:424-424 | overrides are nested exactly when the task passes the BUG_ON of commit_creds once they are all reverted |
| CredRefs.CommitWhileOverridden | kernel/sc8830/kernel/cred.c:415-482 | after a commit under an override and the reverts, the task passes the BUG_ON exactly when there was no override or the credential was its own |
| CredRefs.OverriddenCommitExample | kernel/sc8830/kernel/cred.c:415-482 | a task that commits while overridden with its own credential, and then cannot |
| CredRefs.RevertOverride | kernel/sc8830/kernel/cred.c:513-556 | reverting undoes an override |
| Bytes.PlainField | tools/a1000_bootimg_tool.py:56-57 | a field of plain digits is read without a sign as the number they stand for |
| Bytes.FieldHex | tools/a1000_bootimg_tool.py:71-72 | a 32-bit number is printed in eight bytes that are read back as that number |
| Bytes.FieldBound | tools/a1000_bootimg_tool.py:56-57 | eight bytes, with or without sign, stand for less than 32 bits |
| Bytes.DigitsExactly | tools/a1000_bootimg_tool.py:56-57 | what int() takes as a hexadecimal number: digits of either case with single underscores between them, and nothing else |
| Bytes.UnderscoreSkipped | tools/a1000_bootimg_tool.py:56-57 | an underscore between digits does not change the number |
| Bytes.FieldForms | tools/a1000_bootimg_tool.py:56-57 | blanks around a field, a sign, and 0x or 0X change nothing but the sign of the number |
| Bytes.DigitTexts | tools/a1000_bootimg_tool.py:71-72 | digits are printed in capital letters and read in either case |
| Bytes.SlicesExactly | tools/a1000_bootimg_tool.py:55-60 | slices stop at the ends of the string, and negative bounds count from its end |
| Cpio.CpioParse | tools/a1000_bootimg_tool.py:49-64 | for any bytes, fields with signs, blanks, prefixes and underscores included: the entries and tail the loop ends with, a malformed size, or that it does not end |
| Cpio.CpioBuild | tools/a1000_bootimg_tool.py:67-79 | prints one padded record per entry and then the tail |
| Cpio.HeaderFields | tools/a1000_bootimg_tool.py:70-72 | a printed header is 110 bytes, keeps the magic and carries both sizes |
| Cpio.PrintedParses | tools/a1000_bootimg_tool.py:52-61 | a printed record reads back as its entry, wherever it stands aligned |
| Cpio.EntryLaidOut | tools/a1000_bootimg_tool.py:52-61 | any record laid out as newc has it, whatever fills it up, is read as its header, name and data, and the next entry starts behind it |
| Cpio.PrintedLaidOut | tools/a1000_bootimg_tool.py:67-79 | and that is how an entry is printed, filled with at most three zeros twice |
| Cpio.RoundTripExactly | tools/a1000_bootimg_tool.py:49-79 | reading what was printed gives the same entries and tail exactly when no trailer precedes the last entry and reading does not run on into the tail |
| Cpio.ParsedGood | tools/a1000_bootimg_tool.py:49-64 | everything the reader returns can be printed, if no size is negative or the archive is shorter than 2^32 bytes; with no negative size reading stopped at the tail |
| Cpio.PrintedAgain | tools/a1000_bootimg_tool.py:82-88 | printing what was read and reading again gives the same names, data and tail exactly when reading does not run on into the tail, as it never does without negative sizes |
| Cpio.AcceptedAgain | tools/a1000_bootimg_tool.py:82-88 | where the rebuilt bytes are the original ones, whatever its fields look like, the headers come back as well and all sizes fit |
| CpioReturns.NeverExactly | tools/a1000_bootimg_tool.py:49-64 | cpio_parse never returns exactly when its loop comes back to a place; whatever it returns it has within twice as many rounds as there are bytes |
| CpioReturns.StrideExactly | tools/a1000_bootimg_tool.py:58-61 | an entry moves the loop by an amount that its two sizes determine, at least 112 if neither is negative |
| CpioReturns.ReturnsMovingOn | tools/a1000_bootimg_tool.py:49-64 | cpio_parse returns wherever each entry reached moves it on, and on every archive without negative sizes |
| CpioReturns.NeverReturnsExample | tools/a1000_bootimg_tool.py:49-64 | a header with name size -0000070, on which the loop stays for ever |
| CpioReturns.NotAgainExample | tools/a1000_bootimg_tool.py:49-79 | a header with name size -0000100 that is read, but not again once printed |
| BootImg.Assemble | tools/a1000_bootimg_tool.py:91-105 | header, pieces and padding of an image, or the first error |
| BootImg.HeaderWords | tools/a1000_bootimg_tool.py:27-32 | any nine words behind the magic are read each under its name |
| BootImg.SplitLaidOut | tools/a1000_bootimg_tool.py:39-46 | an image laid out page by page, second stage included, is split into exactly its kernel, ramdisk and device tree |
| BootImg.AssembledExactly | tools/a1000_bootimg_tool.py:91-105 | with a whole header in the first page, assembling succeeds exactly if the padded pieces fit into the old image |
| BootImg.AssembledSplits | tools/a1000_bootimg_tool.py:39-46 | an assembled image is as long as the original and gives kernel and ramdisk back; the device tree exactly when as many bytes are found for it as it has, and there is no second stage or it is all zeros |
| BootImg.LostDtExample | tools/a1000_bootimg_tool.py:91-105 | an image with a second stage that loses its device tree |
| BootImg.SmallPageExample | tools/a1000_bootimg_tool.py:91-105 | an image with pages of 8 bytes, which assembled cannot be taken apart |
| BootImg.SecondStreamUnseen | tools/a1000_bootimg_tool.py:82-88 | a second gzip stream makes no difference to what ramdisk_open accepts or returns |
| BootImg.ZerosOnly | tools/a1000_bootimg_tool.py:45-46 | a zero-padded string read at a later place comes back only if it is all zeros, and as many bytes are there |
| BootImg.UpdateItems | tools/a1000_bootimg_tool.py:139-146 | every entry of the name gets the data, no other changes, and a hit is reported exactly when there is one |
| BootImg.Replace | tools/a1000_bootimg_tool.py:134-150 | the image that replacing a file yields, or the first error |
| BootImg.MissingExactly | tools/a1000_bootimg_tool.py:145-146 | a missing file is reported exactly where image and ramdisk open and no entry has the name |
| BootImg.UpdatedOpens | tools/a1000_bootimg_tool.py:137-154 | an accepted ramdisk opens again after the replacement, with only the named entry changed |
| BootImg.ReplaceChangesOneFile | tools/a1000_bootimg_tool.py:134-155 | in the new image kernel, length and all other files are as before, and the self-check finds the new data; so is a whole device tree if there is no second stage, and what is behind the first gzip stream exactly if it is empty |
| ColourPixels.TurnWordIs | external/libui_shim/libsprdshim_ioctl.c:139-141 | the masks and shifts of the tail turn the channels as the block does |
| ColourPixels.ThreeTurns | external/libui_shim/libsprdshim_ioctl.c:4-8 | three passes are the identity |
| ColourPixels.Process | external/libui_shim/libsprdshim_ioctl.c:104-145 | for any pixel count every pixel is turned once or none is, nothing behind is touched, and the hash returned is that of what is left |
| ColourPixels.ProcessBlocks | external/libui_shim/libsprdshim_ioctl.c:113-133 | the block loop |
| ColourPixels.ProcessTail | external/libui_shim/libsprdshim_ioctl.c:138-143 | the tail loop |
| ColourHash.OneChannelShows | external/libui_shim/libsprdshim_ioctl.c:113-143 | in a buffer of any size, changing one channel of one pixel changes the hash |
| ColourHash.RedrawnTurned | external/libui_shim/libsprdshim_ioctl.c:270-276 | so a buffer presented and then redrawn in that way is turned by its next present |
| ColourHash.WordIs | external/libui_shim/libsprdshim_ioctl.c:138-142 | the word of a pixel has its channels in little-endian order, and differs where they do |
| ColourHash.HashExample | external/libui_shim/libsprdshim_ioctl.c:106-144 | the hash of two blocks and one pixel more, computed out |
| ColourShim.FdTable.FdSlot | external/libui_shim/libsprdshim_ioctl.c:151-161 | the slot of a descriptor: its own with its hash, or the oldest one with hash 0 |
| ColourShim.FdTable.Present | external/libui_shim/libsprdshim_ioctl.c:270-276 | buffer and table after one present |
| ColourShim.PresentedExactly | external/libui_shim/libsprdshim_ioctl.c:396-404 | a buffer is turned exactly when its hash is not the stored one, and the stored one is then that of the buffer |
| ColourShim.SettledStays | external/libui_shim/libsprdshim_ioctl.c:24-26 | a buffer presented once is not turned again while its descriptor keeps its slot, whatever else is presented |
| ColourShim.TurnedOnce | external/libui_shim/libsprdshim_ioctl.c:24-26 | a new frame is turned exactly once by any number of presents while the slot is kept |
| ColourShim.TurnedOnceAmongFew | external/libui_shim/libsprdshim_ioctl.c:147-161 | it is kept among fewer than 24 other descriptors |
| ColourShim.LostSlotTurnsAgain | external/libui_shim/libsprdshim_ioctl.c:158-160 | without a slot an unchanged frame is turned, unless its hash is 0 |
| ColourShim.LeftAloneExactly | external/libui_shim/libsprdshim_ioctl.c:147-161 | a turned buffer is left alone by its next present exactly when the presents in between brought no more new descriptors than there were slots free or older, or turning it cannot be seen |
| ColourShim.TurnedTwice | external/libui_shim/libsprdshim_ioctl.c:147-161 | a frame, 24 other descriptors, and the same frame unchanged: it is turned twice |
| ColourShim.TurnedTwiceExample | external/libui_shim/libsprdshim_ioctl.c:147-161 | that run with a buffer of one red pixel |
| RoundRobin.TablePush | external/libui_shim/libsprdshim_ioctl.c:186-193 | overwriting the round-robin slot is a first-in-first-out push |
| RoundRobin.StaysExactly | external/libui_shim/libsprdshim_ioctl.c:186-193 | a key stays exactly until it has seen as many new keys as there were places free or in front of it |
| RoundRobin.NewestStays | external/libui_shim/libsprdshim_ioctl.c:186-193 | a key that has just come stays while fewer distinct others come than there are slots |
| RoundRobin.NewMisses | external/libui_shim/libsprdshim_ioctl.c:186-193 | distinct keys not in the table all count as new |
| PhysTable.Table16.Record | external/libui_shim/libsprdshim_ioctl.c:173-194 | the last 16 distinct addresses in order of arrival, with descriptor and length; the open duplicates are exactly the positive descriptors of the table, each closed once |
| PhysTable.OwnsNext | external/libui_shim/libsprdshim_ioctl.c:181-183 | replacing a slot's duplicate keeps that ownership |
| PhysTable.RecordAllQueue | external/libui_shim/libsprdshim_ioctl.c:173-194 | over any calls the table is the first-in-first-out queue of the addresses |
| PhysTable.FoundUntilSixteen | external/libui_shim/libsprdshim_ioctl.c:386-389 | an address is found with what was recorded until 16 distinct others have come |
| PhysTable.FoundExactly | external/libui_shim/libsprdshim_ioctl.c:386-389 | and exactly while fewer than 16 calls brought an address not in the table |
| ColourAddress.TurnedExactly | external/libui_shim/libsprdshim_ioctl.c:386-404 | a present by address turns the buffer exactly when the address has a duplicate whose stored hash is another |
| ColourAddress.TurnedOnceByAddress | external/libui_shim/libsprdshim_ioctl.c:386-404 | over any records and presents of other addresses, the next present leaves the buffer alone exactly when its address has left the table, its duplicate has kept its slot, or turning cannot be seen |
| ColourAddress.RecordedAgain | external/libui_shim/libsprdshim_ioctl.c:176-185 | recording the address again makes its next present turn the buffer unless dup failed, the new number stands for the same hash, or turning cannot be seen |
| ColourAddress.RecordedAgainExample | external/libui_shim/libsprdshim_ioctl.c:176-185 | a booted shim and one red pixel: turned once, left alone, and turned back after its address is recorded again |
| RilProtocol.NextInv | hardware/ril/libril/ril_service.cpp:761-838 | every step of every thread, error responses without the lock included, keeps writer, callbacks, counters and what threads remember in agreement |
| RilProtocol.OnlyTheWriterChanges | hardware/ril/libril/ril_service.cpp:776-799 | in every run callbacks and counters change only in the hands of the holder of the write lock |
| RilProtocol.SafeOverRuns | hardware/ril/libril/ril_service.cpp:8798-8817 | for any number of threads and any interleaving: one writer at most, callbacks in step with their history, the V1_1 pointers null together |
| RilProtocol.RegisteredExactly | hardware/ril/libril/ril_service.cpp:811-840 | what a client registers is stored as it is, the V1_1 pointers exactly if both are there; one generation more, and nothing else changes |
| RilProtocol.ChecksExactly | hardware/ril/libril/ril_service.cpp:780-795 | a failed call clears exactly when the generation is the one it saw fail, up to 32 bits, and never the other service |
| RilProtocol.LaterCallbacksStay | hardware/ril/libril/ril_service.cpp:764-795 | while no error response has failed: callbacks registered after the failed call stay, unless 2^32 generations came in between, and the dead ones go |
| RilProtocol.WrapExample | hardware/ril/libril/ril_service.cpp:780-795 | a run with 2^32 registrations in between, after which a later generation is cleared |
| RilProtocol.BareFailureClearsLaterExample | hardware/ril/libril/ril_service.cpp:506-509 | a failing error response clears callbacks registered while it was calling |
| RilProtocol.DisciplineExactly | hardware/ril/libril/ril_service.cpp:768-803 | a step keeps the lock's count of readers exact, with none beside a writer, exactly when it is not an error response that releases another's read lock or leaves one behind |
| RilProtocol.DisciplinedExactly | hardware/ril/libril/ril_service.cpp:762-803 | over a run that brings every thread back, the lock is used as it should be and never stops everybody exactly when no callback called for an error response fails |
| RilProtocol.BareFailureRun | hardware/ril/libril/ril_service.cpp:6370-6388 | an error response to a dead client enters checkReturnStatus while nobody holds the lock, and leaves a read lock behind with every thread idle |
| RilProtocol.LeakKeepsWritersOut | hardware/ril/libril/ril_service.cpp:801-803 | such a lock keeps every writer out, so no client can register, until another error response fails |
| RilProtocol.DeadlockExample | hardware/ril/libril/ril_service.cpp:816-818 | a client that wants to register then waits for ever, and no other thread is on its way |
| RilProtocol.ReadLockAround | hardware/ril/libril/ril_service.cpp:768-803 | otherwise checkReturnStatus is entered and left with the read lock, and does not hold it in between |
| RilProtocol.CallsExactly | hardware/ril/libril/ril_service.cpp:6377-6385 | a client is called only through a callback that is there |
| RilProtocol.NoDeadlock | hardware/ril/libril/ril_service.cpp:761-805 | with the lock used as it should be, while a thread is on its way some such thread can go on |
| RilDispatch.Ril.CopyHidlStringToRil | hardware/ril/libril/ril_service.cpp:520-542 | a copy, null for an empty string, or exactly one error response and nothing allocated |
| RilDispatch.Ril.DispatchStrings | hardware/ril/libril/ril_service.cpp:583-664 | for any failure: one vendor call with every string as meant, or one error response with its reason; everything allocated is freed once |
| RilDispatch.Ril.FreeSetDataProfileData | hardware/ril/libril/ril_service.cpp:2441-2467 | frees every string, field by field, and both arrays, each once |
| RilDispatch.Ril.SetDataProfile | hardware/ril/libril/ril_service.cpp:2469-2627 | for any failure and either layout: one vendor call in which each member of each profile is null or the text of the profile's field of that name, the roaming choice included, or one error response with its reason; the heap is as before |
| RilDispatch.OwnedMore | hardware/ril/libril/ril_service.cpp:2505-2532 | a fresh string in a null place keeps every block owned exactly once |
| RilDispatch.OwnedLess | hardware/ril/libril/ril_service.cpp:2448-2456 | freeing one place leaves the rest owned exactly once |
| RilDispatch.OwnedEnd | hardware/ril/libril/ril_service.cpp:2448-2466 | when only null is left the heap is as before but for the arrays |
| Crc32.TableStep | device/lenovo/a1000/tools/fb_dump.c:39-39 | eight bits at once: the low byte looked up, the rest moved down |
| Crc32.ShiftsXor | device/lenovo/a1000/tools/fb_dump.c:31-32 | any number of shifts is linear over xor |
| Crc32.Table.Entry | device/lenovo/a1000/tools/fb_dump.c:30-33 | a table entry is its index shifted eight times |
| Crc32.Table.Crc32Of | device/lenovo/a1000/tools/fb_dump.c:21-41 | for every byte sequence, with the table filled or not, the result is the bit-at-a-time CRC of section 8 of RFC 1952 |
| Crc32.CheckValue | device/lenovo/a1000/tools/fb_dump.c:21-41 | the checksum of "123456789" is CBF43926, the check value of this CRC |
| Crc32.WordAtOnce | device/lenovo/a1000/tools/fb_dump.c:38-39 | up to four bytes can be taken in as one word |
| Crc32.ShortChangesShow | device/lenovo/a1000/tools/fb_dump.c:8-11 | a change confined to four neighbouring bytes always changes the checksum |

## Left out

- cpuset: relax_domain_level, page migration and memory policies, parsing and printing of lists, allocation failures,
  the audit and cgroup plumbing, and creating a cpuset in the middle of a pending propagation.
- CpusetEvents.TurnExactly: an operation that runs between a CPU event and its worker is not modelled, nor are CPUs
  isolated at boot, which the scheduler core, not part of this model, leaves out of the default domain.
- CpusetEvents.DomainsOverRuns: the same.
- cpuset: the order in which the kernel walks the hierarchy; the model walks in creation order.
- CpusetSystem.Hierarchy.Propagate: tasks move by a change of the map from tasks to cpusets; the retry loop of the task
  transfer is not modelled, only its failure.
- CpusetRuns.RulesOverRuns: the subset rule for the CPUs of the root's children is not claimed over runs with hotplug, because it
  is false; CpusetRuns.AllNestedAfterHotplug says when it holds.
- pcm: parameter negotiation, xruns, waiting, and the scaling of frames to bytes and of areas to channels.
- PcmRing.Pcm.TransferAreas: called with less room than `size` it waits in the loop for the device, so that it ends only
  if the device goes on; the callers cut the size to the room first.
- PcmRing.Pcm.TransferSome: the full-ring case is in FirstRound, since after it the stream is broken.
- caps: user namespaces, LSM modules other than the capability one, auditing and its failure, ptrace checks, file
  capability revisions and their byte layout; CAP_LAST_CAP comes from a header that is not part of this model.
- CapsHooks.SysSetuid: `set_user` and process limits, which can make the call fail, are not modelled.
- cred: keyrings, RCU grace periods, user namespaces beyond their failure, `user->processes`, and overflow of the
  counters themselves.
- CredRefs.CredTable.AbortCreds: that no task uses the credential is required of the caller, as the source does in its
  debugging BUG_ON.
- BootImg.AssembledSplits: page sizes below the 44 bytes of the header, with which pieces can overwrite the header;
  BootImg.SmallPageExample is one on which the property fails.
- BootImg.ReplaceChangesOneFile: the same page sizes.
- boot image: gzip and file access; compression is any function that decompression undoes up to the end of its stream.
- Cpio.ParsedGood: archives of 2^32 bytes or more in which a size is negative.
- Cpio.PrintedAgain: the same archives.
- colour shim: mapping and cache flushing, the pinned scanout address, the hardware sweep, logging, and buffers whose
  pixel count changes between presents. Memory is an array of four-byte pixels.
- PhysTable.Table16.Record: addresses are 32 bits wide, as `unsigned long` is on this device; `dup` never returns 0,
  the case the source's own comment sets aside.
- RilProtocol: which threads hold the read lock when they call a client in answer to the modem is decided in a file that
  is not part of this model. Unlocking a lock one does not hold is undefined by POSIX; here it takes one reader off, if
  there is one, as a lock that only counts its readers does.
- RilDispatch.Ril.SetDataProfile: the source spells out the copies of a profile's fields one after the other, the model
  loops over them; the numeric fields handed to the vendor are not modelled.
- everything else in the repository: device trees, build files, one-shot patch scripts, ABI bridges to binaries that
  are not there, and the hundreds of one-line forwards of ril_service.cpp.
