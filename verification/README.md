# RustSBI: a verified model

A Dafny model of the parts of RustSBI where correctness is hardest to see by reading one function: two
protocols between harts, two code generators, the relay of SBI calls, an assembler and emulator, the PMP
slots and address registers, and device-tree walking. `dafny verify dfyconfig.toml` checks all of it.

| files | what they model |
|---|---|
| `BenchBarrier`, `BenchFences`, `BenchKernel`, `HartMasks` | the multi-hart barrier of the bench kernel: one boot hart, any number of secondaries, one transition for each access to an atomic, each HSM state change, each delivered IPI; the remote fences that each round issues. `BenchKernel` is the same machine as an object that changes in place |
| `WorkerHandshake`, `WorkerProgress`, `WorkerErrors`, `WorkerKernel` | the command/acknowledge handshake of the Linux-like workload over COMMAND, ONLINE, ACK and ERROR: safety, progress, errors and recovery, and the in-place object |
| `SbiSpec`, `VendorSbi`, `DeriveBinding`, `DeriveText`, `DeriveDispatch` | the code that `derive(VendorSBI)` and `derive(RustSBI)` generate, static and dynamic, and what it binds by the text of the struct |
| `RelayCodec`, `Relay` | the register decoders, `Forward`, and the `sbi-rt` stubs, on 32 and 64 bits |
| `Rv128iCodec`, `Rv128iHart`, `Rv128iSteps`, `Rv128iEmulator` | the RV128I instruction codec, the emulator, the direct interpreter, what each instruction does, and the assembler and hart as objects |
| `PmpSlots`, `PmpAllocator` | the lock-free bitmap under interleaved load and compare-exchange steps, and the allocator as an object |
| `PmpCodec`, `Bits` | NAPOT, NA4 and TOR address registers, bit by bit |
| `DeviceTree`, `DevicePaths`, `AlignedCopy` | the enabled-node traversal, the path printer, the path resolver, and the copy of a tree into aligned words |
| `Helpers` | `Option`, and the elements of a sequence |

Atomics are sequentially consistent. A suspended hart wakes only on a delivered IPI. An arithmetic overflow
or a failed assertion of the source is an explicit outcome (`None`, `Panic`, `aborted`), as in a build with
overflow checks. Results of SBI calls, the order of turns, what other callers write, and what unset
registers hold are arbitrary.

## Where the code is not what one might expect

Each is kept as it is in the code, with a lemma that gives the condition exactly.

- A wait of the boot hart in the Linux-like workload ends under every fair schedule (`WorkerProgress.WaitsEnd`)
  but for two cases, and only these can last for good (`WorkerProgress.CanHangIffDoomed`): a recovery whose IPI
  can miss, or has missed, the worker's sleep, and a measured sample whose SEND_IPI failed while ERROR was
  clear. `WorkerProgress.DoomedHasCause` gives the cause of each, `WorkerProgress.SendDoomsIff` the sends that
  begin such a wait. The first needs ERROR set when `suspend_supported` stores its command: it takes the old
  error for a failed suspend and sends its IPI too early (`WorkerProgress.OldErrorDooms`), and a `HART_STOP`
  that fails once and then succeeds leads there from power-on (`WorkerProgress.OldErrorHappens`). The second:
  `WorkerProgress.FailedSendLeavesAsleep`, `WorkerProgress.LeftAsleepForever`, `WorkerProgress.FailedSendHappens`.
- `free(idx)` clears slot `idx & 15`. `free` undoes `alloc` for every bitmap exactly when the mask lies
  below bit 16 (`PmpSlots.UndoesIffMaskLow`), and no slot is held twice exactly when no index from 16 up stands
  for another of the mask (`PmpSlots.ExclusiveIffApart`).
- Decoding and encoding a PMP register gives it back exactly below `2^62`, but for `2^61 - 1`, whose
  length reads as the whole address space; the all-ones register also comes back
  (`PmpCodec.ReencodeIffInRange`).
- The register that a checked TOR area writes is the start of the area, so the range that it matches ends
  there and contains no byte of the area, whatever the register before it (`PmpCodec.TorEntryEndsAtArea`).
- `addi` documents a signed immediate; the emulator extends it with zeros, and `li` relies on that. The two
  agree exactly when the immediate is not negative and the sum does not overflow (`Rv128iHart.AddiSignedIff`).
- Register `Zero` is an ordinary register of the emulator. It stays zero exactly when no instruction in memory
  adds to it from another register or with a nonzero immediate, or loads a nonzero immediate into it
  (`Rv128iHart.ZeroStaysIff`).
- `Offset::from(i32)` does not extend the sign: the branch decodes to the offset exactly when it is even and
  in range (`Rv128iCodec.BeqFromI32`).
- In static mode a bound field always probes 1 and a standard extension without a field falls to the
  vendor field; in dynamic mode neither is so (`DeriveDispatch.ModesAgreeIff`).
- A reference to `None` probes as available (`DeriveDispatch.RefToNoneIsAvailable`). A probe tells whether an
  implementation answers exactly for the types in which `Option` is outermost or absent
  (`DeriveDispatch.ProbeHonestIff`).
- In dynamic mode a second `env_info` takes effect; named in an attribute it is also reported as an unknown
  attribute, as the field's own name it goes unnoticed (`DeriveBinding.SecondEnvInfo`). The two modes bind a
  field of its own name alike exactly when that is no second binding (`DeriveBinding.OwnNameAlikeIff`).
- `has_bit` and the mock's decoding of a mask agree exactly when the base is not `usize::MAX` or the mask is
  zero (`HartMasks.DecodeIsHasBit`).
- A dispatcher over a `None` timer still succeeds in setting it (`Relay.AbsentStillAnswers`); `set_timer` and
  `num_counters` of `Forward` drop the error of the environment underneath (`Relay.RelayKeepsAnswer`).

## Model

| member | source | states |
|---|---|---|
| BenchBarrier.CountersCountHarts | firmware/bench-kernel/src/main.rs:133-184 | in every interleaving READY_HART_COUNT is the number of secondaries past their fetch_add of the round and WAIT_COUNT is smp-1 minus the number past their fetch_sub; neither exceeds smp-1, overflows or underflows |
| BenchBarrier.LapsDoNotOverlap | firmware/bench-kernel/src/main.rs:134-173 | no secondary starts a round before every other has left both spin loops of the round before and is suspended |
| BenchBarrier.FencesFindHartsAwake | firmware/bench-kernel/src/main.rs:144-162 | while any hart issues remote fences, every secondary is started and not about to suspend |
| BenchBarrier.NeverResent | firmware/bench-kernel/src/main.rs:168-170 | the resend branch is unreachable in every run |
| BenchBarrier.NeverDeadlocks | firmware/bench-kernel/src/main.rs:247-304 | in every reachable state with rounds left, some hart has a step that is not a spin |
| BenchBarrier.NextShrinks | firmware/bench-kernel/src/main.rs:265-304 | every step that is not a spin lowers a measure over rounds and positions |
| BenchBarrier.MovesBounded | firmware/bench-kernel/src/main.rs:247-304 | no schedule makes more non-spinning steps than the measure of the state it starts in |
| BenchBarrier.Completes | firmware/bench-kernel/src/main.rs:247-304 | every reachable state can be run to the end, and then each secondary has run every round |
| BenchBarrier.FairSchedulesComplete | firmware/bench-kernel/src/main.rs:247-304 | every schedule that gives each hart and each delivery its turn often enough, in any order, runs to the end, and then each secondary has run every round |
| BenchBarrier.NextKeeps | firmware/bench-kernel/src/main.rs:133-184 | every transition keeps the invariant that ties the counters, flags, pending IPIs and positions of all harts together |
| BenchBarrier.CountersDoNotWrap | firmware/bench-kernel/src/main.rs:140-165 | a hart about to fetch_add finds room below smp-1 and one about to fetch_sub finds a positive count |
| BenchFences.FencesReachAll | firmware/bench-kernel/src/main.rs:144-162 | in every run a secondary past its fences has fenced every secondary once for each of its laps, in ascending order and nobody else, before them once for each earlier lap, and in between it is on the way |
| BenchFences.LapFencesEachOnce | firmware/bench-kernel/src/main.rs:141-164 | in every run, between the first spin loop and the fetch_sub of a lap a secondary fences exactly the secondaries, each once |
| BenchFences.AllFenced | firmware/bench-kernel/src/main.rs:247-304 | when the run is over, every secondary has fenced every secondary in each round |
| BenchFences.StartedWithClearFlag | firmware/bench-kernel/src/main.rs:247-264 | in every run the flag IPI_SENT of a hart is written false before that hart is started |
| BenchKernel.Kernel.BootTurn | firmware/bench-kernel/src/main.rs:247-304 | one turn of the boot hart on the statics in place is the transition of the machine |
| BenchKernel.Kernel.HartTurn | firmware/bench-kernel/src/main.rs:133-184 | one turn of a secondary on the statics in place is the transition of the machine |
| BenchKernel.Kernel.Raise | firmware/bench-kernel/src/main.rs:279-297 | the delivery of one IPI of the mask being sent is the transition of the machine |
| BenchKernel.Kernel.Interleave | firmware/bench-kernel/src/main.rs:133-304 | any schedule of turns on the statics is a run of the machine and keeps its invariant |
| HartMasks.BatchesCoverSecondaries | firmware/bench-kernel/src/main.rs:279-297 | for every smp, boot hart and width the masks sent decode to the harts 0..smp without the boot hart, each covered once, in ascending order |
| HartMasks.SecondariesAreAllOnce | firmware/bench-kernel/src/main.rs:144-162 | the list that the masks decode to holds exactly the secondaries, strictly ascending |
| HartMasks.BuildBatches | firmware/bench-kernel/src/main.rs:279-297 | the loop that inserts harts into a mask and sends it when the next hart is outside its window sends the specified batches, and its unreachable branch is |
| HartMasks.InsertAdds | library/sbi-spec/src/binary/hart_mask.rs:54-81 | an accepted insert adds that hart to the mask and no other, and a refused one leaves the mask alone |
| HartMasks.InsertIntoAll | library/sbi-spec/src/binary/hart_mask.rs:65-72 | the mask of all harts accepts every insertion and stays as it is |
| HartMasks.SendIpi | library/sbi-spec/examples/sbi-hart-mask.rs:57-80 | the mock loop over bit offsets wakes exactly the harts that the mask and base name, in ascending order, and panics exactly when the number of a named hart overflows |
| HartMasks.DecodeIsHasBit | library/sbi-spec/src/binary/mask_commons.rs:3-36 | the harts woken are the existing harts of which has_bit is true, if and only if the base is not usize::MAX or the mask is zero |
| WorkerHandshake.OneIpiOutstanding | firmware/bench-kernel/src/linux.rs:343-419 | in every run at most one IPI is outstanding among all workers, in one place, and the boot hart is waiting for that worker |
| WorkerHandshake.AckGrowsByOne | firmware/bench-kernel/src/linux.rs:412-419 | when the wait of send_and_ack ends, ACK has grown by exactly one since it was loaded and that worker alone counted one acknowledgement |
| WorkerHandshake.NoCommandLost | firmware/bench-kernel/src/linux.rs:338-387 | a READY store overwrites only the command that its worker has obeyed, and the worker's two loads of COMMAND agree |
| WorkerHandshake.CommandsFindIdleWorkers | firmware/bench-kernel/src/linux.rs:389-464 | whenever the boot hart stores a command, every running worker is polling with READY and owes nothing, and all others are stopped |
| WorkerHandshake.CommandsAfterInterrupts | firmware/bench-kernel/src/linux.rs:343-360 | in every run a worker goes on to load COMMAND only with its pending bit clear |
| WorkerHandshake.ResumesByKind | firmware/bench-kernel/src/linux.rs:338-387 | in every run a worker that resumes stores READY, and then reports itself online after a non-retentive suspend and polls on after a retentive one |
| WorkerHandshake.NextKeeps | firmware/bench-kernel/src/linux.rs:338-464 | every transition keeps the invariant that gives each worker its part in the operation under way |
| WorkerHandshake.NextKeepsHistory | firmware/bench-kernel/src/linux.rs:412-464 | every transition keeps the count of acknowledgements in step with the IPI sent |
| WorkerProgress.WaitsEnd | firmware/bench-kernel/src/linux.rs:300-315 | from any reachable wait that is not one of the two doomed kinds, the boot hart leaves the wait in every schedule that gives the awaited hart twenty-six of its turns and then the boot hart two, whatever SBI calls return |
| WorkerProgress.CanHangIffDoomed | firmware/bench-kernel/src/linux.rs:300-315 | a reachable wait can come to last for good if and only if it is a recovery whose IPI can miss, or has missed, the worker's sleep, or the wait for READY of a worker left asleep with ERROR clear |
| WorkerProgress.DoomedHasCause | firmware/bench-kernel/src/linux.rs:412-464 | before every such wait ERROR was already set when the suspend command was stored, or the last SEND_IPI failed |
| WorkerProgress.SendDoomsIff | firmware/bench-kernel/src/linux.rs:412-449 | a send begins such a wait if and only if it is a measured send that fails while ERROR is clear, or the recovery send to a worker that has yet to suspend |
| WorkerProgress.OverStays | firmware/bench-kernel/src/linux.rs:300-315 | once what the boot hart waits for holds, or ERROR is set, no step of any other hart undoes it |
| WorkerProgress.TurnLeaves | firmware/bench-kernel/src/linux.rs:300-315 | each turn of the boot hart in a wait that is over leaves it or comes closer to leaving |
| WorkerProgress.OverIsLeft | firmware/bench-kernel/src/linux.rs:300-315 | two turns of the boot hart leave a wait that is over, whatever runs in between |
| WorkerProgress.SomeoneHelps | firmware/bench-kernel/src/linux.rs:343-387 | while a wait is not over, the delivery of the IPI or a turn of the awaited worker brings it closer: no wake-up is lost |
| WorkerProgress.NobodyHinders | firmware/bench-kernel/src/linux.rs:343-419 | while a wait is not over, no step of any hart takes the awaited worker further away or leaves the wait |
| WorkerProgress.OldErrorDooms | firmware/bench-kernel/src/linux.rs:423-464 | with ERROR set when suspend_supported stores its command, five turns of the boot hart send the recovery IPI while the worker still polls, and the wait can last for good |
| WorkerProgress.FailedSendLeavesAsleep | firmware/bench-kernel/src/linux.rs:412-419 | a measured send that fails with ERROR clear leaves the worker asleep and the boot hart waiting for its READY |
| WorkerProgress.LeftAsleepForever | firmware/bench-kernel/src/linux.rs:300-315 | from there every schedule leaves the worker asleep, ERROR clear and the boot hart in that wait |
| WorkerProgress.StuckForever | firmware/bench-kernel/src/linux.rs:449-456 | a worker that sleeps with no IPI on its way sleeps on, and no schedule takes the boot hart out of the wait for it |
| WorkerProgress.OldErrorHappens | firmware/bench-kernel/src/linux.rs:360-363 | two harts suffice: a HART_STOP that fails once and then succeeds leads from power-on to such a recovery |
| WorkerProgress.FailedSendHappens | firmware/bench-kernel/src/linux.rs:615-625 | two harts suffice: one failed SEND_IPI in a measured sample leads there from power-on, with ERROR clear throughout |
| WorkerErrors.RecoveryEndsClear | firmware/bench-kernel/src/linux.rs:447-463 | in every run a recovery that is not aborted is left to the next operation, with ERROR clear, COMMAND at READY and the worker listening and owing nothing |
| WorkerErrors.RecoveryBegins | firmware/bench-kernel/src/linux.rs:437-441 | in every run a recovery begins only where the check of suspend_supported finds ERROR set |
| WorkerErrors.AbortsExactly | firmware/bench-kernel/src/linux.rs:300-463 | in every run the boot hart aborts exactly when a call whose result it checks fails, or when a wait other than that of suspend_supported finds ERROR set |
| WorkerErrors.WaitsTestFirst | firmware/bench-kernel/src/linux.rs:300-315 | in every run a wait begins with its condition, so one that holds at once is left at once whatever ERROR is, and condition and ERROR are read in turn |
| WorkerErrors.OperationAdvances | firmware/bench-kernel/src/linux.rs:389-464 | in every run each turn of the boot hart within an operation aborts, stays in its wait, or comes closer to the end of the operation |
| WorkerErrors.HealthyRunsSucceed | firmware/bench-kernel/src/linux.rs:300-315 | from every point between two operations with ERROR clear, as long as no worker's SBI call fails, ERROR stays clear, no recovery begins and no wait aborts |
| WorkerErrors.RecoveredRunsSucceed | firmware/bench-kernel/src/linux.rs:458-463 | the same from the end of every recovery |
| WorkerKernel.Kernel.WorkerTurn | firmware/bench-kernel/src/linux.rs:343-387 | one turn of a worker on the atomics in place is the transition of the machine |
| WorkerKernel.Kernel.BootTurn | firmware/bench-kernel/src/linux.rs:389-464 | one turn of the boot hart on the atomics in place is the transition of the machine |
| WorkerKernel.Kernel.WaitTurn | firmware/bench-kernel/src/linux.rs:300-315 | one pass of wait tests its condition first and ERROR after it |
| WorkerKernel.Kernel.StoreTurn | firmware/bench-kernel/src/linux.rs:389-464 | the boot hart's stores to COMMAND, ONLINE and ERROR and its loads of ACK, one at a time |
| WorkerKernel.Kernel.StartTurn | firmware/bench-kernel/src/linux.rs:392-403 | HART_START of a stopped worker, and the failed check otherwise |
| WorkerKernel.Kernel.SendTurn | firmware/bench-kernel/src/linux.rs:412-419 | a send that fails returns at once, and aborts where its result is checked |
| WorkerKernel.Kernel.Raise | firmware/bench-kernel/src/linux.rs:350-358 | an IPI that arrives becomes pending, and wakes its hart only if that is suspended |
| WorkerKernel.Kernel.Interleave | firmware/bench-kernel/src/linux.rs:338-464 | any schedule of turns on the atomics is a run of the machine and keeps its invariant |
| PmpSlots.ExclusiveIffApart | library/pmpm/src/bitmap.rs:37-83 | no interleaving of any number of callers ends with a slot held twice, if and only if no index of the mask from 16 up stands for another of the mask |
| PmpSlots.BitmapIsHeld | library/pmpm/src/bitmap.rs:37-83 | in every such run the bitmap is exactly the set of held slots, inside alloc_mask |
| PmpSlots.SuccessTakesLowest | library/pmpm/src/bitmap.rs:46-58 | each success of alloc takes the lowest slot of the mask that is free at its compare-exchange, and changes no other bit |
| PmpSlots.FailureMeansAnotherWon | library/pmpm/src/bitmap.rs:50-58 | a compare-exchange that fails does so because another caller succeeded since the load |
| PmpSlots.UndoesIffMaskLow | library/pmpm/src/bitmap.rs:62-83 | free undoes alloc from every bitmap within the mask, if and only if the mask lies below bit 16 |
| PmpSlots.FreeUndoesIffLow | library/pmpm/src/bitmap.rs:62-83 | from a given bitmap, free undoes alloc if and only if the slot taken is below 16 |
| PmpSlots.Collide | library/pmpm/src/bitmap.rs:62-83 | for any two indices of the mask that the index mask confuses, a schedule that ends with one slot held twice |
| PmpSlots.AllocTakesLowest | library/pmpm/src/bitmap.rs:39-48 | one pass of alloc refuses exactly when no slot of the mask is free, and otherwise marks the lowest free one |
| PmpSlots.FreeClearsSlot | library/pmpm/src/bitmap.rs:63-70 | one pass of free refuses exactly when slot idx & 15 is not an allocated slot of the mask, and otherwise clears it alone |
| PmpSlots.NextKeeps | library/pmpm/src/bitmap.rs:37-83 | every load and compare-exchange keeps the bitmap equal to the disjoint union of what callers hold |
| PmpAllocator.PMPSlotAllocator.Alloc | library/pmpm/src/bitmap.rs:37-60 | the retry loop: every attempt but the last found the bitmap changed, the last refused rightly or took the lowest free slot |
| PmpAllocator.PMPSlotAllocator.Free | library/pmpm/src/bitmap.rs:62-83 | the retry loop of free: the last attempt refused rightly or cleared exactly the slot |
| PmpAllocator.PMPSlotAllocator.IsAlloc | library/pmpm/src/bitmap.rs:85-92 | an error outside the mask, otherwise whether the slot is allocated |
| PmpAllocator.PMPSlotAllocator.IsManaged | library/pmpm/src/bitmap.rs:94-96 | the bit of the manage mask; an index of the width or more is a panic |
| PmpCodec.NapotEntryCoversArea | library/pmpm/src/lib.rs:81-109 | for every area that the check accepts, the register written matches exactly the bytes addr to addr+len-1 under the NAPOT rule of section 3.7.1 of the RISC-V Privileged Architecture |
| PmpCodec.NapotEntryDecodes | library/pmpm/src/lib.rs:113-130 | decoding that register gives back the start and the length |
| PmpCodec.ReencodeIffInRange | library/pmpm/src/lib.rs:92-130 | encoding a decoded register gives it back exactly below 2^(w-2) but for 2^(w-3)-1, and for the all-ones register |
| PmpCodec.FullEntry | library/pmpm/src/lib.rs:92-182 | a length of usize::MAX writes the all-ones register, which decodes to the whole address space |
| PmpCodec.AllOnesMatches | library/pmpm/src/lib.rs:96-99 | the all-ones register matches every address |
| PmpCodec.Na4EntryCoversArea | library/pmpm/src/lib.rs:81-130 | a checked NA4 area is the four bytes that its register names, and decodes to itself |
| PmpCodec.NapotPanicsIff | library/pmpm/src/lib.rs:92-107 | a NAPOT encoding overflows exactly below a length of 2^2 and from 2^(w+2) up, and 2^2 itself gives the register of an NA4 entry |
| PmpCodec.AcceptedAreas | library/pmpm/src/lib.rs:81-88 | exactly which areas the check accepts, by remainders and powers of two |
| PmpCodec.TorEntryEndsAtArea | library/pmpm/src/lib.rs:92-130 | the register of a checked TOR area decodes to its start, and under the TOR rule of section 3.7.1 it matches from the register before up to that start and no byte of the area |
| AlignedCopy.LeakAligned | firmware/runtime/src/device_tree.rs:334-346 | on either endianness the allocated words hold the bytes in their order, then zeros to the end of the last word, and no word more than needed |
| DeviceTree.VisitedIffReachable | firmware/prototyper/src/devicetree.rs:94-131 | a node is visited if and only if it and all its ancestors are enabled |
| DeviceTree.EnabledIff | firmware/runtime/src/device_tree.rs:391-400 | a node is enabled exactly when it has no status, or its status is ok or okay with at most one NUL |
| DeviceTree.PreorderOnce | firmware/prototyper/src/devicetree.rs:94-131 | nodes are visited in preorder, each at most once |
| DeviceTree.VisitArguments | firmware/prototyper/src/devicetree.rs:113-125 | the visitor is given the names from the root to the node and the node's parent |
| DeviceTree.StopsAtFirstError | firmware/prototyper/src/devicetree.rs:114-125 | the calls made are a prefix of all calls, ending at the first that fails |
| DeviceTree.Walk.VisitNode | firmware/prototyper/src/devicetree.rs:101-128 | the recursion over the shared path vector makes exactly the calls of the specification, and restores the path unless a call failed |
| DeviceTree.Walk.TryForEachEnabledNode | firmware/prototyper/src/devicetree.rs:94-131 | the traversal of a whole tree makes those calls in that order |
| DevicePaths.PathRoundTrip | firmware/runtime/src/device_tree.rs:88-120 | for every visited node with proper names on its path, printing that path and resolving it leads back to the node if and only if no earlier sibling answers to a name on the path |
| DevicePaths.FoundIsVisited | firmware/runtime/src/device_tree.rs:88-120 | whatever a path or an alias resolves to is a node that the enabled traversal visits |
| DevicePaths.AliasFindsTarget | firmware/runtime/src/device_tree.rs:89-97 | an alias for an absolute path finds what that path finds |
| DevicePaths.MatchesIff | firmware/runtime/src/device_tree.rs:108-113 | a child answers to its name, and to what comes before the first @ of its name, and to nothing else |
| DevicePaths.AliasIff | firmware/runtime/src/device_tree.rs:92-97 | an alias stands for a target exactly when the first aliases node is enabled and has a property of that name which is the target followed by NULs |
| DevicePaths.DescendByNames | firmware/runtime/src/device_tree.rs:107-118 | following the names of a reachable node downwards ends at that node if and only if no earlier sibling answers at any level |
| DevicePaths.FindEnabledNode | firmware/runtime/src/device_tree.rs:88-120 | the loop over the path segments finds the specified node, and every node on the way is enabled |
| DevicePaths.PrintPath | firmware/prototyper/src/devicetree.rs:66-80 | the loop that builds the absolute path skips the root's name and separates the others by slashes |
| DevicePaths.Slot.Select | firmware/prototyper/src/devicetree.rs:50-63 | only the first selection is kept, with its absolute path |
| Rv128iCodec.DecodeEncoded | library/sbi-spec/examples/simple-rv128i-emulator.rs:195-290 | decoding any encoded addi, lui, beq with an even offset from -4096 to 4094, or ecall, gives it back |
| Rv128iCodec.EncodeDecoded | library/sbi-spec/examples/simple-rv128i-emulator.rs:389-424 | encoding what any accepted word decodes to gives the word back |
| Rv128iCodec.BeqFromI32 | library/sbi-spec/examples/simple-rv128i-emulator.rs:533-548 | a branch assembled from an i32 offset decodes to that offset if and only if it is even and in range |
| Rv128iCodec.EncodeInjective | library/sbi-spec/examples/simple-rv128i-emulator.rs:195-290 | different instructions have different words |
| Rv128iCodec.WordLayout | library/sbi-spec/examples/simple-rv128i-emulator.rs:389-424 | opcode, function, registers and immediate of every accepted word lie where the I, U and B formats of section 2.3 of the RISC-V Unprivileged Architecture put them |
| Rv128iHart.EmulationIsInterpretation | library/sbi-spec/examples/simple-rv128i-emulator.rs:328-360 | for any program in memory and any number of steps, emulating its words and interpreting its instructions directly give the same machine and the same end |
| Rv128iHart.StepIsDirect | library/sbi-spec/examples/simple-rv128i-emulator.rs:328-360 | one fetch, decode and execute on words is one step of the direct interpreter, faults and illegal words included |
| Rv128iHart.ZeroStaysIff | library/sbi-spec/examples/simple-rv128i-emulator.rs:340-348 | register zero stays zero in every run from a machine in which it is zero, if and only if no instruction in memory adds to it anything but zero from itself, or loads anything but zero into it |
| Rv128iHart.AddiSignedIff | library/sbi-spec/examples/simple-rv128i-emulator.rs:188-204 | the emulator's addi is the documented signed one if and only if the immediate is not negative and the sum does not overflow |
| Rv128iHart.LiLoads | library/sbi-spec/examples/simple-rv128i-emulator.rs:227-240 | running what li emits for any 32-bit immediate loads it, changes no other register, and stops just past it |
| Rv128iHart.BranchMovesByOffset | library/sbi-spec/examples/simple-rv128i-emulator.rs:349-355 | the offset that is added is the signed one: forward by it, or backward by what it is below zero |
| Rv128iSteps.BranchStep | library/sbi-spec/examples/simple-rv128i-emulator.rs:349-355 | a beq moves the program counter by its signed offset exactly when its two registers hold the same value, otherwise by four, and changes no register |
| Rv128iSteps.AddStep | library/sbi-spec/examples/simple-rv128i-emulator.rs:341-344 | an addi writes the sum with its unsigned immediate and moves on by four, or panics exactly when the sum wraps |
| Rv128iSteps.UpperStep | library/sbi-spec/examples/simple-rv128i-emulator.rs:345-348 | a lui writes its immediate above twelve zeros and moves on by four |
| Rv128iSteps.EcallStep | library/sbi-spec/examples/simple-rv128i-emulator.rs:57-164 | one pass of the main loop over an ecall: the answer for the EID and FID in registers 17 and 16 goes to registers 10 and 11, no other register changes and the counter moves by four; a shutdown ends the run with its reason and changes nothing |
| Rv128iSteps.FaultStep | library/sbi-spec/examples/simple-rv128i-emulator.rs:298-338 | at exactly which program counters a step is an access fault, an illegal instruction, an ecall or an underflow |
| Rv128iSteps.FaultEndsRun | library/sbi-spec/examples/simple-rv128i-emulator.rs:57-72 | a run whose program counter is unaligned, outside the memory, or at a word that is no instruction ends there with that exception and the machine unchanged |
| Rv128iEmulator.InstMemory.Li | library/sbi-spec/examples/simple-rv128i-emulator.rs:227-240 | the program after li is the old one updated at the one or two places that li emits, up to the last word, and at no other |
| Rv128iEmulator.InstMemory.AddI | library/sbi-spec/examples/simple-rv128i-emulator.rs:195-204 | addi lays down that instruction, in place, and keeps the rest of the program |
| Rv128iEmulator.InstMemory.LuI | library/sbi-spec/examples/simple-rv128i-emulator.rs:212-216 | lui lays down that instruction and keeps the rest |
| Rv128iEmulator.InstMemory.BrEq | library/sbi-spec/examples/simple-rv128i-emulator.rs:249-267 | beq lays down the branch that its offset stands for and keeps the rest |
| Rv128iEmulator.InstMemory.BrEqZ | library/sbi-spec/examples/simple-rv128i-emulator.rs:277-279 | beqz lays down the branch that compares with Zero |
| Rv128iEmulator.InstMemory.ECall | library/sbi-spec/examples/simple-rv128i-emulator.rs:287-290 | ecall lays down that instruction and keeps the rest |
| Rv128iEmulator.InstMemory.Get | library/sbi-spec/examples/simple-rv128i-emulator.rs:298-303 | the word at an address; a fault when unaligned or past the end, an underflow below the base |
| Rv128iEmulator.SimpleRv128IHart.StepI | library/sbi-spec/examples/simple-rv128i-emulator.rs:328-360 | one step on the registers in place is one step of the direct interpreter on the program laid down |
| Rv128iEmulator.SimpleRv128IHart.ServeEcall | library/sbi-spec/examples/simple-rv128i-emulator.rs:140-164 | an ecall writes the result to A0 and A1 and moves past it, or breaks on shutdown and changes nothing |
| SbiSpec.EidsSpellNames | library/sbi-spec/src/lib.rs:59-67 | each standard EID spells the name of its extension |
| VendorSbi.ZeroProbeNeverAnswers | library/rustsbi/src/extension.rs:55-105 | for any nesting of derived structs, enums, Option and references, a probe of zero means that every call returns not_supported |
| VendorSbi.NonzeroProbeNamesHandler | library/macros/src/extension.rs:90-124 | a nonzero probe is the answer of the very handler that every call to that EID goes to |
| VendorSbi.ImplementationIsCalled | library/rustsbi/src/extension.rs:55-105 | through any nesting, a nonzero probe is the answer of one implementation, which answers every call to that EID |
| VendorSbi.BoundHandlerAnswers | library/macros/src/vendor.rs:136-173 | probing and dispatching a bound EID both go to its handler, through enums, Option and references |
| VendorSbi.UnboundIsSilent | library/macros/src/vendor.rs:152-169 | an EID that no struct binds probes zero and is not supported |
| VendorSbi.ReservedNeverAnswered | library/macros/src/extension.rs:59-78 | standard and legacy EIDs, and those beyond 32 bits, are never answered |
| VendorSbi.AcceptedAloneIff | library/macros/src/extension.rs:59-87 | a struct with one field is accepted exactly when its EID fits in 32 bits, is none of 0 to 8, is not that of BASE, and spells no standard extension |
| VendorSbi.Validate | library/macros/src/extension.rs:55-87 | the generated loops accept a list of EIDs if and only if all fit in 32 bits, are pairwise distinct, and are neither standard nor legacy |
| VendorSbi.FieldOrderIrrelevant | library/macros/src/extension.rs:90-124 | permuting the fields of an accepted struct keeps it accepted and changes neither probing nor dispatching |
| VendorSbi.ParseExtension | library/macros/src/extension.rs:12-36 | an extension attribute is accepted exactly when it has one eid, an integer or a constant, and nothing else |
| DeriveBinding.ModesBindAlike | library/macros/src/lib.rs:166-252 | a struct that static mode accepts is accepted by dynamic mode with the same members bound |
| DeriveBinding.StaticAtMostOne | library/macros/src/lib.rs:43-69 | static mode binds at most one member to each extension |
| DeriveBinding.SecondEnvInfo | library/macros/src/lib.rs:110-238 | in dynamic mode a second env_info takes effect, is an unknown attribute when an attribute names it, and goes unreported as the field's own name; static mode reports it |
| DeriveBinding.OwnNameAlikeIff | library/macros/src/lib.rs:225-237 | the modes bind a field of its own name alike if and only if the name is no second binding |
| DeriveText.BindingIsText | library/macros/src/lib.rs:166-238 | for every struct, errors or not, the members of each extension and the vendor are those that the names in the text give, in the order of the text, in static mode the last |
| DeriveText.MembersStand | library/macros/src/lib.rs:166-238 | a field is a member exactly when a name of the extension is taken in one of its attributes, or none is taken and its own name is one; dynamic mode has all of them in field order, static mode the last |
| DeriveText.StaticMemberIff | library/macros/src/lib.rs:172-238 | in static mode that is decided by the field alone: a name of the extension before the first unknown name of an attribute, or its own name where every attribute begins with an unknown name |
| DeriveText.SkippedIsUnbound | library/macros/src/lib.rs:178-224 | a field with skip and no name of the extension in its attributes is no member of it, whatever its own name |
| DeriveText.StaticAcceptsIff | library/macros/src/lib.rs:166-238 | static mode reports no error exactly when every name in an attribute is known and no extension, vendor or env_info is named twice |
| DeriveBinding.Deriver.BindName | library/macros/src/lib.rs:44-114 | replace or push of one name, with its aliases, duplicates reported as each mode does |
| DeriveBinding.Deriver.ParseAttr | library/macros/src/lib.rs:172-219 | the names of an attribute are bound up to the first unknown one, which is an error |
| DeriveBinding.Deriver.ParseMeta | library/macros/src/lib.rs:176-215 | one name of an attribute skips the field, binds the vendor, or binds an extension |
| DeriveBinding.Deriver.ParseField | library/macros/src/lib.rs:166-238 | a field goes by its own name only if its attributes bound nothing |
| DeriveBinding.Deriver.ParseFields | library/macros/src/lib.rs:166-238 | the loops over fields and attributes bind what the specification says |
| DeriveDispatch.ModesAgreeIff | library/macros/src/lib.rs:286-799 | for every struct that static mode accepts, the two generated dispatchers agree on every EID, FID and argument array, BASE probing included, if and only if every bound member is available and the vendor keeps away from standard extensions without a member |
| DeriveDispatch.DerivedModesAgreeIff | library/macros/src/lib.rs:286-799 | with a derived vendor field, they agree if and only if every bound member is available |
| DeriveDispatch.StaticAnswers | library/macros/src/lib.rs:286-456 | in static mode a standard extension with a member probes 1 and is answered by the implementation inside it; one without is the vendor's, or probes 0 and is not_supported |
| DeriveDispatch.DynamicAnswers | library/macros/src/lib.rs:461-799 | in dynamic mode a standard extension probes 1 and is answered by the implementation inside its first member that is not None; without one it probes 0 and is not_supported, whatever the vendor |
| DeriveDispatch.OtherEidsAreTheVendors | library/macros/src/lib.rs:286-799 | in both modes every other EID but BASE is probed and answered by the vendor member, or by nobody |
| DeriveDispatch.BaseAnswers | library/rustsbi/src/traits.rs:54-103 | in both modes the seven BASE functions answer version, identity and the mode's own probe, and there are no others |
| DeriveDispatch.FirstAvailableServes | library/macros/src/lib.rs:472-484 | in dynamic mode the first available member is the one that is probed and that serves the call |
| DeriveDispatch.ProbeHonestIff | library/rustsbi/src/ipi.rs:27-48 | a nonzero probe means that an implementation answers, for every value of a type, if and only if Option is outermost in the type or absent |
| DeriveDispatch.RefToNoneIsAvailable | library/rustsbi/src/ipi.rs:27-48 | a reference to None probes 1 and its calls are answered as if there were nothing |
| DeriveDispatch.ProbedIsImplemented | library/macros/src/lib.rs:472-484 | with members of such types, a nonzero probe in dynamic mode means that one implementation answers every call to the extension |
| DeriveDispatch.ZeroProbeNeverAnswers | library/rustsbi/src/traits.rs:54-158 | with a derived vendor field, an EID that probes zero is not served, in both modes |
| RelayCodec.StubDecodes | library/rustsbi/src/traits.rs:160-409 | whatever the registers that a stub leaves unset hold, the decoder reads back the call that the stub was given, on both widths |
| RelayCodec.DecodedWellTyped | library/rustsbi/src/traits.rs:604-659 | every call that a decoder passes on has its arguments within u8, u32 and u64 |
| RelayCodec.PmuRoundTrip | library/sbi-rt/src/pmu.rs:109-239 | the PMU stubs and decoder agree on base, mask and the split of 64-bit arguments |
| RelayCodec.FenceRoundTrip | library/sbi-rt/src/rfnc.rs:28-253 | the remote-fence stubs and decoder agree on all seven functions |
| RelayCodec.CppcRoundTrip | library/sbi-rt/src/cppc.rs:35-131 | the CPPC stubs and decoder agree, with the written value split on 32 bits |
| RelayCodec.SseRoundTrip | library/sbi-rt/src/sse.rs:35-283 | the SSE stubs and decoder agree on all ten functions |
| RelayCodec.HsmRoundTrip | library/sbi-rt/src/hsm.rs:62-207 | the HSM stubs and decoder agree on all four functions |
| RelayCodec.ConsoleNaclRoundTrip | library/sbi-rt/src/nacl.rs:28-151 | the console and NACL stubs and decoders agree |
| RelayCodec.SmallRoundTrip | library/sbi-rt/src/time.rs:20-32 | the timer, IPI, reset, suspend and STA stubs and decoders agree, the timer value split on 32 bits |
| Relay.RelayTransparent | library/rustsbi/src/forward.rs:45-709 | for every implementation, state, extension, FID and arguments, on both widths and whatever unset registers hold, dispatching through Forward gives the same result and the same state as dispatching directly |
| Relay.DispatchRefusesExactly | library/rustsbi/src/traits.rs:160-409 | over every environment, a FID beyond the last of its extension is not_supported and a listed register that needs more than 32 bits is invalid_param, both with the state unchanged, and every other call is answered by the environment |
| Relay.CountedIffServed | library/rustsbi/src/traits.rs:160-409 | an environment that counts its calls is reached exactly once by every call within its extension and ranges, and by no other |
| Relay.RelayIndistinguishable | library/rustsbi/src/forward.rs:45-709 | no sequence of calls tells a relayed environment from the environment underneath |
| Relay.AbsentStillAnswers | library/rustsbi/src/timer.rs:26-40 | over None every call is not_supported, except that setting the timer and counting the counters succeed with zero, and a register out of range is still an invalid parameter |
| Relay.RelayKeepsAnswer | library/rustsbi/src/forward.rs:381-392 | over an environment of any make a served call reaches it once, at the same extension and function, and its answer comes back unchanged, but for set_timer, which succeeds with zero, and num_counters, which drops the error |

## Left out

- Weak memory ordering: every atomic access is sequentially consistent.
- Timeouts: they never fire. The two waits that `WorkerProgress.CanHangIffDoomed` characterizes would end by a
  timeout, which aborts the run.
- Time samples, printing, UART, CSR access, stacks and assembly of the bench kernel, and remote fences as
  anything but the list of harts they go to.
- The exact script of `run`: the handshake is proved for every order of operations in which workers are
  started before they are used, of which that script is one.
- The `pmpcfg` registers and permissions.
- PmpSlots.ExclusiveIffApart: callers free only indices that `alloc` gave them and that they still hold.
- The flattened format of the device tree: it is an ordered tree, `find_node("/aliases")` is the first
  child of that name, and alias text is the property value without trailing NULs.
- DevicePaths.PathRoundTrip: the root's own name is empty or a slash, as in the flattened format.
- Register ranges and memory validation of the runtime.
- EVENT_GET_INFO of the PMU, and the FWFT, DBTR and MPXY decoders in the relay: `Forward` does not have them.
- DeriveDispatch.ModesAgreeIff: what an implementation does in its extension, and what the decoders return
  over a missing one, are arbitrary functions there; the decoders themselves are in `RelayCodec`.
- Generic parameters, the `crate` attribute and spans of the generated code; the compile error for a
  missing `EnvInfo` outside machine mode.
- The demonstration program in the emulator's `main`.
