# Verified models of Chrysopolis

Machine-checked Dafny models of the parts of Chrysopolis whose correctness is hardest to see from one
function: warm restart of the BEAM server in flat memory, publication of the orchestrator spec to Root,
Root's restart policy, command path and status page, the console frame protocol of the test bed, the
minimal-transversal search of its lineage analysis, the TCP receive ring and the property shrinker.

Check everything with `dafny verify dfyconfig.toml`.

## How the models are built

Code that updates state step by step is a method or a class over arrays and fields, proved against a
function of its inputs and its old state; the promises are then lemmas about those functions over whole
runs. Protocols with more than one party (`SpecProtocol`, `StatusSeqlock`, `RootLive`) are transition
systems whose steps are single stores and single loads. Machine integers are subset types with their real bounds, and
every wrap, saturation and overflow check of the source is written out.

| module | models |
|---|---|
| `Words`, `Regions` | fixed-width words, little-endian layout, parts of a flat memory |
| `SnapshotCodec`, `SurvivorReplay` | survivor encoder, reader, validator walk and replay |
| `RestartLayout`, `Restart`, `RestartRuns` | layout check, capture, reset, and runs of resets |
| `RootPolicy`, `RestartPlan`, `RestartWindow` | budgets, leaky window, clock, the restart plan, and its window over runs |
| `SpecPage`, `SpecWriter`, `SpecCommit`, `SpecConsumer` | the spec page, its writer and its reader |
| `SpecProtocol`, `SpecAtomicity` | writer stores, crashes and copies interleaved; consumes between stores |
| `SpecRecovery`, `SpecConflict` | where a crash ruins the page; a rejection reported under two reasons |
| `SpecMeaning` | which pages and banks are believed, and what is reported of the rest |
| `StatusPage`, `Status`, `StatusRules`, `StatusReader` | the status page, its publisher, its checker and its reader |
| `StatusRuns`, `StatusAccepted`, `StatusSeqlock` | event ring, polling, monotone counters, pages that check, the interleaved copy |
| `StatusShows`, `StatusCompare` | what rows and header show, and what comparing two pages means |
| `Command`, `CommandRuns`, `CommandReplies` | token bucket, retry fence, tallies, and the condition of every reply |
| `RootMain`, `RootPd`, `RootRuns` | Root's callbacks as functions, as methods over live parts, and over runs |
| `RootActs`, `RootLive` | callbacks as calls on the publisher, and their stores beside a reader |
| `RootWindow`, `RootPage`, `RootLog` | each child's window, the page and the event log over runs of callbacks |
| `FrameBody`, `FrameReader`, `FramePrinter` | frame grammar, reader, and printer with round trip |
| `FrameScan`, `FrameSeal` | what any log holds, and which bodies are believed |
| `HittingSets`, `RxRing`, `Shrink` | minimal transversals, receive ring, shrinker |

Region sizes, the coalescing gap, the numbers of children and of events, and the budgets are symbolic,
bound only by the static assertions of the source. `SpecPage.Crc` and `FrameBody.Crc32` stand for the
checksums as arbitrary functions: no theorem depends on which they are. Time, counter reads, spec copies
and restart requests are inputs.

## What the proofs found

- A reset increments a 64-bit generation and refuses to wrap it, so the whole-run guarantee ends, with
  a fault and no store, at a generation of 2^64-1 (`RestartRuns.WholeRunRestores`).
- The codec's comments speak of zero words at most the gap apart. The code joins two non-zero words
  whose index distance is at most the gap, one zero word fewer (`SnapshotCodec.WordRunsCoalesce`).
- `chryso_frame.erl` prints bodies of up to 1024 bytes, but both readers call a body of exactly 1024
  oversize, and numbers beyond ten digits are printed but never parsed: `FramePrinter.RoundTrip` gives the
  exact condition, `FramePrinter.LongestIsOversize` and `FramePrinter.OvernumberedIsDamaged` an input each.
- `root_status_observe` reports no missed events on a reader's first poll even when some were already
  overwritten; its reports add up to the final head if and only if none were (`StatusRuns.ObserveFallsShort`).
- `hitting_sets` with a negative `max_size` and no supports returns the empty set as a transversal
  (`HittingSets.PromiseHolds`).
- A writer that crashes while it writes the first header leaves a page that every later begin refuses if
  and only if it crashes after the first and before the ninth of that header's thirteen stores
  (`SpecRecovery.CrashAfter`, over every run `SpecRecovery.WedgedExactly`; `SpecProtocol.WedgedForGood`).
  From the ninth store, the low byte of the version, on the header is already valid.
- A conflicting active bank is recorded twice when the other bank is applied over it, first as a conflict
  and then as a regression (`SpecConsumer.SecondReadSettles`, with a page in
  `SpecConflict.ConflictThenRegression`). The promise of one report per reason, generation and bank holds:
  these are two reasons.
- For callers that pass two different lifetime limits, which `main.c` does not, `root_restart_ceiling`
  keeps quoting the timed one after a clock loss while the plan applies the fallback
  (`RestartPlan.ReportedCeilingDiffers`). With the one constant `main.c` passes for both, the reported
  ceiling is always the applied one (`RootMain.ReportsAppliedCeiling`).

## Model

| member | source | states |
|---|---|---|
| `SnapshotCodec.SurvivorsEncode` | src/pd/beam/restart/beam_snapshot_codec.c:42-90 | writes exactly the records of the non-zero runs, and reports overflow if and only if their total length exceeds the capacity; no byte outside the area changes, whatever the outcome |
| `SnapshotCodec.AppendRun` | src/pd/beam/restart/beam_snapshot_codec.c:27-40 | appends one record or refuses it, refusing exactly when it does not fit |
| `SnapshotCodec.RunsValid` | src/pd/beam/restart/beam_snapshot_codec.c:42-90 | the runs of any .bss are non-empty, in bounds, ascending and disjoint, the sub-word tail included |
| `SnapshotCodec.RunsCover` | src/pd/beam/restart/beam_snapshot_codec.c:42-90 | every non-zero byte of .bss lies in a run |
| `SnapshotCodec.WordRunsCoalesce` | src/pd/beam/restart/beam_snapshot_codec.c:56-68 | two neighbouring non-zero words share a run if and only if their distance is at most the gap, so runs are maximal |
| `SurvivorReplay.SurvivorReader.Read` | src/pd/beam/restart/beam_snapshot_codec.c:92-114 | one record, the end, or the exact reason a record cannot be read; the cursor moves only past a whole record |
| `SurvivorReplay.WalkRecords` | src/pd/beam/restart/beam_snapshot_codec.c:158-185 | the survivor walk of the validator, as a loop over an advancing cursor |
| `SurvivorReplay.WalkAcceptsExactly` | src/pd/beam/restart/beam_snapshot_codec.c:158-185 | the walk accepts a byte string if and only if its records parse to the end, each valid and inside .bss, in ascending order |
| `SurvivorReplay.WalkJudges` | src/pd/beam/restart/beam_snapshot_codec.c:158-185 | each refusal of the walk has its own condition, in the order of the tests |
| `SurvivorReplay.ReadsExactly` | src/pd/beam/restart/beam_snapshot_codec.c:92-114 | the end, a truncated and an out-of-bounds record and a whole one, each from the bytes left and the two header words |
| `SurvivorReplay.AcceptedReplayIsSafe` | src/pd/beam/restart/beam_snapshot_codec.c:130-185 | for any bytes the validator accepts, replay ends at the end of the area, stays inside .bss and no byte belongs to two records |
| `SurvivorReplay.EncoderPassesWalk` | src/pd/beam/restart/beam_snapshot_codec.c:42-90 | the encoder's output always passes the validator's walk and parses back to the encoded runs |
| `SurvivorReplay.ReadBack` | src/pd/beam/restart/beam_snapshot_codec.c:92-114 | encoded runs, wherever they stand in an area, are read back as themselves and replay as themselves |
| `SurvivorReplay.SurvivorRoundTrip` | src/pd/beam/restart/beam_snapshot_codec.c:42-114 | for every .bss of at most UINT32_MAX bytes and every gap, zero-filling and replaying rebuilds .bss byte for byte |
| `RestartLayout.OverlapMeansShared` | src/pd/beam/restart/beam_restart_layout.h:66-75 | the overlap test is true exactly when some address lies in both ranges |
| `RestartLayout.StackTopMeansPush` | src/pd/beam/restart/beam_restart_layout.h:77-82 | the stack test is true exactly when the first push below the stack pointer lands in the range |
| `RestartLayout.LayoutCheckMeaning` | src/pd/beam/restart/beam_restart_layout.h:84-117 | the check passes if and only if every range fits the address space, the data fits its area, and the segment is apart from the snapshot and the exit-fault page |
| `RestartLayout.LayoutFaultMeaning` | src/pd/beam/restart/beam_restart_layout.h:84-117 | which status comes when: the first inequality that fails names it |
| `Restart.BootCapture` | src/pd/beam/restart/restart.c:265-318 | a completed capture leaves a snapshot of exactly the running data, .bss and SP in generation 1 and changes nothing outside the region, a faulted one never leaves the magic, and the magic is the last store; RestartRuns.CapturesExactly gives the condition of each result |
| `Restart.ReplayInPlace` | src/pd/beam/restart/restart.c:343-354 | the replay loop, reading the live survivor area while it writes .bss, leaves what replaying a copy of the area leaves |
| `Restart.ResetRestore` | src/pd/beam/restart/restart.c:321-358 | resumes with the saved SP exactly when layout and snapshot checks pass; a reset that fails a check changes no byte of memory |
| `RestartRuns.CapturesExactly` | src/pd/beam/restart/restart.c:265-297 | a call captures if and only if the region is mapped, its first eight bytes are not the magic, the layout meets its inequalities and the encoded survivors fit; each other result has its own condition |
| `RestartRuns.SoundMeaning` | src/pd/beam/restart/restart.c:174-185 | what the layout check asks of this image, the region and the exit-fault page |
| `RestartRuns.ZerosAreUncaptured` | src/pd/beam/restart/restart.c:265-276 | a freshly mapped region of zeros can be captured |
| `RestartRuns.CaptureAgain` | src/pd/beam/restart/restart.c:262-297 | a second call after a completed capture changes no byte; one after a capture torn before its last store takes the cold image again |
| `RestartRuns.ResetAcceptsExactly` | src/pd/beam/restart/restart.c:321-345 | on any memory whatever a reset resumes if and only if the layout is sound, the magic stands, the generation can grow, both lengths fit, the SP is usable and the survivors parse as valid ascending records |
| `RestartRuns.ResetFaultsExactly` | src/pd/beam/restart/restart.c:321-345 | under a sound layout, which fault comes when, in the order of the checks |
| `RestartRuns.ResetSucceedsExactly` | src/pd/beam/restart/restart.c:321-358 | on an intact snapshot a reset succeeds if and only if the generation can still grow and the saved SP is not zero, 16-aligned and pushes first outside the region and the segment; otherwise the fault names which |
| `RestartRuns.RestoreRebuilds` | src/pd/beam/restart/restart.c:334-357 | a restore rebuilds the captured segment byte for byte and keeps data area, survivors and SP, with the generation one higher |
| `RestartRuns.WholeRunRestores` | src/pd/beam/restart/restart.c:265-358 | from any cold boot with a usable SP, the call to the capture captures, and every reset of any run of arbitrary execution that spares the snapshot restores the captured image, in generation 1 plus the resets; from reset number 2^64-1 on (counting from one) the generation is spent, and every reset faults and writes nothing |
| `RootPolicy.SlidingWindow` | src/pd/root/policy/root_policy.h:216-274 | every closed window of D ticks of any run holds at most capacity + D / leak interval resumes |
| `RootPolicy.RefusesExactlyWhenFull` | src/pd/root/policy/root_policy.h:248-262 | a live child with lifetime left is refused for its window if and only if resuming it would break that bound in some window: the policy is as permissive as the bound allows |
| `RootPolicy.ErrorsUnreachable` | src/pd/root/policy/root_policy.h:226-243 | along any run with non-decreasing ticks neither the invalid-record nor the clock-regressed error occurs |
| `RootPolicy.ErrorsExactly` | src/pd/root/policy/root_policy.h:226-243 | each error from the policy, the record and the tick alone; an error or a gone child changes nothing |
| `RootPolicy.BusyPeriod` | src/pd/root/policy/root_policy.h:248-272 | while a window is not empty, the resumes since it last was account exactly for the tick at which it drains, whether or not refused requests committed their leak |
| `RootPolicy.NoResumesOnceIdle` | src/pd/root/policy/root_policy.h:248-272 | from the tick at which a window drains on, no earlier resume counts |
| `RootPolicy.Clock.Init` | src/pd/root/policy/root_policy.h:147-159 | available exactly for a frequency within the limits, with the tick rate rounded up so a window never refills early |
| `RootPolicy.Clock.Observe` | src/pd/root/policy/root_policy.h:161-177 | a sample is accepted if and only if the clock stands, its rate is set and no earlier sample was later; a lost clock never returns |
| `RootPolicy.Clock.Interval` | src/pd/root/policy/root_policy.h:179-194 | the exact product, or overflow exactly when it does not fit 64 bits |
| `RestartPlan.BudgetHoldsOverRuns` | src/pd/root/restart_plan.c:78-122 | under any requests, applied specs and clock losses a child is resumed at most hard_max times, its lifetime count is the number of resumes, and it gives up at most once, exactly when gone |
| `RestartPlan.GoneForGood` | src/pd/root/restart_plan.c:11-27 | the lifetime count never decreases and after a give-up every later request is ignored |
| `RestartPlan.CeilingHolds` | src/pd/root/restart_plan.c:78-122 | no resume at or over the ceiling; without the clock each action has its exact condition and a resume charges one. What the clock adds is RestartWindow.PlanDecidesExactly |
| `RestartWindow.PlanKeepsWindow` | src/pd/root/restart_plan.c:78-122 | over any requests decided by the clock, under budgets that may change with every request, the plan's own resumes in any closed window [lo, hi] are at most capacity + (hi - lo) / leak interval |
| `RestartWindow.PlanDecidesExactly` | src/pd/root/restart_plan.c:78-122 | after any such requests a live child below its ceiling is refused for its window if and only if one more resume would break that bound; every other action has its exact condition |
| `RestartWindow.SecondCrashIsRefused` | src/pd/root/restart_plan.c:97-108 | a child restarted once at this tick finds a window of one full |
| `RestartPlan.PolicyInvalidExactly` | src/pd/root/restart_plan.c:93-111 | a timed decision is abandoned if and only if a live child meets a policy, a record or a tick that makes no sense, and then it gives up |
| `RestartPlan.CommitsThePlan` | src/pd/root/restart_plan.c:114-122 | what main.c commits for each action is exactly the plan's record; a child is ignored if and only if it was gone, and then nothing changes |
| `RestartPlan.ReportedCeilingDiffers` | src/pd/root/restart_plan.c:64-76 | for a caller whose timed policy and fallback carry two limits, the reported ceiling differs from the applied one if and only if the clock is lost under a timed policy and the smaller limit is below the budget |
| `RestartPlan.DifferingCeilings` | src/pd/root/restart_plan.c:64-98 | one such input, where three is reported and four applied |
| `SpecPage.SpecBudget` | src/pd/root/spec.c:290-300 | a non-zero spec value is applied as the smaller of itself and hard_max, and otherwise the budget is the compiled one; so hard_max is never exceeded when the compiled budget does not exceed it |
| `SpecPage.SealedContent` | src/pd/root/spec.c:175-219 | a sealed bank decodes to exactly the generation, budgets and desired states of its commit |
| `SpecMeaning.SealedIsJudged` | src/pd/root/spec.c:175-219 | each judgement of a sealed commit on its generation and content: nothing, undeclared, regressed, conflict, same or newer |
| `SpecMeaning.UnsealedIsRefused` | src/pd/root/spec.c:175-186 | a bank that is no sealed commit is empty while its sequence is zero, and otherwise refused for the reason its check gives |
| `SpecMeaning.UnreadablePages` | src/pd/root/spec.c:246-266 | a missing, unwritten, unstable or bad page applies nothing; which of absent and kept, and which reason |
| `SpecMeaning.ReportsActiveBank` | src/pd/root/spec.c:267-288 | of a readable page only the active bank's rejection is reported, with the generation it claims |
| `SpecMeaning.RecordsChanges` | src/pd/root/spec.c:221-244 | a rejection is recorded if and only if it is not the one remembered; an acceptance forgets it |
| `SpecConsumer.SelectionMeaning` | src/pd/root/spec.c:52-95 | the 5x5 table applies exactly newer banks, reports unchanged exactly for an equal one, and prefers the active bank whenever it is usable |
| `SpecConsumer.Evaluate` | src/pd/root/spec.c:175-219 | classifies one bank: torn or sealed, whole, declared for this image, and newer, equal or conflicting |
| `SpecConsumer.SpecState.Snapshot` | src/pd/root/spec.c:113-140 | of a page that stands still, the byte-by-byte copy is the page; it may be used if and only if the markers before, in and after it agree |
| `SpecConsumer.SpecState.Consume` | src/pd/root/spec.c:246-288 | one consume of a quiet page: new state and result for a missing page, an unwritten, a bad or a good header |
| `SpecConsumer.AppliesOneWholeBank` | src/pd/root/spec.c:246-288 | the retained policy changes exactly on applied, to the whole content of one acceptable bank, and only to a higher generation |
| `SpecConsumer.SecondReadSettles` | src/pd/root/spec.c:221-244 | reading the same page again applies nothing and records no rejection again; it records another one in exactly one case, a conflict of the active bank that became a regression because the other bank was applied |
| `SpecConflict.ConflictThenRegression` | src/pd/root/spec.c:221-244 | a page on which that happens, and that a third read records nothing |
| `SpecProtocol.SpecIntegrity` | src/pd/root/spec.c:113-140 | over every interleaving of single stores, writer crashes and the byte-by-byte copy, Root holds the compiled policy or exactly one commit that was begun and reached close, never a mixture |
| `SpecProtocol.GenerationNeverDecreases` | src/pd/root/spec.c:246-288 | along every such run the retained generation only grows, and an unchanged one means an unchanged policy |
| `SpecProtocol.RecheckSettles` | src/pd/root/spec.c:122-140 | a copied bank whose sequence word is unchanged and even at recheck is byte for byte that bank of the page; an odd one was being written |
| `SpecAtomicity.SpecAtomicity` | src/pd/root/spec.c:246-288 | with rising generations and serialized consumes, a consume leaves exactly the last flipped commit, and before any flip the first commit is visible from its close |
| `SpecWriter.PayloadStoresMake` | src/lib/abi/spec_writer.c:121-133 | the payload's byte stores, children interleaved, amount to six block stores |
| `SpecWriter.WriteMakesBank` | src/lib/abi/spec_writer.c:121-133 | after the write step the bank holds the commit over the checksum and sequence it had, and nothing else has changed |
| `SpecPage.SealedBankChecks` | src/lib/abi/spec_writer.c:135-144 | a bank sealed over zeroed crc32 and bank_seq passes the checker under every published sequence |
| `SpecCommit.BeginReaches` | src/lib/abi/spec_writer.c:48-97 | begin targets the bank that is not active, under an odd sequence above its last, and stores nothing but an unwritten header |
| `SpecMeaning.BeginsExactly` | src/lib/abi/spec_writer.c:48-99 | each refusal of begin on its own condition, and the target bank and sequence of a commit that begins |
| `SpecMeaning.OpenSeqIsNextOdd` | src/lib/abi/spec_writer.c:71-79 | the sequence a commit opens under is the least odd one above the bank's |
| `SpecCommit.StepReaches` | src/lib/abi/spec_writer.c:99-170 | each step from its own phase reaches the next phase and keeps the other bank |
| `SpecCommit.Writer.Begin` | src/lib/abi/spec_writer.c:48-97 | a writer in mid-commit, a missing page, a bad header and a spent sequence are refused, each under its own condition and storing nothing; otherwise the stores of a fresh header are made |
| `SpecCommit.Writer.Step` | src/lib/abi/spec_writer.c:172-181 | a step out of phase stores nothing; one in phase makes exactly its stores |
| `SpecCommit.Writer.WritePayload` | src/lib/abi/spec_writer.c:121-133 | the loops over fields, children and tail make exactly the payload stores |
| `SpecCommit.Writer.CommitAll` | src/lib/abi/spec_writer.c:183-195 | on success the formerly inactive bank is active and holds the sealed commit under its next even sequence, the other bank untouched; a refusal leaves the page as it was |
| `SpecProtocol.StoreEffect` | src/lib/abi/spec_writer.c:147-170 | one store of the writer raises a bank's sequence or leaves it, and a bank whose sequence stays even is not touched |
| `SpecAtomicity.ActiveBankUntouched` | src/lib/abi/spec_writer.c:48-170 | the writer never stores into the active bank, crashes included |
| `SpecProtocol.CrashInHeaderWedges` | src/lib/abi/spec_writer.c:75-81 | the shortest such run: a crash after the first byte of the first header store |
| `SpecProtocol.WedgedForGood` | src/lib/abi/spec_writer.c:60-66 | no later call of any writer stores to such a page |
| `SpecRecovery.CrashWedgesExactly` | src/lib/abi/spec_writer.c:60-81 | in every reachable state a crash leaves a page that the next begin refuses if and only if it was so already or the crash falls after one to eight of the thirteen stores of the first header |
| `SpecRecovery.WedgedExactly` | src/lib/abi/spec_writer.c:48-97 | a run has left such a page if and only if one of its crashes fell there |
| `SpecRecovery.CrashAfter` | src/lib/abi/spec_writer.c:75-81 | a first commit that crashes after k of its header's stores does so if and only if k is between one and eight |
| `SpecRecovery.HeaderReads` | src/lib/abi/spec_writer.c:60-81 | after k stores the header reads as unwritten only for k = 0, and as valid exactly from the ninth store on, the first byte of the version |
| `Status.Publisher.constructor` | src/pd/root/status.c:39-87 | init: without a mapped page publication stays off; with one, the final page shows every present child live, absent rows and reserved space zero, the boot event and sequence 2, and publication is on |
| `Status.Publisher.NoteFault` | src/pd/root/status.c:89-107 | no other child's observation and nothing else changes; an open down interval keeps its start, a closed one opens now if the clock stands, and no down time is added yet |
| `Status.Publisher.NoteRestart` | src/pd/root/status.c:109-136 | no other child's observation changes; the interval is closed and adds exactly its length, or nothing without a clock or against one that went back; a BEAM restart counts the incarnation, or stops publication where it would wrap |
| `Status.Publisher.NotePolicy` | src/pd/root/status.c:150-162 | the loops record the policy for present children only |
| `Status.Publisher.Publish` | src/pd/root/status.c:164-235 | a refusal writes nothing to the page and disables exactly as documented; success writes row, policy rows, events and header under the next even sequence; what they show is StatusShows.PublishShows |
| `StatusShows.RefusesExactly` | src/pd/root/status.c:164-235 | a publish is refused if and only if publication is off, an argument is unusable or a counter would wrap; which flag is set, and the page is left alone |
| `StatusShows.PublishShows` | src/pd/root/status.c:164-235 | a publish shows its child's observation and record field by field, the policy on every present row, and sequence, head, incarnation and clock in the header; nothing else changes |
| `StatusShows.BootMeaning` | src/pd/root/status.c:39-87 | the booted page in the interface's own numbers |
| `StatusShows.RowsAreLastShown` | src/pd/root/status.c:89-235 | after every run from boot each present row shows, field by field, the observation and record last published for it, or what boot wrote, with its boot tick and the policy in force |
| `StatusShows.RestartShows` | src/pd/root/status.c:89-235 | after any faults, a restart and a publish the row shows the restart's tick, a closed interval, the down ticks it showed before plus the time since the first timed fault (saturating), the last fault, and the record's state and counts |
| `StatusRuns.RingHoldsTheTail` | src/pd/root/status.c:220-227 | after every run the page holds exactly the last min(head, N) events of the full log at their index mod N, and event_dropped counts the rest |
| `StatusRuns.FaultShows` | src/pd/root/status.c:177-199 | a fault noted and then published shows on its child's row word for word beside the record's counts, and every other row is unchanged but for a policy still to be shown |
| `StatusRuns.PolicyShows` | src/pd/root/status.c:150-232 | a policy noted and then published shows on every present child's row and in the header, and leaves absent rows alone |
| `StatusRuns.DownTimeIsCountedOnce` | src/pd/root/status.c:89-127 | after any series of faults, each with or without a valid clock, the restart adds exactly the time since the first fault that was timed, saturating, and nothing if none was or the restart has no clock; a second restart adds nothing |
| `StatusRuns.ActFollows` | src/pd/root/status.c:164-235 | no act whose record counts at least what its row shows makes a later page older: sequence, head, incarnation, lifetime counts and down ticks only grow; RootActs.CallbackAmounts shows Root's acts are such |
| `StatusSeqlock.SeqlockIsSound` | src/pd/root/status.c:164-235 | for a caller whose records never count backwards, an accepted copy, interleaved with any order of payload stores, is the page of one completed publish, and later accepted copies never read as regressed |
| `StatusAccepted.EveryPageIsRead` | src/pd/root/status.c:164-235 | after any run of notes and of publishes with well-formed events, the page passes the reader's checker and a read of it succeeds |
| `StatusReader.CopyBegin` | src/lib/abi/root_status_reader.c:17-28 | copies exactly when the sequence is published and even |
| `StatusReader.CopyFinish` | src/lib/abi/root_status_reader.c:30-48 | hands the copy out only if the sequence and the copy's own agree and it checks; otherwise the output is untouched |
| `StatusReader.Read` | src/lib/abi/root_status_reader.c:50-70 | the attempts of a read of a quiet page, bad arguments included |
| `StatusCompare.ReadExactly` | src/lib/abi/root_status_reader.c:50-70 | a read of a quiet page succeeds on exactly the pages that check, and is torn while none is published |
| `StatusReader.CheckRegressed` | src/lib/abi/root_status_reader.c:79-106 | the loop over rows decides the regression relation |
| `StatusCompare.RegressionMeaning` | src/lib/abi/root_status_reader.c:79-106 | on two pages' fields: an older Root generation, or within one a fallen counter of header or rows, or other content under the same sequence, and nothing else |
| `StatusReader.Observe` | src/lib/abi/root_status_reader.c:108-142 | ok exactly for two present arguments without regression, and out is written only then |
| `StatusCompare.FreshnessMeaning` | src/lib/abi/root_status_reader.c:126-140 | changed, age and misses on the two pages' fields |
| `StatusCompare.MissedMeaning` | src/lib/abi/root_status_reader.c:72-77 | an event counts as missed if and only if it lies past the earlier head and the ring no longer holds it |
| `StatusCompare.AgeIsSincePublish` | src/lib/abi/root_status_reader.c:126-140 | a page published at a tick with the reader's frequency is as old as the ticks since; one without a clock has no age; every publish reads as a change |
| `StatusRuns.PollDelivers` | src/lib/abi/root_status_reader.c:72-77 | a poll delivers exactly the log from the first event still kept, and what lies before it is what root_status_missed counts |
| `StatusRuns.PollsAddUp` | src/lib/abi/root_status_reader.c:72-77 | over successive states of one run, the events the polls read from the pages and the misses between their heads add up to the final head |
| `StatusRuns.ObserveFallsShort` | src/lib/abi/root_status_reader.c:131-137 | over successive copies of one run, the events read and the missed_events root_status_observe reports add up to the final head less what had been dropped before the first copy |
| `StatusRuns.PollingARun` | src/lib/abi/root_status_reader.c:72-142 | both sums for polls at any positions of any run of acts from boot |
| `StatusRuns.ObserveReports` | src/lib/abi/root_status_reader.c:108-142 | root_status_observe reports the gap to the copy before it, and none on a reader's first poll |
| `StatusRuns.FollowsIsNoRegression` | src/lib/abi/root_status_reader.c:79-106 | pages of one Root run, in order, never compare as regressed |
| `StatusRuns.StaleIsRegression` | src/lib/abi/root_status_reader.c:94-97 | a lower sequence within a generation always does |
| `StatusRules.PageReads` | tools/abi/checks.zig:257-285 | every page decodes from its bytes, field by field |
| `StatusRules.ChecksAreRules` | tools/abi/checks.zig:257-285 | the checker passes a page's bytes if and only if its header, rows and published events meet the rule table |
| `StatusRules.AcceptsExactly` | tools/abi/checks.zig:257-285 | the checker accepts exactly the bytes of pages whose header, rows and published events make sense in the interface's own numbers |
| `SpecMeaning.AcceptsSealedExactly` | tools/abi/checks.zig:299-309 | the bank checker accepts a bank if and only if it is some commit, sealed, under a published sequence |
| `SpecMeaning.VerdictsInOrder` | tools/abi/checks.zig:299-309 | a bank is judged by its sequence, then by its checksum, then by its shape |
| `SpecMeaning.AcceptsHeaderExactly` | tools/abi/checks.zig:287-298 | the header checker accepts exactly magic, version, a selector of one of the two banks, and zeros |
| `StatusAccepted.SaneMeetsRules` | tools/abi/checks.zig:257-285 | what the publisher keeps meets every rule, for every slot of the published window |
| `Command.IntervalFor` | src/pd/root/command.c:58-60 | the interval spreads the capacity over at least the refill time, by less than one tick per token |
| `Command.CommandPath.Frame` | src/pd/root/command.c:64-80 | a foreign channel, a wrong word count or an undeclared opcode, each counted as rejected |
| `Command.CommandPath.RefillStep` | src/pd/root/command.c:82-107 | one clock sample through the refill machine |
| `Command.CommandPath.FenceRepeats` | src/pd/root/command.c:117-134 | true exactly for the opcode and words of the last completed command |
| `Command.CommandPath.Decide` | src/pd/root/command.c:185-244 | malformed before any token, then the token, then the opcode's row; CommandReplies.ResultsExactly and WordsExactly say what that answers |
| `CommandReplies.ResultsExactly` | src/pd/root/command.c:185-244 | over all opcodes, the exact condition on the caller's inputs of each of the seven results, a non-zero word beyond the opcode's own included |
| `CommandReplies.WordsExactly` | src/pd/root/command.c:185-244 | the words of every reply: none for a refusal, the memo's for a retry, Root's identity for HELLO, sequence and tallies for SYNC |
| `CommandReplies.StaleReplyHeals` | src/pd/root/command.c:136-168 | the first three words of a stale reply, sent back for the same child to the same view, are a restart that is decided, unless there is no token or they are the last command |
| `CommandReplies.FramesExactly` | src/pd/root/command.c:64-80 | which frames are refused, which are bad arguments and which pass |
| `CommandReplies.StartsFull` | src/pd/root/command.c:47-62 | the bucket starts full, and refills if and only if there are tokens, a rate and a clock |
| `CommandReplies.RefillEndsExactly` | src/pd/root/command.c:82-107 | a sample ends refills if and only if the clock is gone or went back |
| `CommandReplies.NoTokensOnceOff` | src/pd/root/command.c:82-107 | from then on no run of calls adds a token |
| `CommandRuns.SpentWithinRate` | src/pd/root/command.c:47-107 | tokens spent by any tick never exceed capacity + elapsed / interval, and capacity times interval is at least the refill time |
| `CommandRuns.ExactSinceSaturation` | src/pd/root/command.c:97-107 | since the last saturation tokens held and spent are exactly capacity plus one per interval, on a whole number of intervals: no fraction is lost |
| `CommandRuns.TalliesCountReplies` | src/pd/root/command.c:170-183 | accepted, rate-limited and rejected replies together count every frame rejection and every decision exactly once, modulo 64 bits |
| `CommandRuns.SyncReportsReplies` | src/pd/root/command.c:221-233 | an answered SYNC reports the published sequence and the tallies with itself included |
| `CommandRuns.HelloReports` | src/pd/root/command.c:213-220 | a funded HELLO accepts exactly Root's version, reports its identity, costs one token and arms no fence |
| `CommandRuns.RestartDecidedExactly` | src/pd/root/command.c:136-168 | a restart is decided if and only if it is well formed, funded, not a repeat, names a live present driver while publishing, and states the generation, sequence and lifetime count Root holds |
| `CommandRuns.RetryIsAnswered` | src/pd/root/command.c:136-142 | a verbatim retry of the last completed command is answered already_done with the identical words unless the bucket is empty |
| `RootPd.Root.SpecRefresh` | src/pd/root/main.c:544-560 | consume, and on applied note every child's ceiling |
| `RootPd.Root.RestartChildNow` | src/pd/root/main.c:756-810 | refresh, clock check and plan as specified; the child is started or stopped exactly once, with the record it keeps already committed, and not at all when ignored |
| `RootPd.Root.CommandRestart` | src/pd/root/main.c:892-923 | restart, publish, read the reply words, and only then complete, on the counter as read at each of its points |
| `RootPd.Root.ProtectedCall` | src/pd/root/main.c:941-978 | frame, decision, restart path: the new state and the reply of every command, on the counter as read; a performed command starts or stops the named child exactly once, any other call starts and stops nothing |
| `RootPd.Root.FaultCall` | src/pd/root/main.c:989-1066 | note the fault, decide, publish fault, rejection and outcome together, on the counter as read; a live child is started or stopped exactly once, a gone one is not, and an unknown child changes nothing |
| `RootPd.Root.DebugRestartCall` | src/pd/root/main.c:826-845 | the restart path and its publish without a fault event, with at most one start or stop |
| `RootPd.Root.FaultInjectCall` | src/pd/root/main.c:847-874 | a live child is started at address zero and only the event is published; a gone one is left alone |
| `RootRuns.AtMostOnce` | src/pd/root/main.c:892-978 | over any mix of commands, replays, faults, debug requests and publications, failed ones included, no two performed restarts observed the same sequence |
| `RootRuns.CommandIsOnward` | src/pd/root/main.c:892-978 | a command is performed only while publishing and on the sequence then published; afterwards the sequence is higher or publication is over |
| `RootRuns.RetryRepeatsReply` | src/pd/root/main.c:892-978 | a verbatim retry after any callbacks that performed no other command gets the identical reply words or rate_limited, and performs nothing |
| `RootRuns.DecidedIsPerformed` | src/pd/root/main.c:892-923 | a decided restart is always performed: the ignored branch cannot be reached |
| `RootRuns.ReplyMatchesLog` | src/pd/root/main.c:892-923 | a performed command leaves in the ring its control event, at most one spec rejection and the outcome its reply reports, and the reply quotes the sequence that shows them |
| `RootRuns.PublishEndsExactly` | src/pd/root/main.c:499-514 | with at most three events, publication ends if and only if the child is absent or a counter would wrap |
| `RootRuns.PublishedCountsNeverFall` | src/pd/root/main.c:499-514 | no published row ever shows more restarts than the record holds, so every publish keeps lifetime counts from falling |
| `RootWindow.RootKeepsWindow` | src/pd/root/main.c:756-810 | while the clock stands Root's callbacks, whatever specs they apply, resume a child at most capacity + (hi - lo) / leak interval times in any closed window |
| `RootWindow.RootKeepsBudget` | src/pd/root/main.c:756-810 | clock or none, a child's resumes over any run of callbacks are its record's count and never exceed the hard maximum |
| `RootWindow.RecordsArePlanned` | src/pd/root/main.c:756-810 | the record Root holds after any callbacks is the plan's own, request by request |
| `RootWindow.ClockEndsExactly` | src/pd/root/main.c:756-772 | a restart path gives up a standing clock if and only if a sample fails or a live child meets a policy, record or tick that makes no sense |
| `RootPage.PageShowsRoot` | src/pd/root/main.c:499-1066 | whatever callbacks Root has handled since boot, while it publishes every present row shows Root's own record and observation field by field, and the header its policy, sequence and incarnation |
| `RootPage.PageShowsCeilings` | src/pd/root/main.c:447-560 | so every present row quotes the very ceiling the plan applies, as running, under the generation and bank retained |
| `RootPage.RepliesMatchPage` | src/pd/root/main.c:941-978 | HELLO and SYNC answer with what a reader finds in the header |
| `RootLog.FaultIsLogged` | src/pd/root/main.c:989-1067 | a fault joins the event log as it was sent, followed by any spec rejection and the outcome, in the interface's numbers and at their own ticks |
| `RootLog.DecisionIsLogged` | src/pd/root/main.c:826-845 | a decision about a child logs any recorded rejection and then the outcome with the record's counts, and an ignored child no outcome |
| `RootLog.CommandIsLogged` | src/pd/root/main.c:892-923 | a performed command logs its request with the sequence it observed, then the decision |
| `RootLog.InjectionIsLogged` | src/pd/root/main.c:847-874 | an injected fault logs the request alone, and a gone child nothing |
| `RootLog.PerformedExactly` | src/pd/root/main.c:941-978 | a call performs a restart if and only if it is framed as one, funded, no repeat, and names a live driver with the generation, sequence and count Root holds while it publishes |
| `RootMain.ReportsAppliedCeiling` | src/pd/root/main.c:428-454 | with the one limit main.c passes twice, the ceiling the status page reports is always the applied one |
| `RootActs.CallbackAmounts` | src/pd/root/main.c:499-1066 | every callback acts on publisher and page exactly as its calls in order, each of them well formed and publishing no count below its row's |
| `RootLive.EveryPageIsRead` | src/pd/root/main.c:499-1066 | whatever callbacks Root has handled since boot, its page passes the checker and a read of it succeeds |
| `RootLive.PagesNeverRegress` | src/pd/root/main.c:499-1066 | of two pages of one run of callbacks the later never reads as a regression of the earlier |
| `RootLive.ReaderSeesCallbacks` | src/pd/root/main.c:499-1066 | with every store and every copied byte interleaved, each copy the reader accepts is the page Root had after one of its callbacks, and none reads as a regression of an earlier one |
| `RootLive.SteadyCopyIsAccepted` | src/pd/root/main.c:499-1066 | a copy that ends on the sequence it began with is always accepted, and no other is |
| `RootLive.NothingIsSkipped` | src/pd/root/main.c:499-1066 | between callbacks, publisher state and shared bytes are exactly what the callbacks entered so far leave |
| `FrameReader.Advance` | tools/testbed/src/chryso_testbed/frames.py:108-114 | the loop finds the longest marker prefix that ends what was seen |
| `FrameReader.FeedBytewise` | tools/testbed/src/chryso_testbed/frames.py:135-141 | the reference loop |
| `FrameReader.Feed` | tools/testbed/src/chryso_testbed/frames.py:144-171 | the skipping reader equals the bytewise one in events and state, on every input and from every state |
| `FrameReader.SkipInside` | tools/testbed/src/chryso_testbed/frames.py:157-166 | appending a slice up to the cap equals appending its bytes one by one |
| `FrameReader.ChunksDoNotMatter` | tools/testbed/src/chryso_testbed/frames.py:144-171 | feeding a log in any chunks gives the same events and state |
| `FrameReader.PrefixNeverDisagrees` | tools/testbed/src/chryso_testbed/frames.py:184-209 | the observation of a prefix of a log is pending or equals that of the whole log |
| `FrameScan.CollectIsSearch` | tools/testbed/src/chryso_testbed/frames.py:117-186 | for every log, reading byte by byte gives exactly what a search finds: a body begins behind the first marker and ends at the first pair of @ short of the cap, the search goes on from that pair, a body that reaches the cap is oversize, and an open end is pending |
| `FrameReader.Observe` | tools/testbed/src/chryso_testbed/frames.py:192-209 | the loop decides at the first damaged frame or at the run's verdict |
| `FrameReader.ObservedExactly` | tools/testbed/src/chryso_testbed/frames.py:192-221 | a run is decided by its first verdict unless a damaged frame comes first: passed if and only if the verdict agrees with the frames before it, otherwise lost with exactly the missing numbers |
| `FrameReader.PassIsComplete` | tools/testbed/src/chryso_testbed/frames.py:212-221 | a pass means the run's frames arrived once each, in order, and are as many as the run's verdict is numbered: none is missing, not even at the end |
| `FrameReader.LookupIsLast` | tools/testbed/src/chryso_testbed/frames.py:215-217 | of several fields of one name the last counts, and a missing one reads as empty |
| `FrameReader.LostExactly` | tools/testbed/src/chryso_testbed/frames.py:220-221 | the numbers reported lost are exactly the expected ones that did not arrive |
| `FrameBody.JoinSplit` | tools/testbed/src/chryso_testbed/frames.py:243-246 | splitting at bars loses nothing |
| `FrameBody.Fields` | tools/testbed/src/chryso_testbed/frames.py:276-284 | all fields, or none as soon as one is malformed |
| `FrameBody.Unescape` | tools/testbed/src/chryso_testbed/frames.py:287-303 | decodes %XX pairs and refuses broken pairs, @ and = |
| `FrameSeal.ParsesExactly` | tools/testbed/src/chryso_testbed/frames.py:240-273 | a body gives a frame if and only if it is a prefix naming the frame, its own length, and the checksum of all that |
| `FrameSeal.RefusedExactly` | tools/testbed/src/chryso_testbed/frames.py:267-272 | a body is refused for its length, or for its checksum, if and only if it is readable and that is what is wrong |
| `FrameSeal.FieldsExactly` | tools/testbed/src/chryso_testbed/frames.py:276-284 | the fields of a body are accepted, and are these, if and only if each part is a name, the first = and a value spelled |
| `FrameSeal.UnescapesExactly` | tools/testbed/src/chryso_testbed/frames.py:287-303 | a value is accepted, and reads as this, if and only if it spells this character by character: itself unless it is %, @ or =, or % and two capital hex digits |
| `FrameSeal.WrongChecksum` | tools/testbed/src/chryso_testbed/frames.py:271-272 | a printed body under any eight other hex digits is damaged, by its checksum |
| `FrameSeal.WrongLength` | tools/testbed/src/chryso_testbed/frames.py:267-270 | a printed body under any other length is damaged, by its length, whatever checksum it carries |
| `FrameSeal.DigitsAreDecimal` | tools/testbed/src/chryso_testbed/frames.py:306-312 | a number that reads has one spelling |
| `FrameSeal.ChecksumReads` | tools/testbed/src/chryso_testbed/frames.py:271-272 | different checksums are spelled by different digits |
| `FrameSeal.LengthsExactly` | tools/testbed/src/chryso_testbed/frames.py:315-324 | which texts are runs, names and checksums |
| `FrameSeal.GuessExactly` | tools/testbed/src/chryso_testbed/frames.py:327-329 | a damaged body is laid to the run it names first, and to none when it names none |
| `FramePrinter.EscapedReads` | tools/testbed/src/chryso_testbed/frames.py:287-303 | every byte string escapes to text that reads back as itself and holds no bar, @ or unprintable byte |
| `FramePrinter.DigitsOfDecimal` | tools/testbed/src/chryso_testbed/frames.py:306-312 | a printed number reads back exactly while it has at most ten digits, and not at all beyond |
| `FramePrinter.SealedParses` | tools/testbed/src/chryso_testbed/frames.py:240-273 | a printed body parses to exactly its frame, or as a syntax error if and only if its number is too long; no other body parses to it but its seals (FrameSeal.ParsesExactly) |
| `FramePrinter.RoundTrip` | tools/testbed/src/chryso_testbed/frames.py:117-132 | a printed frame gives one event from any state outside a body: the frame itself if and only if its body is shorter than MAX_BODY and its number below ten billion |
| `FramePrinter.LongestIsOversize` | tools/testbed/src/chryso_testbed/frames.py:117-132 | a frame whose body is exactly MAX_BODY long is printed and comes back as oversize |
| `FramePrinter.OvernumberedIsDamaged` | tools/testbed/src/chryso_testbed/frames.py:306-312 | a frame numbered ten billion is printed and comes back as a syntax error |
| `FramePrinter.CutBodyIsDamaged` | tools/testbed/src/chryso_testbed/frames.py:240-273 | a printed body cut anywhere before its end fails its syntax |
| `FramePrinter.Resynchronises` | tools/testbed/src/chryso_testbed/frames.py:117-132 | a frame cut anywhere after its marker and followed by an intact one gives one event for the cut one, and then exactly the intact frame |
| `FramePrinter.RunCollects` | tools/testbed/src/chryso_testbed/frames.py:184-186 | printed frames are collected one event each, in order |
| `FramePrinter.CompleteRunPasses` | tools/testbed/src/chryso_testbed/frames.py:192-221 | a run printed whole with its verdict is observed as a pass with exactly its frames |
| `HittingSets.HittingSets` | tools/testbed/src/chryso_testbed/lineage.py:91-99 | returns exactly the minimal transversals of size at most max_size, pruning each round, save for a negative max_size over no supports |
| `HittingSets.RoundExact` | tools/testbed/src/chryso_testbed/lineage.py:94-98 | one round of growing, pruning by size and keeping the minimal is exact for one more support |
| `HittingSets.MinimalIsGrown` | tools/testbed/src/chryso_testbed/lineage.py:95-97 | pruning loses nothing: every small minimal transversal of one more support grows from a kept one |
| `HittingSets.PromiseHolds` | tools/testbed/src/chryso_testbed/lineage.py:91-99 | the result is the promised set if and only if max_size is not negative or there is a support |
| `RxRing.Ring.Receive` | src/pd/beam/io/tcp.c:335-355 | an accepted segment is appended whole across the wrap; a refused one, exactly when it does not fit, changes nothing |
| `RxRing.Ring.Recv` | src/pd/beam/io/tcp.c:754-776 | hands out the oldest bytes, as many as asked or held, and reports them in window updates that sum to the bytes copied |
| `RxRing.Drive` | src/pd/beam/io/tcp.c:335-355 | any interleaving of segments and reads on the ring behaves as a bounded FIFO |
| `RxRing.DeliveredIsPrefixOfAccepted` | src/pd/beam/io/tcp.c:754-776 | bytes delivered are a prefix of bytes accepted in order, and what is left is what the queue holds |
| `RxRing.ReportWindow` | src/pd/beam/io/network/runtime_tcp_logic.h:77-79 | chunks of at most 16 bits that sum to the whole count, so no window is lost to truncation |
| `RxRing.WrappedAppend` | src/pd/beam/io/network/runtime_tcp_logic.h:31-34 | a chunk written into the free slots behind the buffered bytes extends the queue, whether or not it wraps |
| `RxRing.FreeSpanAppends` | src/pd/beam/io/network/runtime_tcp_logic.h:31-47 | the free span runs from the tail to the end of the buffer or to the oldest byte, is empty only when the ring is full, and a chunk that fits it is appended |
| `RxRing.WrappedConsume` | src/pd/beam/io/network/runtime_tcp_logic.h:49-64 | advancing the head past a read span drops exactly those bytes from the front |
| `Shrink.PropShrink` | tests/host/prop.c:26-54 | ends with a failing subsequence of the input from which removing any single element makes the property hold; elements beyond the count are untouched |
| `Shrink.Pass` | tests/host/prop.c:33-46 | one pass keeps failing and only removes; a pass of single elements that removes nothing proves one-minimality |

## Left out

- Weak memory: stores and loads interleave one at a time in program order, as the one-core image gives; the C11 orders and fences are not modelled.
- CRC-32 arithmetic; the generated checkers of the two pages are modelled from their rule tables, as accept or refuse without the class of a status page's fault.
- Microkit, seL4, lwIP and libmicrokitco calls, console logging and the assembly trampolines: `microkit_pd_restart` and `microkit_pd_stop` are recorded as calls, `microkit_notify` of a dependent is not.
- The capture and reset run with nobody else storing; the reset's own stack may hold anything, and the rest of the snapshot region is spared by execution as `RestartRuns.Spares` says.
- SpecProtocol.SpecIntegrity: the spec page starts all zero and only the modelled writer stores to it; a hostile writer is not modelled.
- SpecAtomicity.SpecAtomicity: speaks of generation, budgets and desired states; the bank number and checksum kept beside them are those of the bank Root happened to read first.
- SpecConsumer.SpecState.Consume: a null state pointer has no counterpart here.
- SpecConsumer.SpecState.Snapshot: nobody stores during the method, so its markers always agree; the copy that is interleaved with stores is the reader of SpecProtocol.
- SpecCommit.Writer.Begin: addresses are not modelled, so a misaligned page, which the source refuses like a missing one, has no counterpart.
- Status.Publisher.constructor: states the final page, not that its bytes are written before its sequence; the reader of StatusSeqlock starts once init has returned.
- StatusReader.Read: nobody stores during the method itself; the interleaved read is StatusSeqlock.SeqlockIsSound.
- RootLive.ReaderSeesCallbacks: the bytes stored during a publish are any bytes in any order that end in the published page; that the loops of the publisher leave that page is Status.Publisher.Publish.
- Presence and driver masks are sets of child numbers rather than 64-bit words, and the child table has as many entries as the ABI declares children.
- RootPd.Root.ProtectedCall: message registers are parameters, and a foreign channel's words are not read.
- FrameReader.Feed: log bytes are characters; decoding of field values to text with surrogate escapes is not modelled, values stay bytes.
- FramePrinter.RoundTrip: rendering of Erlang terms to bytes and the errors the printer raises for bad names are not modelled; frames are what it accepts.
- HittingSets.HittingSets: the result is a set; the order of the sorted list is not modelled.
- RxRing.Ring.Recv: waiting for data, socket states, FIN and errors are not modelled, only the ring and its window updates.
- Shrink.PropShrink: elements are values of any type instead of byte blocks of a given size, and the property is a pure function of the sequence.
- The reverse claim that the validator accepts only encoder output is false of the code, which also accepts other ordered records; SurvivorReplay.WalkAcceptsExactly says what it accepts.
- `lineage`, `cut`, `edit` and `candidates`, the channel layout and routing helpers of root_policy.h, the backlog queue, PCB ownership, futex, poll and epoll code, the control device gate and the timer slots: small or resting on foreign code.
