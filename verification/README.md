# Verified models of the DDR3 calibration, the danmaku frame pipeline, bootstage and bedbug

Four independent parts of the repository, each a state machine or an algorithm over mutable state, with proofs of what it promises.

**DDR3 calibration** (`Windows`, `EdgeSweep`, `Centring`, `ReadDeskew`, `DmSearch`, `WriteDeskew`, `DqsEnable`). Per-bit read and write deskew, data-mask centring and the DQS-enable search, on a register file of delay taps, for the configuration in `sequencer_defines.h` (hard PHY, one rank, `SKIP_PTAP_0_DQS_EN_CAL` 1, `ENABLE_DQS_OUT_CENTERING` 0). The hardware test is an oracle: a bit passes if and only if DQS taps minus DQ taps lies in its window; the DM test and the DQS-enable read test are arbitrary predicates on the settings. Numbers of taps, bits, picoseconds per tap and the VFIFO size are parameters.

**Danmaku** (`FrameRing`, `Pipeline`, `MessageQueue`, `FontMap`, `Frame`, `Painter`, `Picture`, `Scheduler`, `SlidingRuns`, `Resting`, `Overtaking`, `RenderOnce`, `Display`). The ring of frame buffers under every interleaving of the render and overlay threads; the text maps, the frame format and the painter; the message queue and the slot scheduler over whole runs; and one rendered frame that puts them together.

**Bootstage** (`Bootstage`). Stash and unstash between byte buffers and the record table, as a round trip.

**Bedbug** (`Bedbug`). Operand coding of the PowerPC assembler and disassembler, for any operand table with disjoint fields.

`Arithmetic` holds products built by repeated addition and facts about remainders, `Options` the type of a value that may be missing.

Methods are proved against specification functions or predicates; the lemmas named below say what those mean over all inputs, runs and states. Where a promise turned out to be false of the code, the exact condition under which it holds is proved instead:

- Read deskew succeeds if and only if every window is reachable and every DQ chain is long enough to the right (`ReadDeskew.ReadPath.Center`); it can fail although a passing setting exists (`ReadDeskew.DeskewCanMissASetting`). Two of its four clamps never fire.
- Write deskew succeeds if and only if every window is reachable, none lies wholly right of where the strobe stands, and the data-mask run starts at or left of position 0 (`WriteDeskew.ReachAndSideDiffer` shows that the first two differ). When a window is missing, it returns with the strobe at the last tap, so the strobe is back where it was if and only if it started there (`WriteDeskew.WritePath.Center`).
- In DQS-enable calibration the measured end of the window is exact unless phase 1 at delay 0 was the first working setting. Then, because of the forced phase 1 (`sequencer.c:4200-4203`), phase 2 is skipped: the end is early by one phase tap if phase 2 works; early by all the delay taps that phase 1 works at if phase 2 and the legal phase after it fail; and if only phase 2 fails, it is that of the phases beyond the gap less one phase tap, which is late if phase 1 does not work at a delay worth a whole phase tap (`DqsEnable.DqsEnPath.EndError`, `EndIsExactIff`, `EndIsLateAcrossGap`, and one input for each case in `OnePhaseLosesEnd`, `TwoPhasesEndEarly`, `GapEndsLate`). The measured start is late if and only if phase 1 was the first to work and the last phase of the pointer before, which is not looked at, works at a delay worth less than two phase taps (`BeginIsFirstIff`, `StraddlingBeginsLate`).
- The outline pass does not look at row 0 from row 1, at column 0 from column 1, nor past `edge*len` (`danmaku.c:159-161`). `FontMap.HoleIff` says which pixels next to text get no outline, `FontMap.OutlineCompleteIff` when none is missing, `FontMap.DotInRowZero` shows one.
- Pixels of an earlier text stay visible under the condition of `FontMap.NoStalePixelIff`, as in `FontMap.EarlierTextShowsThrough`.
- Two texts of a row can overlap; `Overtaking.CollisionIff` says when, and `Overtaking.FasterTextCanCollide` is a run in which they do.
- The test of a stash's record count against its size forgets the header, so 20 bytes that claim a record are accepted (`Bootstage.RecordsInsideIff`, `Bootstage.ShortImageIsAccepted`). No accepted image overruns the table, intact or not, if the size is known; with a size of -1 that needs the buffer not to lie at the very bottom of memory (`Bootstage.AcceptedFitsIff`).
- A branch operand survives assembly and disassembly only for aligned targets in reach (`Bedbug.BranchRoundTrip`); a register that is accepted survives only if its number is not negative, and `r-1` is taken for `r31` (`Bedbug.RegisterRoundTrip`, `Bedbug.NegativeRegisterIsAccepted`).

Hypotheses that the code does not check and the model states as preconditions: `5*edge <= screen_height`, screen width at most `MAX_WIDTH`, texts rendered no wider than `edge*len` and that no wider than a map, fewer than `QUEEN_SIZE` pending texts at each push, delay chains of DQS no longer than those of DQ on the read side, at least two phases after phase 0, a phase tap worth at least one delay tap and at most the delay chain, operand lists of fewer than eight known operands, whose fields do not overlap and are zero in the opcode.

## Model

| member | source | states |
|---|---|---|
| `Windows.MeetsIffSomeShiftPasses` | de1_soc_GHRD/hps_isw_handoff/soc_system_hps_0/sequencer.c:5112-5234 | a window counts as reachable exactly when some swept strobe-to-data shift passes |
| `Windows.SweepsFindWindow` | de1_soc_GHRD/hps_isw_handoff/soc_system_hps_0/sequencer.c:5112-5234 | for every window, the final state of the two sweeps is the window clipped to the swept range if it can be reached, and an illegal edge otherwise |
| `Windows.SettledStartsDqsSweep` | de1_soc_GHRD/hps_isw_handoff/soc_system_hps_0/sequencer.c:5150-5174 | withdrawing guessed right edges between the sweeps leaves exactly the state the second sweep starts from |
| `Windows.DqStopIsFinal` | de1_soc_GHRD/hps_isw_handoff/soc_system_hps_0/sequencer.c:5118-5132 | stopping the first sweep early loses nothing: the edges are already those of a full sweep |
| `Windows.DqsStopIsFinal` | de1_soc_GHRD/hps_isw_handoff/soc_system_hps_0/sequencer.c:5190-5204 | the same for the second sweep, with its own stopping condition |
| `EdgeSweep.ClearEdges` | de1_soc_GHRD/hps_isw_handoff/soc_system_hps_0/sequencer.c:5104-5110 | all edges start at the illegal value, which is the sweep's state before its first tap |
| `EdgeSweep.RecordDqTap` | de1_soc_GHRD/hps_isw_handoff/soc_system_hps_0/sequencer.c:5133-5146 | one tap of the first sweep takes every bit's edges from their state after d taps to that after d + 1 |
| `EdgeSweep.RecordDqsTap` | de1_soc_GHRD/hps_isw_handoff/soc_system_hps_0/sequencer.c:5206-5232 | one tap of the second sweep does the same, including the bits first seen in it |
| `EdgeSweep.DqStop` | de1_soc_GHRD/hps_isw_handoff/soc_system_hps_0/sequencer.c:5118-5132 | the early stop of the first sweep, for a whole group |
| `EdgeSweep.DqsStop` | de1_soc_GHRD/hps_isw_handoff/soc_system_hps_0/sequencer.c:5190-5204 | the early stop of the second sweep, for a whole group |
| `EdgeSweep.FirstMissing` | de1_soc_GHRD/hps_isw_handoff/soc_system_hps_0/sequencer.c:5248-5272 | an illegal edge is found exactly when some window is out of reach, the bit reported is the first such bit, and otherwise the edges are the clipped windows |
| `Centring.FindLeastMid` | de1_soc_GHRD/hps_isw_handoff/soc_system_hps_0/sequencer.c:5274-5284 | the group's least left edge minus right edge, and a bit that has it |
| `Centring.LevelBit` | de1_soc_GHRD/hps_isw_handoff/soc_system_hps_0/sequencer.c:5327-5341 | the clamped DQ delay of one bit puts it at its final shift; no other bit is touched |
| `Centring.LevelDq` | de1_soc_GHRD/hps_isw_handoff/soc_system_hps_0/sequencer.c:5322-5353 | all DQ delays in range and at their final shifts; the margins are the least left and right slacks over the bits, capped at the illegal value |
| `Centring.Plan.UnclampedIsBalanced` | de1_soc_GHRD/hps_isw_handoff/soc_system_hps_0/sequencer.c:5286-5341 | however the move is split between strobe and data, rounding leaves left and right slack within one tap when no DQ clamp fires |
| `Centring.Plan.ClampedSlack` | de1_soc_GHRD/hps_isw_handoff/soc_system_hps_0/sequencer.c:5333-5337 | each DQ clamp can only cost slack on one side, and how much |
| `ReadDeskew.ReadPath.constructor` | de1_soc_GHRD/hps_isw_handoff/soc_system_hps_0/sequencer.c:5068-5095 | delay chains and windows of one read group |
| `ReadDeskew.ReadPath.ApplyGroupDqIn` | de1_soc_GHRD/hps_isw_handoff/soc_system_hps_0/sequencer.c:1737-1745 | every DQ input delay of the group is set |
| `ReadDeskew.ReadPath.ReadTest` | de1_soc_GHRD/hps_isw_handoff/soc_system_hps_0/sequencer.c:3750-3837 | the test as an oracle: bit i passes exactly if the shift DQS minus DQ lies in its window |
| `ReadDeskew.ReadPath.SweepDq` | de1_soc_GHRD/hps_isw_handoff/soc_system_hps_0/sequencer.c:5102-5148 | the first sweep, early stop included, leaves the edges of a full sweep and all DQ delays at 0 |
| `ReadDeskew.ReadPath.Settle` | de1_soc_GHRD/hps_isw_handoff/soc_system_hps_0/sequencer.c:5150-5174 | guessed right edges are withdrawn; the sticky bits are those with both edges known |
| `ReadDeskew.ReadPath.SweepDqs` | de1_soc_GHRD/hps_isw_handoff/soc_system_hps_0/sequencer.c:5176-5234 | the second sweep, early stop included, leaves the edges of a full sweep |
| `ReadDeskew.ReadPath.MeasureWindows` | de1_soc_GHRD/hps_isw_handoff/soc_system_hps_0/sequencer.c:5104-5272 | all windows found and clipped exactly, or the first unreachable bit with the strobe restored |
| `ReadDeskew.ReadPath.CenterBits` | de1_soc_GHRD/hps_isw_handoff/soc_system_hps_0/sequencer.c:5274-5401 | strobe and DQ delays end in range at the planned shifts, with the margins that belong to them |
| `ReadDeskew.ReadPath.Center` | de1_soc_GHRD/hps_isw_handoff/soc_system_hps_0/sequencer.c:5068-5418 | the whole routine: success exactly when all windows are reachable and the DQ chains reach them, and then every bit passes at the final setting; margins, exported figure and failing bit as specified |
| `ReadDeskew.MarginsDecide` | de1_soc_GHRD/hps_isw_handoff/soc_system_hps_0/sequencer.c:5322-5417 | the left margin is never negative; the right margin is non-negative exactly when every DQ chain reaches its window, and then all bits pass |
| `ReadDeskew.FinalSlack` | de1_soc_GHRD/hps_isw_handoff/soc_system_hps_0/sequencer.c:5327-5353 | per bit: left slack is never lost, right slack is lost exactly when its chain is too short, and slack inside the clipped edges is slack inside the window |
| `ReadDeskew.OnlyTwoClampsCanFire` | de1_soc_GHRD/hps_isw_handoff/soc_system_hps_0/sequencer.c:5296-5337 | with all windows found, the upper strobe clamp and the lower DQ clamp are dead code |
| `ReadDeskew.StrobeMovesAllItCan` | de1_soc_GHRD/hps_isw_handoff/soc_system_hps_0/sequencer.c:5296-5313 | the strobe moves back until some DQ delay is 0, or to its own first tap |
| `ReadDeskew.SlackIsDistance` | de1_soc_GHRD/hps_isw_handoff/soc_system_hps_0/sequencer.c:5343-5352 | the slacks that the margins are made of are distances to the window's edges |
| `ReadDeskew.UnclampedDeskewBalances` | de1_soc_GHRD/hps_isw_handoff/soc_system_hps_0/sequencer.c:5274-5353 | windows for all bits and no DQ clamp: success, with slacks within one tap, even if the strobe clamp fired |
| `ReadDeskew.DeskewCanMissASetting` | de1_soc_GHRD/hps_isw_handoff/soc_system_hps_0/sequencer.c:5286-5337 | a group that some setting makes pass but deskew gives up on: success is not complete |
| `WriteDeskew.WritePath.constructor` | de1_soc_GHRD/hps_isw_handoff/soc_system_hps_0/sequencer.c:7193-7225 | delay chains, windows and DM predicate of one write group |
| `WriteDeskew.WritePath.ApplyGroupDqOut1` | de1_soc_GHRD/hps_isw_handoff/soc_system_hps_0/sequencer.c:1749-1757 | every DQ output delay of the group is set |
| `WriteDeskew.WritePath.ApplyGroupDmOut1` | de1_soc_GHRD/hps_isw_handoff/soc_system_hps_0/sequencer.c:1771-1779 | every DM output delay is set |
| `WriteDeskew.WritePath.ApplyGroupDqs` | de1_soc_GHRD/hps_isw_handoff/soc_system_hps_0/sequencer.c:1783-1790 | DQS and OCT delay are set together |
| `WriteDeskew.WritePath.WriteTest` | de1_soc_GHRD/hps_isw_handoff/soc_system_hps_0/sequencer.c:6382-6439 | the write test as an oracle on the shift DQS minus DQ |
| `WriteDeskew.WritePath.SweepDq` | de1_soc_GHRD/hps_isw_handoff/soc_system_hps_0/sequencer.c:7227-7268 | the first write sweep leaves the edges of a full sweep |
| `WriteDeskew.WritePath.Settle` | de1_soc_GHRD/hps_isw_handoff/soc_system_hps_0/sequencer.c:7270-7294 | as on the read side, but a known left edge is enough for the sticky bit |
| `WriteDeskew.WritePath.SweepDqs` | de1_soc_GHRD/hps_isw_handoff/soc_system_hps_0/sequencer.c:7296-7353 | the second write sweep leaves the edges of a full sweep, and the strobe at the last tap unless it stopped early with every window seen; with a repeatable test its marginal case changes nothing |
| `WriteDeskew.WritePath.MarkMarginal` | de1_soc_GHRD/hps_isw_handoff/soc_system_hps_0/sequencer.c:7316-7325 | which right edges the marginal case would set to -1 |
| `WriteDeskew.WritePath.MeasureWindows` | de1_soc_GHRD/hps_isw_handoff/soc_system_hps_0/sequencer.c:7227-7376 | all windows found and clipped exactly, or the first unreachable bit, with the strobe left at the last tap |
| `WriteDeskew.WritePath.CenterBits` | de1_soc_GHRD/hps_isw_handoff/soc_system_hps_0/sequencer.c:7378-7470 | the strobe returns to its start, every DQ delay is in range at its planned shift, margins as specified |
| `WriteDeskew.MarginsDecide` | de1_soc_GHRD/hps_isw_handoff/soc_system_hps_0/sequencer.c:7423-7456 | both margins are non-negative exactly when no window lies wholly right of the strobe, and then all bits pass |
| `WriteDeskew.ReachAndSideDiffer` | de1_soc_GHRD/hps_isw_handoff/soc_system_hps_0/sequencer.c:7367-7456 | an unreachable window left of the strobe, and a reachable one right of it |
| `WriteDeskew.FinalSlack` | de1_soc_GHRD/hps_isw_handoff/soc_system_hps_0/sequencer.c:7423-7456 | per bit: right slack is never lost, left slack is lost exactly when the window starts right of the strobe |
| `WriteDeskew.SlackIsDistance` | de1_soc_GHRD/hps_isw_handoff/soc_system_hps_0/sequencer.c:7446-7455 | the slacks that the margins are made of are distances to the window's edges |
| `WriteDeskew.UnclampedDeskewBalances` | de1_soc_GHRD/hps_isw_handoff/soc_system_hps_0/sequencer.c:7378-7456 | no DQ clamp: both margins are non-negative and slacks are within one tap |
| `DmSearch.Visit` | de1_soc_GHRD/hps_isw_handoff/soc_system_hps_0/sequencer.c:7626-7645 | one test of the search updates the open and the best run exactly, whether the position is new or tested again |
| `DmSearch.ExtendPass` | de1_soc_GHRD/hps_isw_handoff/soc_system_hps_0/sequencer.c:7628-7640 | a passing position extends the open run and replaces the best run only if longer, so the leftmost longest one stays |
| `DmSearch.ExtendFail` | de1_soc_GHRD/hps_isw_handoff/soc_system_hps_0/sequencer.c:7641-7645 | a failing position leaves the best run alone |
| `DmSearch.OpenIsNotBetter` | de1_soc_GHRD/hps_isw_handoff/soc_system_hps_0/sequencer.c:7651-7682 | position 0, tested by both halves, is not counted twice |
| `DmSearch.EarlyExitIsExact` | de1_soc_GHRD/hps_isw_handoff/soc_system_hps_0/sequencer.c:7689-7692 | after the early exit the best run of the whole axis is already known |
| `DmSearch.BestIsUnique` | de1_soc_GHRD/hps_isw_handoff/soc_system_hps_0/sequencer.c:7611-7695 | the leftmost longest run is determined by the pass predicate alone |
| `WriteDeskew.WritePath.SearchByDm` | de1_soc_GHRD/hps_isw_handoff/soc_system_hps_0/sequencer.c:7611-7648 | the downward half covers positions -max to 0 |
| `WriteDeskew.WritePath.TestShift` | de1_soc_GHRD/hps_isw_handoff/soc_system_hps_0/sequencer.c:7661-7668 | the test at a strobe shift d is the predicate at position +d |
| `WriteDeskew.WritePath.SearchByDqs` | de1_soc_GHRD/hps_isw_handoff/soc_system_hps_0/sequencer.c:7651-7695 | the upward half, early exit included, yields the leftmost longest run of the joined axis |
| `WriteDeskew.WritePath.CenterDm` | de1_soc_GHRD/hps_isw_handoff/soc_system_hps_0/sequencer.c:7611-7728 | for every pass predicate: the run found is the leftmost longest, the DM delay its middle as far as it can move, the margin -1 without a run |
| `WriteDeskew.DmDelayIsInRun` | de1_soc_GHRD/hps_isw_handoff/soc_system_hps_0/sequencer.c:7697-7728 | the margin is non-negative exactly when the run does not start right of 0, and then the DM delay is inside it |
| `WriteDeskew.WritePath.SettleDm` | de1_soc_GHRD/hps_isw_handoff/soc_system_hps_0/sequencer.c:7611-7728 | a non-negative DM margin means the DM test passes at the delay finally programmed |
| `WriteDeskew.WritePath.CenterAll` | de1_soc_GHRD/hps_isw_handoff/soc_system_hps_0/sequencer.c:7378-7905 | DQ half, DM half and exported figure from known windows |
| `WriteDeskew.WritePath.Center` | de1_soc_GHRD/hps_isw_handoff/soc_system_hps_0/sequencer.c:7193-7909 | the whole routine: success exactly when all windows are reachable, none lies right of the strobe and the DM margin is non-negative; then every bit and the DM test pass at the final setting; with a window missing, the strobe is left at the last tap and so restored exactly if it started there |
| `DqsEnable.DqsEnPath.constructor` | de1_soc_GHRD/hps_isw_handoff/soc_system_hps_0/sequencer.c:4029-4066 | the settings before the search |
| `DqsEnable.DqsEnPath.SetPhase` | de1_soc_GHRD/hps_isw_handoff/soc_system_hps_0/sequencer.c:4205-4205 | only phases 1 to max are ever programmed: the log of phases grows by a legal one |
| `DqsEnable.DqsEnPath.SetDelay` | de1_soc_GHRD/hps_isw_handoff/soc_system_hps_0/sequencer.c:4212-4212 | the same for delays 0 to max |
| `DqsEnable.DqsEnPath.IncrVfifo` | de1_soc_GHRD/hps_isw_handoff/soc_system_hps_0/sequencer.c:3860-3891 | pointer and software count advance together |
| `DqsEnable.DqsEnPath.DecrVfifo` | de1_soc_GHRD/hps_isw_handoff/soc_system_hps_0/sequencer.c:3908-3915 | going once around but one is a decrement: the count stays congruent to the pointer |
| `DqsEnable.DqsEnPath.CountDtaps` | de1_soc_GHRD/hps_isw_handoff/soc_system_hps_0/sequencer.c:4068-4077 | delay taps per phase tap: the greatest number strictly below one phase tap |
| `DqsEnable.DqsEnPath.PushToFailing` | de1_soc_GHRD/hps_isw_handoff/soc_system_hps_0/sequencer.c:4106-4127 | the second pointer to fail at phase 1, counted from the start; none is found exactly if at most one pointer fails there |
| `DqsEnable.DqsEnPath.PointersDiffer` | de1_soc_GHRD/hps_isw_handoff/soc_system_hps_0/sequencer.c:3860-3915 | no pointer comes twice within a round |
| `DqsEnable.DqsEnPath.TryPhases` | de1_soc_GHRD/hps_isw_handoff/soc_system_hps_0/sequencer.c:4131-4178 | the first working phase at a pointer and delay, or none works |
| `DqsEnable.DqsEnPath.TryPointers` | de1_soc_GHRD/hps_isw_handoff/soc_system_hps_0/sequencer.c:4131-4178 | the first pointer with a working phase, all before it dead |
| `DqsEnable.DqsEnPath.FindWorking` | de1_soc_GHRD/hps_isw_handoff/soc_system_hps_0/sequencer.c:4131-4178 | the first working setting in search order with its nominal time; on failure every setting tried is dead |
| `DqsEnable.DqsEnPath.AllDead` | de1_soc_GHRD/hps_isw_handoff/soc_system_hps_0/sequencer.c:4131-4178 | then no legal phase works at any pointer and any delay below one phase tap |
| `DqsEnable.DqsEnPath.RefineBegin` | de1_soc_GHRD/hps_isw_handoff/soc_system_hps_0/sequencer.c:4184-4219 | the start of the window is the first working delay, below one phase tap, of the phase before, if that is legal and has one; else the first working setting itself |
| `DqsEnable.DqsEnPath.BackUpPhase` | de1_soc_GHRD/hps_isw_handoff/soc_system_hps_0/sequencer.c:4353-4371 | one phase back, across the VFIFO step |
| `DqsEnable.DqsEnPath.AdvancePhase` | de1_soc_GHRD/hps_isw_handoff/soc_system_hps_0/sequencer.c:4297-4314 | one phase forward, across the VFIFO step |
| `DqsEnable.DqsEnPath.StepPastFirst` | de1_soc_GHRD/hps_isw_handoff/soc_system_hps_0/sequencer.c:4297-4314 | two phases forward; the time counted runs one phase tap behind exactly when phase 1 at delay 0 was the first to work |
| `DqsEnable.DqsEnPath.PassWorkingPhases` | de1_soc_GHRD/hps_isw_handoff/soc_system_hps_0/sequencer.c:4318-4334 | phases upwards until one fails, phase 0 skipped as working |
| `DqsEnable.DqsEnPath.FindFailingPhase` | de1_soc_GHRD/hps_isw_handoff/soc_system_hps_0/sequencer.c:4316-4351 | the first failing phase with its time, all legal phases before it working; otherwise none of the phases it looks at fails |
| `DqsEnable.DqsEnPath.BackOffEnd` | de1_soc_GHRD/hps_isw_handoff/soc_system_hps_0/sequencer.c:4353-4375 | one legal phase back from the failing one, with its time |
| `DqsEnable.DqsEnPath.EdgesByPhase` | de1_soc_GHRD/hps_isw_handoff/soc_system_hps_0/sequencer.c:4184-4375 | both ends of a window that covers a phase tap; no end is found exactly when no phase that is looked at fails |
| `DqsEnable.DqsEnPath.EndByPhase` | de1_soc_GHRD/hps_isw_handoff/soc_system_hps_0/sequencer.c:4297-4375 | the legal phase before the first failing one, exactly when there is one |
| `DqsEnable.DqsEnPath.NoEndMeansAllWork` | de1_soc_GHRD/hps_isw_handoff/soc_system_hps_0/sequencer.c:4347-4351 | without an end, every legal phase works at some VFIFO pointer |
| `DqsEnable.DqsEnPath.NoEndIff` | de1_soc_GHRD/hps_isw_handoff/soc_system_hps_0/sequencer.c:4316-4351 | exactly which phases of which pointers are looked at for the end |
| `DqsEnable.DqsEnPath.LastPhaseWorks` | de1_soc_GHRD/hps_isw_handoff/soc_system_hps_0/sequencer.c:4297-4369 | the phase settled on works, unless phase 1 was the first to work and phase 2 and the legal phase after it fail; then it is that phase 2 |
| `DqsEnable.DqsEnPath.RightEdge` | de1_soc_GHRD/hps_isw_handoff/soc_system_hps_0/sequencer.c:4401-4415 | the last working delay before the first failing one |
| `DqsEnable.DqsEnPath.FindEdges` | de1_soc_GHRD/hps_isw_handoff/soc_system_hps_0/sequencer.c:4180-4415 | both ends, whichever branch found them: the setting the end belongs to and the delay at which the search stopped are determined, its time is work_end, one phase tap more when phase 1 at delay 0 was the first to work |
| `DqsEnable.DqsEnPath.MeasureDtaps` | de1_soc_GHRD/hps_isw_handoff/soc_system_hps_0/sequencer.c:4447-4521 | the tracking value: one legal phase back, the delay taps from a given delay to the first failure after a working one, else the static value |
| `DqsEnable.DqsEnPath.CountToEdge` | de1_soc_GHRD/hps_isw_handoff/soc_system_hps_0/sequencer.c:4477-4511 | the count itself, in its two loops |
| `DqsEnable.Config.ReducedIsSamePlace` | de1_soc_GHRD/hps_isw_handoff/soc_system_hps_0/sequencer.c:4530-4533 | the reduced centre differs from the centre by whole VFIFO cycles |
| `DqsEnable.DqsEnPath.ReduceCentre` | de1_soc_GHRD/hps_isw_handoff/soc_system_hps_0/sequencer.c:4526-4533 | whole VFIFO cycles are taken off the centre |
| `DqsEnable.DqsEnPath.CentreSetting` | de1_soc_GHRD/hps_isw_handoff/soc_system_hps_0/sequencer.c:4534-4554 | less than one delay tap above the centre reduced by whole cycles, or phase 1 delay 0 when that lies in phase 0 |
| `DqsEnable.DqsEnPath.PushToWorking` | de1_soc_GHRD/hps_isw_handoff/soc_system_hps_0/sequencer.c:4556-4572 | the first pointer from there on at which the centre setting works, or none does |
| `DqsEnable.DqsEnPath.EveryPointer` | de1_soc_GHRD/hps_isw_handoff/soc_system_hps_0/sequencer.c:4556-4572 | VFIFO_SIZE pushes visit every pointer |
| `DqsEnable.DqsEnPath.RoundsKeepPointer` | de1_soc_GHRD/hps_isw_handoff/soc_system_hps_0/sequencer.c:3860-3915 | whole rounds of increments leave the pointer where it was |
| `DqsEnable.DqsEnPath.PointerShift` | de1_soc_GHRD/hps_isw_handoff/soc_system_hps_0/sequencer.c:3860-3915 | two counts that agree keep agreeing under further steps |
| `DqsEnable.DqsEnPath.MeasureWindow` | de1_soc_GHRD/hps_isw_handoff/soc_system_hps_0/sequencer.c:4056-4421 | steps 0 to 5: the window, and an end is missing exactly when no phase looked at fails |
| `DqsEnable.DqsEnPath.EndError` | de1_soc_GHRD/hps_isw_handoff/soc_system_hps_0/sequencer.c:4197-4421 | how far work_end lies from the end of the window that begins at the first working setting, an end defined without the search: nothing, one phase tap early, all delay taps of phase 1 early, or beyond a gap at phase 2 |
| `DqsEnable.DqsEnPath.EndIsExactIff` | de1_soc_GHRD/hps_isw_handoff/soc_system_hps_0/sequencer.c:4197-4421 | exact condition for work_end to be that end |
| `DqsEnable.DqsEnPath.EndIsLateAcrossGap` | de1_soc_GHRD/hps_isw_handoff/soc_system_hps_0/sequencer.c:4197-4421 | across a gap at phase 2 work_end is late, if phase 1 does not work at a delay worth a whole phase tap |
| `DqsEnable.DqsEnPath.RunEndIsUnique` | de1_soc_GHRD/hps_isw_handoff/soc_system_hps_0/sequencer.c:4316-4351 | the last phase of the window is determined by the read test |
| `DqsEnable.DqsEnPath.SettledOnRunEnd` | de1_soc_GHRD/hps_isw_handoff/soc_system_hps_0/sequencer.c:4297-4369 | the search settles on it, unless it skipped a failing phase 2 |
| `DqsEnable.DqsEnPath.BeginIsFirstIff` | de1_soc_GHRD/hps_isw_handoff/soc_system_hps_0/sequencer.c:4184-4219 | exact condition for work_bgn to come before every working delay of the legal phase before |
| `DqsEnable.OnePhaseLosesEnd` | de1_soc_GHRD/hps_isw_handoff/soc_system_hps_0/sequencer.c:4197-4314 | a window of phase 1 alone with delays 0 to e: work_end misses all e delay taps |
| `DqsEnable.TwoPhasesEndEarly` | de1_soc_GHRD/hps_isw_handoff/soc_system_hps_0/sequencer.c:4197-4314 | a window of phases 1 and 2: work_end is one phase tap early |
| `DqsEnable.GapEndsLate` | de1_soc_GHRD/hps_isw_handoff/soc_system_hps_0/sequencer.c:4197-4314 | phases 1 and 3 alone: work_end is the time of phase 2, which fails |
| `DqsEnable.StraddlingBeginsLate` | de1_soc_GHRD/hps_isw_handoff/soc_system_hps_0/sequencer.c:4184-4219 | a window that starts at the pointer before: work_bgn is 124 ps late |
| `DqsEnable.SampleRun` | de1_soc_GHRD/hps_isw_handoff/soc_system_hps_0/sequencer.c:4029-4589 | the routine does measure a window on such inputs |
| `DqsEnable.SamplesQualify` | de1_soc_GHRD/hps_isw_handoff/soc_system_hps_0/sequencer.c:4029-4589 | all four inputs are such |
| `DqsEnable.DqsEnPath.SettleOnCentre` | de1_soc_GHRD/hps_isw_handoff/soc_system_hps_0/sequencer.c:4447-4572 | the tracking value counted from where the end search stopped; the centre setting, at the nearest pointer where its read test passes, or none does |
| `DqsEnable.DqsEnPath.FindPhase` | de1_soc_GHRD/hps_isw_handoff/soc_system_hps_0/sequencer.c:4029-4589 | the whole routine: every phase and delay ever programmed is legal, count and pointer stay congruent; the search starts at the second failing pointer; success means the centre setting passed its test, at the nearest pointer where it does; the tracking value left is the exact count or the static number; no failing read, no working phase and a missing end are each characterised by an if-and-only-if, and the null-range failure never occurs |
| `FrameRing.Ring.constructor` | Host-Program/ring.c:7-7 | an empty ring |
| `FrameRing.Ring.RingSize` | Host-Program/ring.c:9-15 | the fill level |
| `FrameRing.Ring.GetFilledBuffer` | Host-Program/ring.c:16-26 | the oldest filled buffer, or -1 when empty |
| `FrameRing.Ring.GetEmptyBuffer` | Host-Program/ring.c:27-37 | the buffer to fill, or -1 when full |
| `FrameRing.Ring.ReleaseBuffer` | Host-Program/ring.c:38-44 | the fill level drops by one, under the source's assertion |
| `FrameRing.Ring.CommitBuffer` | Host-Program/ring.c:45-53 | the fill level rises by one, under the source's assertion |
| `Pipeline.StepInv` | Host-Program/danmaku.c:582-668 | every step of either thread keeps the protocol's invariant |
| `Pipeline.RunInv` | Host-Program/danmaku.c:582-668 | so does every interleaved run |
| `Pipeline.ShowStepInv` | Host-Program/danmaku.c:640-666 | the overlay thread's steps keep the invariant |
| `Pipeline.TransmitSendsOldest` | Host-Program/danmaku.c:644-644 | a transmission sends the oldest commit still in the ring, unchanged |
| `Pipeline.ThreadsNeverCollide` | Host-Program/danmaku.c:582-668 | in every interleaving: no assertion fails, the threads never touch the same buffer, the transmitted index is a buffer, and the ring never runs empty again |
| `Pipeline.HeldBufferIsStable` | Host-Program/danmaku.c:643-661 | no step of either thread changes the buffer being shown; it holds a commit as committed |
| `Pipeline.LogIsPrefix` | Host-Program/danmaku.c:643-661 | without consecutive repeats the log is a prefix of the commits |
| `Pipeline.FramesArriveInOrder` | Host-Program/danmaku.c:594-661 | over every run, the frames transmitted, repeats removed, are a prefix of the frames committed |
| `Pipeline.ShowsOnly` | Host-Program/danmaku.c:610-644 | in every interleaving, what holds of every frame whose drawing finishes holds of every frame sent |
| `Display.EverythingShownIsAPicture` | Host-Program/danmaku.c:495-644 | if every finished frame is a picture, as RenderOnce makes it, then everything sent is, and reads back as its lines |
| `Pipeline.StepProgress` | Host-Program/danmaku.c:594-661 | each effective step of the thread that can move brings the ring nearer to moving, and the other thread never sets it back |
| `Pipeline.RunProgress` | Host-Program/danmaku.c:594-661 | the same over runs |
| `Pipeline.PipelineNeverStalls` | Host-Program/danmaku.c:594-661 | from every reachable state, any continuation with enough steps of both threads moves the ring: no mutual waiting |
| `Pipeline.OverlayReleases` | Host-Program/danmaku.c:643-661 | with more than two buffers filled, five effective overlay steps release one, whatever the other thread does |
| `Pipeline.TwoStay` | Host-Program/danmaku.c:649-649 | with two or fewer, none is released |
| `MessageQueue.Queue.constructor` | Host-Program/danmaku.c:425-429 | an empty queue |
| `MessageQueue.Queue.Fetch` | Host-Program/danmaku.c:431-439 | the first pending text, exactly if there is one |
| `MessageQueue.Queue.Pop` | Host-Program/danmaku.c:441-446 | the first pending text goes |
| `MessageQueue.Queue.ClearQueen` | Host-Program/danmaku.c:448-456 | the overlapping in-place copy keeps the pending texts |
| `MessageQueue.Queue.Push` | Host-Program/danmaku.c:458-464 | the text is appended, with or without compaction |
| `FontMap.WriteFontMap` | Host-Program/danmaku.c:117-167 | the map afterwards, pixel by pixel, is text, outline, blank or what it showed before |
| `FontMap.MapShowsText` | Host-Program/danmaku.c:128-165 | the colour exactly where the grey value is below 128, its three-bit complement or blank elsewhere |
| `FontMap.Outline` | Host-Program/danmaku.c:153-166 | the outline pass, with its two uneven border conditions |
| `FontMap.HoleIff` | Host-Program/danmaku.c:157-162 | which pixels next to text get no outline: exactly those whose only text neighbours are above in row 1, left in column 1, or right past edge * len |
| `FontMap.OutlineCompleteIff` | Host-Program/danmaku.c:153-166 | exact condition on the text for every pixel next to it to be outlined |
| `FontMap.DotInRowZero` | Host-Program/danmaku.c:160-160 | a dot in row 0 is outlined on both sides but not below |
| `FontMap.NoStalePixelIff` | Host-Program/danmaku.c:120-165 | exact condition for the drawn part to be free of pixels left by an earlier text |
| `FontMap.EarlierTextShowsThrough` | Host-Program/danmaku.c:120-165 | two texts after each other in one map, with a pixel of the first showing in the second |
| `FontMap.NarrowTextHasNoSync` | Host-Program/danmaku.c:120-165 | a text no wider than edge * len brings no sync code onto the screen |
| `Frame.ImageIsItsLines` | Host-Program/danmaku.c:686-686 | the image size is exactly (w+2)*h and a multiple of 8, as the transmit routine asserts |
| `Frame.ImageFitsBuffer` | Host-Program/danmaku_driver.c:286-286 | for screens up to the maximal height it also fits the frame buffer, as asserted there |
| `Frame.BlankOneLine` | Host-Program/danmaku.c:244-252 | one line of the template |
| `Frame.CloseBlankScreen` | Host-Program/danmaku.c:253-260 | padding and the two closing VSYNC bytes |
| `Frame.InitBlankScreen` | Host-Program/danmaku.c:240-262 | the template is its blank lines, each closed by HSYNC, the last by VSYNC |
| `Painter.CopyLines` | Host-Program/danmaku.c:231-237 | the row copies paint the sprite's lines and nothing else |
| `Painter.SlidingWritePixels` | Host-Program/danmaku.c:213-238 | clipped copies paint exactly the covered pixels at the matching source column; disabled or off-screen layers paint nothing |
| `Painter.StaticWritePixels` | Host-Program/danmaku.c:334-360 | the same for a centred resting text |
| `Painter.RestingTextIsCentred` | Host-Program/danmaku.c:343-348 | a resting text leaves as much room left as right, give or take a pixel |
| `Picture.TopmostWins` | Host-Program/danmaku.c:557-568 | the picture's pixel is that of the last covering layer in draw order, else the template's |
| `Picture.TemplateShowsNothing` | Host-Program/danmaku.c:264-282 | a cleared buffer is the picture of no layers |
| `Picture.PaintingAddsLayer` | Host-Program/danmaku.c:557-568 | drawing a layer refines adding it on top of the scene |
| `Picture.LineReadsBack` | Host-Program/danmaku.c:244-260 | each line is width non-sync bytes and its two closing bytes |
| `Picture.FrameParses` | Host-Program/danmaku.c:495-569 | a completed frame parses as exactly height lines of width pixels, which are the picture |
| `Display.MovingTextIsShown` | Host-Program/danmaku.c:213-238 | in plain byte positions: a moving text's map shows where no later layer covers it |
| `Display.RestingTextIsShown` | Host-Program/danmaku.c:334-360 | the same for a resting text, from its centred first column |
| `Display.BareScreenIsBlank` | Host-Program/danmaku.c:240-262 | where no text lies the byte is 0x1d, lines end in 0xe 0xe, the last in 0xf 0xf |
| `Scheduler.FirstFree` | Host-Program/danmaku.c:378-395 | the first cell in row order that is empty with no other text of its row still entering |
| `Scheduler.SlidingNextCycle` | Host-Program/danmaku.c:190-200 | one frame of motion of one text |
| `Scheduler.SlidingSetDanmu` | Host-Program/danmaku.c:202-210 | a text put into an empty slot |
| `Scheduler.RowIsBusy` | Host-Program/danmaku.c:381-388 | a free slot is refused exactly if another text of its row is still entering |
| `Scheduler.InsertSliding` | Host-Program/danmaku.c:375-399 | the nested search places the text in the first free cell, or fails without change |
| `SlidingRuns.FrameInv` | Host-Program/danmaku.c:530-555 | every frame keeps the scheduler's invariant |
| `SlidingRuns.RunInv` | Host-Program/danmaku.c:530-555 | so does every run |
| `SlidingRuns.TextsPlacedInOrder` | Host-Program/danmaku.c:533-538 | over every run, placed texts followed by pending ones are the texts that arrived, none lost, repeated or reordered |
| `SlidingRuns.RowsStayReadable` | Host-Program/danmaku.c:375-399 | in every reachable state a row has at most one entering text, and a later text that is not faster shares no column with an earlier one |
| `SlidingRuns.TextIsGoneInTime` | Host-Program/danmaku.c:190-210 | every text is gone by its 384th frame |
| `SlidingRuns.SpeedIsLeast` | Host-Program/danmaku.c:209-209 | no lower speed would get the text across in 384 frames |
| `SlidingRuns.HeadIsPlacedInTime` | Host-Program/danmaku.c:533-552 | from every reachable state the text at the queue head is placed no later than the 384th frame that tries it |
| `Overtaking.PositionAfter` | Host-Program/danmaku.c:190-200 | where a text is after n frames, and when it is gone |
| `Overtaking.TextPath` | Host-Program/danmaku.c:190-210 | a new text enters at the right edge, moves by its speed and is gone exactly when its right end has left |
| `Overtaking.CollisionIff` | Host-Program/danmaku.c:190-210 | exact condition, on widths and positions at placement, for a text to run into an earlier one of its row |
| `Overtaking.FasterTextCanCollide` | Host-Program/danmaku.c:190-399 | a run from the start after which two texts of a row share a column |
| `Resting.StaticSlot` | Host-Program/danmaku.c:401-415 | the first free resting slot, or with none free the one drawn by lot |
| `Resting.OnlyLotReplaces` | Host-Program/danmaku.c:401-415 | a text is replaced before its time only with all slots taken and the lot on it |
| `Resting.RestingAges` | Host-Program/danmaku.c:324-332 | left alone, a placed text is enabled for less than 300 frames of ageing, map, row and width unchanged |
| `Resting.RestingTextLasts` | Host-Program/danmaku.c:324-332 | in any run, a placed text that is not replaced is shown in exactly its first 299 frames |
| `Resting.WaitingGetsShorter` | Host-Program/danmaku.c:540-545 | each frame takes the first of the waiting texts |
| `RenderOnce.InsertStatic` | Host-Program/danmaku.c:401-415 | the loop with its fallback places the text in that slot |
| `RenderOnce.ForceStaticSetDanmu` | Host-Program/danmaku.c:306-312 | only the chosen slot changes |
| `RenderOnce.NextCycle` | Host-Program/danmaku.c:547-555 | all layers move one frame of the models whose texts last 384 and 300 frames |
| `RenderOnce.DrawLayers` | Host-Program/danmaku.c:557-568 | clear plus all copies: the buffer is the picture of the layers and parses as its lines |
| `RenderOnce.InitSlidingLayers` | Host-Program/danmaku.c:183-188 | sliding layers before the first frame |
| `RenderOnce.InitStaticLayers` | Host-Program/danmaku.c:297-304 | resting layers before the first frame |
| `RenderOnce.Danmaku.constructor` | Host-Program/danmaku.c:744-756 | the program's state before the first frame |
| `RenderOnce.Danmaku.TakeInput` | Host-Program/danmaku.c:499-528 | a line of input goes to the queue its first character names; a button press fills the resting queue |
| `RenderOnce.Danmaku.LineGoesWhereItSays` | Host-Program/danmaku.c:499-528 | which queue each kind of line goes to |
| `RenderOnce.Danmaku.PlaceSliding` | Host-Program/danmaku.c:533-538 | fetch, insert and pop are one placement of the run model |
| `RenderOnce.Danmaku.PlaceStill` | Host-Program/danmaku.c:540-545 | a waiting resting text is always placed |
| `RenderOnce.Danmaku.RenderOnce` | Host-Program/danmaku.c:495-569 | a whole frame: one step of the run model of the moving texts and one of that of the resting texts, and a buffer that is the picture of the layers and parses as its lines |
| `RenderOnce.Danmaku.DisplayIsPicture` | Host-Program/danmaku.c:495-569 | such a buffer is a picture in the sense that everything sent is |
| `Bootstage.DigitsReadBack` | de1_soc_GHRD/software/spl_bsp/uboot-socfpga/common/bootstage.c:152-155 | the digits of a generated name say the record's number |
| `Bootstage.NamesAreNotCut` | de1_soc_GHRD/software/spl_bsp/uboot-socfpga/common/bootstage.c:147-158 | generated names always fit their 20-byte buffer |
| `Bootstage.NameOfIsName` | de1_soc_GHRD/software/spl_bsp/uboot-socfpga/common/bootstage.c:147-158 | a record's own name, else user_ and the decimal number above 171, else id= and the decimal number |
| `Bootstage.LiveIff` | de1_soc_GHRD/software/spl_bsp/uboot-socfpga/common/bootstage.c:349-352 | the records stashed are exactly those with a time |
| `Bootstage.LivePlace` | de1_soc_GHRD/software/spl_bsp/uboot-socfpga/common/bootstage.c:349-352 | each after those that come before it |
| `Bootstage.HeaderLayout` | de1_soc_GHRD/software/spl_bsp/uboot-socfpga/common/bootstage.c:334-346 | the header byte by byte |
| `Bootstage.RecordLayout` | de1_soc_GHRD/software/spl_bsp/uboot-socfpga/common/bootstage.c:348-352 | a record byte by byte |
| `Bootstage.WordRoundTrip` | de1_soc_GHRD/software/spl_bsp/uboot-socfpga/common/bootstage.c:343-345 | a stored word reads back |
| `Bootstage.RecordRoundTrip` | de1_soc_GHRD/software/spl_bsp/uboot-socfpga/common/bootstage.c:348-352 | a stored record reads back |
| `Bootstage.Table.AppendData` | de1_soc_GHRD/software/spl_bsp/uboot-socfpga/common/bootstage.c:309-318 | the cursor always moves, the bytes are written only if they fit, and nothing else changes |
| `Bootstage.Table.CountLive` | de1_soc_GHRD/software/spl_bsp/uboot-socfpga/common/bootstage.c:337-342 | the number of records with a time |
| `Bootstage.Table.AppendRecords` | de1_soc_GHRD/software/spl_bsp/uboot-socfpga/common/bootstage.c:348-352 | the records with a time, in table order, as far as they fit |
| `Bootstage.Table.AppendNames` | de1_soc_GHRD/software/spl_bsp/uboot-socfpga/common/bootstage.c:354-362 | their names with terminators, as far as they fit |
| `Bootstage.Table.Stash` | de1_soc_GHRD/software/spl_bsp/uboot-socfpga/common/bootstage.c:320-375 | success exactly when everything fits; the image then; otherwise a header of size 0; never a byte past the end; the header is untouched if it does not fit |
| `Bootstage.Table.Check` | de1_soc_GHRD/software/spl_bsp/uboot-socfpga/common/bootstage.c:385-421 | the tests, in order, in 32-bit arithmetic |
| `Bootstage.Table.ReadRecords` | de1_soc_GHRD/software/spl_bsp/uboot-socfpga/common/bootstage.c:425-427 | records read in place after those already there |
| `Bootstage.Table.ReadNames` | de1_soc_GHRD/software/spl_bsp/uboot-socfpga/common/bootstage.c:429-436 | names found one after the other |
| `Bootstage.Table.Unstash` | de1_soc_GHRD/software/spl_bsp/uboot-socfpga/common/bootstage.c:377-443 | for every memory: accepts exactly by its tests, and then the version and magic bytes are there; then the decoded records are spliced into the table, nothing else changing; rejected, no change; and when an accepted image leads past the end of memory |
| `Bootstage.AcceptsIff` | de1_soc_GHRD/software/spl_bsp/uboot-socfpga/common/bootstage.c:385-421 | in plain numbers, exactly what is accepted |
| `Bootstage.AcceptedIsMarked` | de1_soc_GHRD/software/spl_bsp/uboot-socfpga/common/bootstage.c:393-414 | nothing without the bytes of version 0 and of the magic number is accepted |
| `Bootstage.TamperedIsRejected` | de1_soc_GHRD/software/spl_bsp/uboot-socfpga/common/bootstage.c:393-414 | changing any of those bytes makes sure of rejection |
| `Bootstage.RoomDecides` | de1_soc_GHRD/software/spl_bsp/uboot-socfpga/common/bootstage.c:385-401 | a stashed image is restored exactly if it fits the size, or with size -1 ends before the last address |
| `Bootstage.AcceptedFits` | de1_soc_GHRD/software/spl_bsp/uboot-socfpga/common/bootstage.c:416-421 | nothing that is accepted overruns the table, intact or not, if the buffer does not end within 20 bytes per table entry of the top of the address range |
| `Bootstage.AcceptedFitsIff` | de1_soc_GHRD/software/spl_bsp/uboot-socfpga/common/bootstage.c:398-421 | exact condition on the end of the buffer for that |
| `Bootstage.RecordsInsideIff` | de1_soc_GHRD/software/spl_bsp/uboot-socfpga/common/bootstage.c:403-408 | accepted records run past the size by at most the header, and exact condition for them not to |
| `Bootstage.ShortImageIsAccepted` | de1_soc_GHRD/software/spl_bsp/uboot-socfpga/common/bootstage.c:403-408 | 20 bytes that claim one record are accepted though its record lies outside |
| `Bootstage.StringsReadBack` | de1_soc_GHRD/software/spl_bsp/uboot-socfpga/common/bootstage.c:429-436 | string k of the names is found where string k was written |
| `Bootstage.StashedIsCarried` | de1_soc_GHRD/software/spl_bsp/uboot-socfpga/common/bootstage.c:320-375 | header fields, records and names of a stashed image lie where the reader looks |
| `Bootstage.RoundTrip` | de1_soc_GHRD/software/spl_bsp/uboot-socfpga/common/bootstage.c:320-443 | unstashing a stash into a table with room appends exactly the records with non-zero time, in order, fields equal, each with its own name or the generated one, spelled out |
| `Bootstage.UnfinishedIsRejected` | de1_soc_GHRD/software/spl_bsp/uboot-socfpga/common/bootstage.c:364-368 | a stash that ran out of room after its header leaves a buffer that unstash rejects, at any address, size and fill |
| `Bedbug.OwnField` | de1_soc_GHRD/software/spl_bsp/uboot-socfpga/common/bedbug.c:917-917 | an operand's own field gives it back |
| `Bedbug.OtherField` | de1_soc_GHRD/software/spl_bsp/uboot-socfpga/common/bedbug.c:917-917 | a disjoint field does not see it |
| `Bedbug.ParamIsNotError` | de1_soc_GHRD/software/spl_bsp/uboot-socfpga/common/bedbug.c:822-824 | no legal operand is mistaken for the error value -1 |
| `Bedbug.Asmppc` | de1_soc_GHRD/software/spl_bsp/uboot-socfpga/common/bedbug.c:785-841 | the operand loop succeeds exactly when every operand can be read; otherwise the result is 0 and the first bad operand names the error |
| `Bedbug.FieldsAssembled` | de1_soc_GHRD/software/spl_bsp/uboot-socfpga/common/bedbug.c:795-828 | for any table with disjoint fields, every operand's field of the assembled word holds its encoded value, after any number of operands |
| `Bedbug.OpcodeIsKept` | de1_soc_GHRD/software/spl_bsp/uboot-socfpga/common/bedbug.c:792-825 | bits that belong to no operand stay as the opcode has them |
| `Bedbug.AssembledIsWord` | de1_soc_GHRD/software/spl_bsp/uboot-socfpga/common/bedbug.c:826-840 | the instruction fits 32 bits |
| `Bedbug.GetOperandValue` | de1_soc_GHRD/software/spl_bsp/uboot-socfpga/common/bedbug.c:373-400 | whether the opcode has the operand, and its field |
| `Bedbug.PrintOperands` | de1_soc_GHRD/software/spl_bsp/uboot-socfpga/common/bedbug.c:231-346 | the values printed, in order, silent operands left out |
| `Bedbug.LineReadsBack` | de1_soc_GHRD/software/spl_bsp/uboot-socfpga/common/bedbug.c:795-828 | disassembling an assembled line shows one value per word read, and each is that word's value cut to its bits |
| `Bedbug.RegisterReadsBack` | de1_soc_GHRD/software/spl_bsp/uboot-socfpga/common/bedbug.c:293-299 | register n is shown as n, register 0 as plain 0 exactly where the opcode says so |
| `Bedbug.NumberReadsBack` | de1_soc_GHRD/software/spl_bsp/uboot-socfpga/common/bedbug.c:327-329 | a number is shown as its low 16 bits, cut to its operand |
| `Bedbug.SpecialReadsBack` | de1_soc_GHRD/software/spl_bsp/uboot-socfpga/common/bedbug.c:307-313 | a special or time base register is shown as what its own reader found |
| `Bedbug.RegisterSpellings` | de1_soc_GHRD/software/spl_bsp/uboot-socfpga/common/bedbug.c:882-887 | r, R, %r, %R or nothing before the number |
| `Bedbug.ErrorIs` | de1_soc_GHRD/software/spl_bsp/uboot-socfpga/common/bedbug.c:888-911 | which operands are rejected, and how |
| `Bedbug.FieldIsBits` | de1_soc_GHRD/software/spl_bsp/uboot-socfpga/common/bedbug.c:261-261 | a field as arithmetic on the word |
| `Bedbug.BranchFieldIsWords` | de1_soc_GHRD/software/spl_bsp/uboot-socfpga/common/bedbug.c:865-879 | in reach, a branch field is the number of words in two's complement |
| `Bedbug.DistanceIsDifference` | de1_soc_GHRD/software/spl_bsp/uboot-socfpga/common/bedbug.c:868-869 | the distance is the difference of the addresses |
| `Bedbug.BranchRoundTrip` | de1_soc_GHRD/software/spl_bsp/uboot-socfpga/common/bedbug.c:863-879 | a branch target survives encoding and decoding if and only if its distance is word-aligned and in [-2^(bits+1), 2^(bits+1)) |
| `Bedbug.TargetReadsBack` | de1_soc_GHRD/software/spl_bsp/uboot-socfpga/common/bedbug.c:261-272 | the same inside a whole instruction: the target printed is the one written exactly when it is in reach |
| `Bedbug.NumberRoundTrip` | de1_soc_GHRD/software/spl_bsp/uboot-socfpga/common/bedbug.c:881-917 | a register is rejected exactly above 31; a register or number that is accepted reads back exactly if it is not negative and fits its bits |
| `Bedbug.RegisterRoundTrip` | de1_soc_GHRD/software/spl_bsp/uboot-socfpga/common/bedbug.c:881-895 | a 5-bit register that is accepted reads back exactly if its number is not negative |
| `Bedbug.NegativeRegisterIsAccepted` | de1_soc_GHRD/software/spl_bsp/uboot-socfpga/common/bedbug.c:881-895 | r-1 is accepted and is r31 |

## Left out

- Hardware tests that answer differently when repeated: every test is a function of the settings, so the code's handling of marginal bits (`sequencer.c:7316-7325`) is modelled but never fires.
- Memory-type variants that this configuration disables (QDRII, RLDRAM, LPDDR, LRDIMM), other ranks, shadow registers, `test_bgn` other than 0, TCL reports and the counter of working taps, which feeds only them.
- 32-bit overflow of the picosecond sums in DQS-enable calibration: they are unbounded integers here.
- The bit masks of the sequencer are sequences of booleans; the figure of merit is added without the division by a ratio of 1.
- Memory initialisation, register addresses, handoff command lists, write levelling, read gain and the other calibration stages.
- `render_running` turning 0, resolution changes, shutdown and restart: the claims are for one running session. DMA descriptors complete in order, and a frame is complete when the DMA engine is idle.
- Pipeline.PipelineNeverStalls: says that some continuation cannot be avoided in which the ring moves, counted in effective steps of both threads; scheduling fairness and time are not modelled.
- Rendering of text: the bitmap, its size, the random colour and the random slot are inputs. Standard input and the button's reports are inputs of a frame.
- Texts are values in the queue, so the 512-byte limit of a text is not modelled.
- Layers are values in arrays, and their maps values in the layers; `WriteFontMap` on real two-dimensional arrays is proved to produce the map value that the scheduler stores. The grid of sliding layers is one array, row by row.
- Ghost fields record what was received and placed (`RenderOnce`) and which phases and delays were programmed (`DqsEnable`).
- Bootstage.Table.Unstash: what happens when an accepted image leads past the end of the memory is not modelled beyond saying that it does (`Overran`); the end of memory that stands for a size of -1 is an unwrapped limit.
- Bootstage report, timestamps, accumulated timers, the device tree output and storage drivers.
- Bedbug's opcode and register tables, opcode search, number formatting, commas and parentheses of the printed text, and splitting a line into words: words are an input, and readers of numbers and register names are parameters. A word of the host is big-endian.
- U-Boot commands, API calls, date parsing and generated tables.
