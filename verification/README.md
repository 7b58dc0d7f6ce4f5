# Verified models of the auto-aim and locomotion cores

This project models seven pieces of the robot's software in Dafny and proves what they promise.

| file | what it models |
|---|---|
| `AssignmentSpec.dfy`, `Hungarian.dfy` | minimum-cost assignment: the rectangular Hungarian algorithm with potentials, over arrays, and the transposed case |
| `FrameCheck.dfy`, `FrameParser.dfy`, `FrameStream.dfy`, `PolicyFrames.dfy` | the frame CRC, the resynchronising stream parser, packing, payload layouts, and what the simulator reads from what it receives |
| `Fourbar.dfy` | the four-bar lookup tables and the transforms of positions, velocities and torques |
| `PolicyHistory.dfy`, `PolicyRuntime.dfy` | the policy runtime over holds, failed writes and reconnects: what its history of events determines, the code that keeps memory and counters instead, and the replay of its telemetry |
| `LatestQueue.dfy`, `ModeRouting.dfy`, `Pipeline.dfy` | the latest-value queue, the route switch and the stage loops, under interleaving |
| `Suppression.dfy`, `SuppressionForms.dfy` | both forms of non-maximum suppression, and when they agree |
| `TargetSelection.dfy`, `FeedbackPair.dfy` | enemy selection, fire permission, all estimators behind one selector, CAN feedback pairing and its codec |
| `RealArithmetic.dfy`, `BitNumbers.dfy`, `Wrappers.dfy` | shared facts about reals, the numbers bit patterns stand for, `Option` and `Result` |

Numbers are modelled as follows. Costs, angles, scores and box coordinates are reals. Bytes and the
CRC register are bit-vectors. A float in a packet is its 32-bit pattern. The 64-bit counters wrap or
saturate as in the code. Times are natural numbers of nanoseconds.

Where a property holds only under a condition, the condition is stated as an equivalence:

- A replayed network output equals the logged action exactly when the output was finite.
- The inverse table undoes a strictly monotone table on its whole range exactly when every gap of both
  grids is at least the machine epsilon; a narrower gap makes the code divide by epsilon instead.
- The position transforms undo each other exactly inside the active limits or the reachable knee range.
- Power is conserved for all torques and velocities exactly when both Jacobians are at least 1e-6 in size.
- Equal route sequence numbers mean no change in between exactly when the first read was not
  saturated or nothing changed.
- A result the queue's consumer popped after the length read is at least as new as everything pushed
  before that read. A result returned because the queue ran empty is so exactly when no `clear` robbed
  the call, that is, took an item while the call had popped nothing as new as the length read saw.
  `ClearMayStale` is a run in which that happens.
- For given scores the two suppression forms keep the same candidates whatever the boxes exactly when
  no two scores are equal.

On a single input it is enough for the two suppression forms that no two tied candidates overlap at
the threshold, and on every input the armor form equals the energy form of the reversed input.

The neutral-color filter drops one frame and starts over: dropping a frame resets its own count
(`NeutralCycle`).

The queue's documentation speaks of one producer and one consumer. `clear` is called by a third
thread on a route change, so the model has three parties.

## Model

| member | source | states |
|---|---|---|
| Hungarian.HungarianAlgorithm | crates/auto_aim_core/src/rbt_base/rbt_algorithm/rbt_sort.rs:16-53 | for every rectangular matrix the result matches exactly min(rows, cols) pairs injectively, at a cost no other such matching undercuts, and the total returned is that cost |
| Hungarian.RectangularHungarian | crates/auto_aim_core/src/rbt_base/rbt_algorithm/rbt_sort.rs:55-125 | the matching is certified by the final potentials and costs exactly minus the potential of the virtual column |
| Hungarian.InsertRow | crates/auto_aim_core/src/rbt_base/rbt_algorithm/rbt_sort.rs:65-115 | after each row: reduced costs of inserted rows are non-negative, matched pairs tight, column potentials at most 0 and 0 when free, potentials sum to 0, each inserted row matched once |
| Hungarian.Search | crates/auto_aim_core/src/rbt_base/rbt_algorithm/rbt_sort.rs:71-108 | the search terminates at a free column with an acyclic tree of tight links back to the virtual column |
| Hungarian.ScanColumns | crates/auto_aim_core/src/rbt_base/rbt_algorithm/rbt_sort.rs:77-93 | distances and links become minima over one more row; the column returned is unused and nearest |
| Hungarian.ShiftPotentials | crates/auto_aim_core/src/rbt_base/rbt_algorithm/rbt_sort.rs:95-102 | used columns and their rows move by delta in opposite directions, everything else stays, the sum of all potentials is kept |
| Hungarian.Augment | crates/auto_aim_core/src/rbt_base/rbt_algorithm/rbt_sort.rs:110-114 | walking the links keeps every earlier row matched exactly once and adds the new one, over tight pairs only |
| Hungarian.UnusedColumn | crates/auto_aim_core/src/rbt_base/rbt_algorithm/rbt_sort.rs:71-108 | with rows at most columns the search never runs out of unused columns |
| Hungarian.ShiftKeepsFeasible | crates/auto_aim_core/src/rbt_base/rbt_algorithm/rbt_sort.rs:95-102 | a shift by the nearest distance keeps, and in the first round establishes, dual feasibility |
| AssignmentSpec.RowCertificateOptimal | crates/auto_aim_core/src/rbt_base/rbt_algorithm/rbt_sort.rs:5-15 | a full matching with complementary potentials is optimal among all full matchings (weak duality) |
| AssignmentSpec.ColumnCertificateOptimal | crates/auto_aim_core/src/rbt_base/rbt_algorithm/rbt_sort.rs:28-44 | the same for matrices with more rows than columns |
| AssignmentSpec.CountIsColumns | crates/auto_aim_core/src/rbt_base/rbt_algorithm/rbt_sort.rs:36-43 | an injective matching has as many pairs as columns exactly when it hits every column |
| FrameCheck.Crc16 | crates/locomotion_core/src/protocol.rs:454-467 | the loops compute the register function the CRC lemmas are about |
| FrameCheck.CheckIsZeroResidue | crates/locomotion_core/src/protocol.rs:341-349 | the receiver's comparison holds exactly when the register over the whole frame is 0 |
| FrameCheck.AppendedCrcPasses | crates/locomotion_core/src/protocol.rs:389-390 | appending the CRC low byte first passes the check |
| FrameCheck.BitStepsInjective | crates/locomotion_core/src/protocol.rs:458-464 | the register steps are injective |
| FrameCheck.AdjacentBytesDetected | crates/locomotion_core/src/protocol.rs:341-349 | two passing frames that differ at most in two adjacent bytes are equal |
| FrameCheck.BurstsDetected | crates/locomotion_core/src/protocol.rs:454-467 | any change within sixteen consecutive bits breaks the check, wherever the byte boundaries fall |
| FrameCheck.RegisterBitwise | crates/locomotion_core/src/protocol.rs:456-465 | stepping byte by byte is feeding the bits one by one, lowest first |
| FrameCheck.OddErrorsDetected | crates/locomotion_core/src/protocol.rs:341-349 | flipping any odd number of bits of a passing frame breaks the check |
| FrameCheck.GeneratorUndetected | crates/locomotion_core/src/protocol.rs:454-467 | flipping the bits of the CRC-16-CCITT generator at any place goes undetected, which no other polynomial of that degree gives |
| FrameCheck.CheckValue | crates/locomotion_core/src/protocol.rs:562 | the CRC of the nine digits 1 to 9 is 28561, the value the repository checks |
| FrameParser.StreamParser.Feed | crates/locomotion_core/src/protocol.rs:305-360 | messages and remaining buffer are those of the left-to-right scan of the old buffer followed by the data |
| FrameParser.StreamParser.Front | crates/locomotion_core/src/protocol.rs:319-350 | the header, length and CRC tests decide as the reference classification |
| FrameParser.FindSof | crates/locomotion_core/src/protocol.rs:469-471 | the first marker, or that there is none |
| FrameParser.AllNoise | crates/locomotion_core/src/protocol.rs:362-368 | dropping all but one byte of marker-free data is what the scan leaves |
| FrameStream.ChunkingIrrelevant | crates/locomotion_core/src/protocol.rs:305-368 | from any parser state, feeding chunks gives the messages and buffer of one feed of their concatenation |
| FrameStream.ScanConcat | crates/locomotion_core/src/protocol.rs:305-368 | scanning a prefix and then its leftover with the rest behind it is scanning everything |
| FrameStream.Settled | crates/locomotion_core/src/protocol.rs:311-357 | the buffer left is undecided, yields nothing by itself and is shorter than 8 + max + 2 |
| FrameStream.RunIsGreedy | crates/locomotion_core/src/protocol.rs:305-368 | over any run the messages are disjoint packed frames in order, and every skipped position can start no frame whatever follows |
| FrameStream.GreedyUnique | crates/locomotion_core/src/protocol.rs:305-368 | there is only one such parse up to the same end |
| FrameStream.FrameLayout | crates/locomotion_core/src/protocol.rs:371-392 | byte by byte where markers, type, version, length, number, payload and CRC stand, low bytes first |
| FrameStream.AcceptsEncoded | crates/locomotion_core/src/protocol.rs:371-392 | a packed message is accepted in front of any bytes |
| FrameStream.AcceptsOnlyEncoded | crates/locomotion_core/src/protocol.rs:319-356 | accepted bytes are the packing of the message returned |
| FrameStream.RoundTrip | crates/locomotion_core/src/protocol.rs:371-403 | what packing returned for any messages, with marker-free noise between, in any chunks, comes out as exactly those messages |
| FrameStream.CorruptedFrameRejected | crates/locomotion_core/src/protocol.rs:341-349 | a frame corrupted in two adjacent bytes, in sixteen consecutive bits or in an odd number of bits is not accepted at its size |
| PolicyFrames.DecodeStatePayload | crates/locomotion_core/src/protocol.rs:127-207 | each of the three layouts decodes to the frame that packs to the payload with padding and missing floats zero; other sizes are errors; decoding undoes packing |
| PolicyFrames.DecodePolicyState | crates/locomotion_core/src/protocol.rs:410-418 | a message of another type is refused with both types named, a wrong size with the size; all three layouts decode to the frame that packs to the payload brought up to date, and every packed state comes back |
| PolicyFrames.DecodePolicyTarget | crates/locomotion_core/src/protocol.rs:228-238 | type and size errors, else the frame that packs to the payload |
| PolicyFrames.DecodePolicyLatency | crates/locomotion_core/src/protocol.rs:248-259 | type and size errors, else the fields that stand in the first nine bytes |
| PolicyFrames.PayloadReader.F32s | crates/locomotion_core/src/protocol.rs:523-552 | the words read pack to the bytes passed over |
| PolicyFrames.StatePayloadInjective | crates/locomotion_core/src/protocol.rs:88-125 | no two state frames pack to the same payload |
| PolicyFrames.UnpackAcceptsExactlyPacked | apps/sim_loop/protocol.py:87-116 | the simulator accepts exactly the packets the runtime packs for a payload of the right size and sequence number |
| PolicyFrames.PackedPacketsUnpack | apps/sim_loop/protocol.py:81-116 | packed state, target and command packets pass the simulator's checks and yield their payloads |
| PolicyFrames.StatePacks | crates/locomotion_core/src/protocol.rs:88-125 | a state packs exactly when no float word has all exponent bits set, said of its number; otherwise the error names the first array in packing order that holds one |
| PolicyFrames.TargetPacks | crates/locomotion_core/src/protocol.rs:218-226 | the same for targets |
| PolicyFrames.CommandPacks | crates/locomotion_core/src/protocol.rs:269-275 | the same for commands |
| PolicyFrames.LittleEndian | crates/locomotion_core/src/protocol.rs:477-485 | a word's number is built from its bytes from the first up |
| PolicyFrames.StateReachesSimulator | apps/sim_loop/protocol.py:193-232 | the simulator reads back every field of any packed state whose floats are finite |
| PolicyFrames.TargetReachesSimulator | apps/sim_loop/protocol.py:126-139 | the same for targets |
| PolicyFrames.CommandReachesSimulator | apps/sim_loop/protocol.py:142-162 | the same for commands |
| LookupTable.InverseUndoes | crates/locomotion_core/src/fourbar.rs:177-208 | lookup then inverse lookup is the clamped query, for increasing and decreasing tables |
| LookupTable.ForwardUndoesInverse | crates/locomotion_core/src/fourbar.rs:88-96 | inverse lookup then lookup is the query clamped to the reachable range |
| LookupTable.InterpInRange | crates/locomotion_core/src/fourbar.rs:193-208 | values stay between the ends of any strictly monotone table, however narrow its gaps |
| LookupTable.InterpWithin | crates/locomotion_core/src/fourbar.rs:193-208 | a lookup stays within any bounds of the table's values, monotone or not |
| LookupTable.InterpMonotone | crates/locomotion_core/src/fourbar.rs:193-208 | the lookup is strictly monotone the way any strictly monotone table is, however narrow its gaps |
| LookupTable.InverseUndoesIffWide | crates/locomotion_core/src/fourbar.rs:193-208 | over strictly monotone tables the round trip is the identity on the whole range exactly when no gap is below the machine epsilon |
| LookupTable.OnSegment | crates/locomotion_core/src/fourbar.rs:195-207 | wherever bisection stops, the value is on the line through the segment's ends |
| Fourbar.BuiltTablesValid | crates/locomotion_core/src/fourbar.rs:117-151 | tables are built exactly when the knee grid rises or falls, equal neighbours included, and are valid exactly when it does so strictly with wide gaps |
| Fourbar.PolicyPosRoundTrip | crates/locomotion_core/src/fourbar.rs:38-58 | policy to output and back is the identity exactly inside the active limits |
| Fourbar.OutputPosRoundTrip | crates/locomotion_core/src/fourbar.rs:38-58 | output to policy and back is the identity exactly on reachable knees |
| Fourbar.VelocityRoundTrip | crates/locomotion_core/src/fourbar.rs:60-86 | velocities are recovered exactly when each side's Jacobian is regular or its active angle rests |
| Fourbar.VelocityIsDerivative | crates/locomotion_core/src/fourbar.rs:75-86 | for any linkage: if the secant slopes within 0.0012 of the way of a side's active angle lie between two bounds, that side moves over a step as the velocity says, up to the bounds' spread times the step of the angle; the hips move exactly |
| Fourbar.VelocityExactOnAffine | crates/locomotion_core/src/fourbar.rs:75-86 | with one secant slope the velocity transform is the exact derivative of the position transform |
| Fourbar.KneeSecant | crates/locomotion_core/src/fourbar.rs:193-208 | between two angles the table's knee has secant slopes within the bounds of the linkage's own near them |
| Fourbar.KneeNearLinkage | crates/locomotion_core/src/fourbar.rs:117-151 | between its knots the table's knee is off the linkage's by at most 0.0002 times the local spread of the slopes |
| Fourbar.JacobianWithin | crates/locomotion_core/src/fourbar.rs:129-142 | the Jacobian at an angle lies within the bounds of the linkage's secant slopes within 0.0012 of that angle, on the right with opposite sign; beyond the limits it is the one at the limit |
| Fourbar.SecantsBuild | crates/locomotion_core/src/fourbar.rs:117-151 | a linkage whose secant slopes keep 1e-6 away from zero over the whole range has valid tables |
| Fourbar.JacobianSign | crates/locomotion_core/src/fourbar.rs:98-102 | for a knee that rises with the angle the left Jacobian is never negative and the right one never positive; for one that falls the other way round |
| Fourbar.SafeDenominatorKeeps | crates/locomotion_core/src/fourbar.rs:214-220 | the divisor keeps sign and size, except that its size is never below 1e-6 |
| Fourbar.PowerBalance | crates/locomotion_core/src/fourbar.rs:104-115 | output power is policy power minus each side's loss |
| Fourbar.PowerConserved | crates/locomotion_core/src/fourbar.rs:75-115 | power is conserved for all torques and velocities exactly when both Jacobians are regular |
| PolicyRuntime.Runtime.StepFromState | crates/locomotion_core/src/policy_runtime.rs:226-292 | history, next packet number and output, or its absence, are exactly those the history of events determines; memory stays the fold since the last reset |
| PolicyHistory.StepOutputs | crates/locomotion_core/src/policy_runtime.rs:226-292 | told from a completed step's output: the network ran exactly for an active command, a state at most 0.1 s old and enabled output; then the action holds its finite values and zeros, and the target sent is decoded from that action; a hold sends the hold target and a zero action, and its flag says why; both packets carry the step's number |
| PolicyHistory.StepRecordable | crates/locomotion_core/src/policy_runtime.rs:425-448 | the clipped action of a completed step is the one the history feeds back into the next observation |
| PolicyHistory.ClipsToLimit | crates/locomotion_core/src/policy_io.rs:106-111 | clipping keeps values within the limit and moves others to the nearer end |
| PolicyRuntime.Runtime.ActFromState | crates/locomotion_core/src/policy_runtime.rs:303-326 | one inference on the built observation joins the history; sanitised action, flags and memory; nothing changes when no observation can be built |
| PolicyRuntime.Runtime.ResetPolicyMemory | crates/locomotion_core/src/policy_runtime.rs:344-364 | exactly one reset joins the history unless memory was clean and the reset not forced; memory and last action are empty |
| PolicyRuntime.Runtime.RecordStep | crates/locomotion_core/src/policy_runtime.rs:425-448 | one row with the current reset count joins the log, bound to its inference in the history; the clipped action is the one the history feeds back |
| PolicyRuntime.Runtime.OneTick | crates/locomotion_core/src/runtime_cdc.rs:40-105 | one pass changes history, log and counters exactly as the history determines, also when the write fails after an inference |
| PolicyRuntime.Runtime.RunCdc | crates/locomotion_core/src/runtime_cdc.rs:24-134 | over any sessions the whole history, log, counters and result are those of the run function; memory, last action and reset counter agree with the history throughout |
| PolicyHistory.RunBounded | crates/locomotion_core/src/runtime_cdc.rs:24-134 | over any run a step limit is kept, no row is logged without a step, and every lost connection counts two resets |
| PolicyHistory.ResetForgets | crates/locomotion_core/src/policy_runtime.rs:344-364 | only inferences after the last reset count |
| PolicyRuntime.ReplayRows | crates/locomotion_core/src/replay_telemetry.rs:131-243 | the replay loop computes the replay function on the rows it may read |
| PolicyHistory.LogGrows | crates/locomotion_core/src/replay_telemetry.rs:189-228 | writing the row of a completed step keeps every row faithful to its inference and the replay in step with the live memory |
| PolicyHistory.TickKeeps | crates/locomotion_core/src/runtime_cdc.rs:40-105 | a pass that infers and never logs leaves the log faithful, every other pass leaves it continuable |
| PolicyHistory.ResetKeeps | crates/locomotion_core/src/runtime_cdc.rs:25-25 | a forced reset makes any faithful log continuable, whatever was inferred and never logged |
| PolicyHistory.ReplayFidelity | crates/locomotion_core/src/replay_telemetry.rs:189-228 | replaying the log of any run gives the live network outputs, from the memory the run itself had at each policy row |
| PolicyHistory.ReplayMatchesLog | crates/locomotion_core/src/policy_runtime.rs:312-320 | a replayed output equals the logged action exactly when it was finite |
| LatestQueue.Queue.PushLatest | crates/auto_aim_core/src/rbt_infra/rbt_queue_async.rs:57-62 | a full queue loses its oldest item and counts one drop |
| LatestQueue.Queue.TryPopLatest | crates/auto_aim_core/src/rbt_infra/rbt_queue_async.rs:77-88 | the newest item is returned and the queue is empty |
| LatestQueue.Queue.Clear | crates/auto_aim_core/src/rbt_infra/rbt_queue_async.rs:91-93 | the queue is empty |
| QueueInterleaving.RunKeepsInv | crates/auto_aim_core/src/rbt_infra/rbt_queue_async.rs:57-93 | every interleaving keeps order, conservation, freshness and the pending wake-up |
| QueueInterleaving.EveryRun | crates/auto_aim_core/src/rbt_infra/rbt_queue_async.rs:57-93 | no lost wake-up, results strictly newer, pushes accounted for, drops count evictions only |
| QueueInterleaving.ReturnIsFresh | crates/auto_aim_core/src/rbt_infra/rbt_queue_async.rs:77-88 | in every run a result is newer than all before it; a popped one is at least as new as everything pushed before the length read whatever `clear` does; where the queue ran empty, exactly when `clear` did not rob the call |
| QueueInterleaving.ClearMayStale | crates/auto_aim_core/src/rbt_infra/rbt_queue_async.rs:77-93 | a run in which a clear makes the result older than that |
| ModeRouting.ModeContext.ApplyFeedback | crates/auto_aim_core/src/rbt_mod/rbt_mode_context.rs:142-176 | the sequence number is the saturating count of route changes over the whole run; queues are cleared exactly on a change; the transition enters the route of the mode, that of the energy mechanism for both buff modes |
| ModeRouting.RoutesApart | crates/auto_aim_core/src/rbt_mod/rbt_mode_context.rs:19-25 | two modes share a route exactly when they are equal or both about the energy mechanism |
| ModeRouting.ChangesExtend | crates/auto_aim_core/src/rbt_mod/rbt_mode_context.rs:146-160 | one more mode adds a change exactly when it selects another route than the last |
| Pipeline.RunKeepsInv | apps/auto_aim/src/rbt_threads.rs:927-1152 | every interleaving of the stages keeps drained inputs and remembered routes consistent |
| Pipeline.DoneInOrder | apps/auto_aim/src/rbt_threads.rs:111-181 | the done flags are set in pipeline order |
| Pipeline.DoneStaysDrained | apps/auto_aim/src/rbt_threads.rs:1030-1037 | once a stage is done its input queue stays empty in every continuation |
| Pipeline.PushWithinOneRoute | apps/auto_aim/src/rbt_threads.rs:983-989 | a result is pushed only if an armor route was read and no route change happened between the two reads, below saturation; with no change since, the route read is the one selected now |
| Pipeline.SequenceTellsChanges | crates/auto_aim_core/src/rbt_mod/rbt_mode_context.rs:156-160 | when equal sequence numbers mean no change |
| Suppression.NmsArmor | crates/auto_aim_core/src/rbt_mod/rbt_detector/rbt_yolo.rs:397-410 | popping the ascending order from its end is greedy suppression of the reversed input |
| Suppression.NmsEnergy | crates/auto_aim_core/src/rbt_mod/rbt_energy_mechanism/detected.rs:381-387 | removing from the front of the descending order is greedy suppression of the input |
| Suppression.SuppressionSpec | crates/auto_aim_core/src/rbt_mod/rbt_energy_mechanism/detected.rs:381-387 | for every input: kept boxes are part of it, fall in score, are pairwise apart, and every other box is overlapped by a kept one of at least its score |
| Suppression.GreedyIsSurvivors | crates/auto_aim_core/src/rbt_mod/rbt_detector/rbt_yolo.rs:403-407 | greedy suppression keeps exactly the positions no surviving earlier position overlaps |
| Suppression.SurvivorsSpec | crates/auto_aim_core/src/rbt_mod/rbt_detector/rbt_yolo.rs:403-407 | kept boxes come by falling score with pairwise overlap below the threshold |
| Suppression.SurvivorsElements | crates/auto_aim_core/src/rbt_mod/rbt_detector/rbt_yolo.rs:403-407 | kept boxes are a sub-multiset of the input |
| Suppression.DroppedIsCovered | crates/auto_aim_core/src/rbt_mod/rbt_detector/rbt_yolo.rs:405 | every dropped box is overlapped by a kept box of at least its score |
| Suppression.SortDescendingSpec | crates/auto_aim_core/src/rbt_mod/rbt_energy_mechanism/detected.rs:381 | the processing order is a stable descending sort |
| Suppression.FormsAgree | crates/auto_aim_core/src/rbt_mod/rbt_energy_mechanism/detected.rs:381-387 | with distinct scores both forms keep the same boxes in the same order |
| SuppressionForms.SameUnlessTiesOverlap | crates/auto_aim_core/src/rbt_mod/rbt_detector/rbt_yolo.rs:397-410 | on every input in which no two tied candidates overlap at the threshold both forms keep the same candidates |
| SuppressionForms.SameInEveryGeometry | crates/auto_aim_core/src/rbt_mod/rbt_detector/rbt_yolo.rs:397-410 | for given scores both forms keep the same candidates for all boxes exactly when no two scores are equal |
| Suppression.FormsDifferOnTies | crates/auto_aim_core/src/rbt_mod/rbt_energy_mechanism/detected.rs:381-387 | two equal boxes of equal score on which they differ |
| Suppression.IouBounds | crates/auto_aim_core/src/rbt_mod/rbt_detector/rbt_yolo.rs:481-488 | overlap is symmetric, between 0 and 1, and 1 for a box with itself unless negligible |
| Suppression.IouIsShareOfUnion | crates/auto_aim_core/src/rbt_mod/rbt_detector/rbt_yolo.rs:470-488 | overlap times both areas less the common rectangle's is the area of the common rectangle; 0 when that union is negligible |
| Suppression.InsideShare | crates/auto_aim_core/src/rbt_mod/rbt_detector/rbt_yolo.rs:477-488 | a box inside another overlaps it by its share of the area |
| Suppression.FullOverlap | crates/auto_aim_core/src/rbt_mod/rbt_energy_mechanism/detected.rs:418-430 | only equal boxes overlap fully |
| TargetSelection.EnemySelectHandler.Select | crates/auto_aim_core/src/rbt_mod/rbt_estimator/rbt_enemy_select.rs:42-75 | every choice is the one the history determines |
| TargetSelection.EnemySelectHandler.ClosestVisibleEnemy | crates/auto_aim_core/src/rbt_mod/rbt_estimator/rbt_enemy_select.rs:95-112 | the closest scored enemy, of equally close ones the first in table order |
| TargetSelection.LeavesOnlyAfterGap | crates/auto_aim_core/src/rbt_mod/rbt_estimator/rbt_enemy_select.rs:61-73 | an enemy is left only after a gap of invisible frames longer than the wait |
| TargetSelection.StaysUnlessGap | crates/auto_aim_core/src/rbt_mod/rbt_estimator/rbt_enemy_select.rs:42-75 | a selected enemy stays selected until a gap of invisible frames, counted from its first, has lasted longer than the wait; then the closest of that frame is taken |
| TargetSelection.ScoreSpec | crates/auto_aim_core/src/rbt_mod/rbt_estimator/rbt_enemy_select.rs:114-131 | an enemy is scored exactly when it is visible with an armor, by the least squared distance of its armors to the center |
| TargetSelection.NewChoiceIsClosest | crates/auto_aim_core/src/rbt_mod/rbt_estimator/rbt_enemy_select.rs:86-112 | a newly chosen enemy is the closest visible one, ties by table order; none is chosen only when none is visible with an armor |
| TargetSelection.SelectsUnique | crates/auto_aim_core/src/rbt_mod/rbt_estimator/rbt_enemy_select.rs:42-75 | the history determines the choices |
| HandlerPoll.RbtHandlerPoll.Update | crates/auto_aim_core/src/rbt_mod/rbt_estimator.rs:716-732 | every estimator is shown exactly what the choices say; one that allows fire is the selected, visible enemy's |
| HandlerPoll.FireNeedsSelection | crates/auto_aim_core/src/rbt_mod/rbt_estimator.rs:716-732 | fire on an enemy means it was selected and visible in each of the last two frames |
| HandlerPoll.FireSwitchNeedsGap | crates/auto_aim_core/src/rbt_mod/rbt_estimator.rs:716-732 | between fire on one enemy and fire on another the first was invisible for a gap longer than the wait |
| FirePermission.Estimator.Update | crates/auto_aim_core/src/rbt_mod/rbt_estimator.rs:216-236 | fire is allowed exactly when the last two observations both got through the filter |
| FirePermission.Estimator.FilterNeutral | crates/auto_aim_core/src/rbt_mod/rbt_estimator.rs:315-333 | the filter decides by the history's run of neutral frames |
| FirePermission.NeutralCycle | crates/auto_aim_core/src/rbt_mod/rbt_estimator.rs:341-344 | a neutral-only target is let through `grace` times, dropped once, and so on |
| FirePermission.DropNeedsNeutralRun | crates/auto_aim_core/src/rbt_mod/rbt_estimator.rs:315-333 | what is seen is dropped only if neutral and if `grace` observations in a row before it were neutral or empty |
| FeedbackPair.FeedbackPairDecoder.Push | crates/auto_aim_core/src/rbt_mod/rbt_comm/rbt_comm_device.rs:42-68 | every answer is the one the frame history determines |
| FeedbackPair.DataNeedsFreshPair | crates/auto_aim_core/src/rbt_mod/rbt_comm/rbt_comm_device.rs:55-64 | a tail yields data exactly when a head at most 20 ms older precedes it, no head or tail lies between them and the pair is well formed, and then that pair's data; an error exactly when such a pair is not well formed |
| FeedbackPair.NoHeadTwice | crates/auto_aim_core/src/rbt_mod/rbt_comm/rbt_comm_device.rs:56-58 | no head serves two tails |
| FeedbackPair.PairRoundTrip | crates/auto_aim_core/src/rbt_mod/rbt_comm/rbt_comm_frame.rs:230-275 | deserializing a serialized pair keeps enums and permit and quantizes the angles |
| FeedbackPair.AcceptedPairs | crates/auto_aim_core/src/rbt_mod/rbt_comm/rbt_comm_frame.rs:251-275 | a pair is accepted exactly when both frames have eight bytes and their markers and the mode is 1 to 4 |
| FeedbackPair.PairWrittenBack | crates/auto_aim_core/src/rbt_mod/rbt_comm/rbt_comm_frame.rs:230-275 | serializing what was read gives back the frames apart from unused and unusual flag bytes |
| FeedbackPair.PairLayout | crates/auto_aim_core/src/rbt_mod/rbt_comm/rbt_comm_frame.rs:230-248 | where each field stands, angles in hundredths, low byte first, in two's complement |
| FeedbackPair.ControlRoundTrip | crates/auto_aim_core/src/rbt_mod/rbt_comm/rbt_comm_frame.rs:91-191 | the three packed enums survive and the angles are quantized |
| FeedbackPair.ControlWrittenBack | crates/auto_aim_core/src/rbt_mod/rbt_comm/rbt_comm_frame.rs:91-191 | serializing what was read gives back the frame apart from unused flag bits |
| FeedbackPair.AcceptedControl | crates/auto_aim_core/src/rbt_mod/rbt_comm/rbt_comm_frame.rs:174-182 | a control frame is accepted exactly when it has eight bytes and both markers |
| FeedbackPair.ControlLayout | crates/auto_aim_core/src/rbt_mod/rbt_comm/rbt_comm_frame.rs:91-104 | where markers, sequence byte and angles of a control frame stand, and which value stands for which mode |
| FeedbackPair.EncodeDecode | crates/auto_aim_core/src/rbt_mod/rbt_comm/rbt_comm_frame.rs:431-443 | encoding undoes decoding on every wire value |
| FeedbackPair.DecodeEncode | crates/auto_aim_core/src/rbt_mod/rbt_comm/rbt_comm_frame.rs:431-443 | decoding comes back within 0.005 of the value clamped to -327.68..327.67, encoding keeps order, and non-finite values encode as 0 |

## Left out

- Floating-point rounding, infinities and NaN, except where non-finite values take a branch of their own.
- The linkage geometry of the four-bar mechanism: any knee function stands for it.
- The neural networks, image preprocessing, pose solving, Kalman filters, ballistics and the planners.
- Serial ports, sockets, files, the HTTP visualiser, logging and command-line handling. What they decide is an input of the model: ticks, write outcomes, samples.
- The dry-run and simulator transports of the policy runtime. The model covers the serial transport.
- Counters of the runtime's statistics that nothing else reads.
- Telemetry thinned by `telemetry_log_every` above 1 and I/O errors of the telemetry file.
- The control loop's and the CAN loop's shutdown, and liveness of stages whose route is inactive.
- The energy-mechanism stages, which repeat the armor stages' control flow on queues of their own.
- Cancelled waits on the queue's notification (timeouts around `pop_latest`).
- FrameParser.StreamParser.Front: the parser's second test of the marker is not modelled, because the marker was just found there.
- PolicyFrames.UnpackPolicyState: a non-finite field is an error, but which field the simulator's error names is not modelled; likewise for targets and commands.
- FeedbackPair.SerializePair: writes values, not the caller's buffers in place; a wrong buffer length is not modelled.
- TargetSelection.EnemySelectHandler.Select: one time stands for the clock reads of one call, and the closest enemy is computed in every call although the code needs it only when nothing is held.
- LookupTable.Locate: stands for the standard library's binary search, whose choice among equal entries does not matter on strictly monotone grids.
- HandlerPoll.RbtHandlerPoll.Update: which armors of a frame are matched to the current target is an input of the model.
- Suppression.SortDescending: stands for the standard library's stable sort by score.
