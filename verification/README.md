# UAVLink-Edge: verified core

UAVLink-Edge sits on a drone between a PX4 flight controller and a ground server. This project
models its decision logic in Dafny and proves what every run of it keeps. Main results, by part:

- **PX4 link arbiter** (`LinkStep`, `LinkArbiter`, `LinkRuns`, `LinkLocks`). Three physical links,
  one active. In every run of registrations, heartbeats and health checks: switches keep a loss
  period apart, with the two exceptions named exactly; the recovery counter counts what it should;
  leaving and regaining Ethernet happen exactly when stated; the generation numbers the switches.
  A machine at the grain of single lock operations shows that every interleaving of any number of
  threads is such a run, that a transmission ends on the link that is still active, and that the
  two locks cannot deadlock.
- **Supervisor scheduler** (`LinkScheduler`). Two deadlines, one action per tick: the phases keep
  their grids; a deferred heartbeat goes out within 700 ms at ticks of at most 150 ms; it cannot
  starve exactly when ticks are never more than 300 ms apart.
- **Heartbeat scanner and checksum** (`MavlinkCrc`, `HeartbeatScan`). The byte-at-a-time checksum
  is the bit-serial CRC-16/MCRF4XX; it detects every burst of up to 16 bits, wherever it lies, and
  16 is the exact limit; the scanner says yes exactly when the buffer holds an encoded PX4
  HEARTBEAT, and sees such damage always exactly when it leaves the length byte alone.
- **Uplink** (`SeqHistory`, `PacketLedger`, `PacketTally`, `UplinkReader`, `UplinkLocks`). The
  32-entry ring is the last 32 accepted numbers; each frame's verdict and fate are given exactly;
  deduplication is ideal exactly when the ring can tell each arrival; each counter counts its own
  verdicts, and they balance in every interleaving; a duplicate is dropped only because of a twin on
  the same link with no switch between. Every interleaving of the threads is such a run.
- **Auth protocol and session** (`AuthWire`, `AuthRequests`, `AuthReplies`, `AuthSession`). No two
  requests share a packet; each parser returns the one correct result on every byte string; every
  message is given byte by byte; what the client does next is fixed by the server's words; the
  session's flags tell what the server last said, and failed recoveries keep their distance.
- **Cellular failover** (`Failover`). WiFi is chosen exactly after a stretch of failing probes longer
  than the delay; modem restarts are throttled exponentially in every run.
- **Landing smoother** (`SmoothTracker`). A report is shown exactly within the hold; the two axes do
  not influence each other; the position stays among the detections and approaches a target that
  stopped without overshooting.

Times are integers in nanoseconds in the link and session parts, and `real` seconds in the failover
part. Sources of chance (network, clock, other processes) are inputs or undetermined choices in the
code. `dafny verify dfyconfig.toml` checks the project.

Where the code falls short of what one might expect of it, the exact condition is proved:

- `recoverN` above 1000 never returns to Ethernet, because the counter stops at 1000
  (`NoReturnAboveCeiling`, `RecoveryExact`).
- Ticks more than 300 ms apart can starve the GCS heartbeat for ever (`StarvationThreshold`).
- A HEARTBEAT whose length byte is damaged can pass the scan, because the checksum is then read from
  inside the payload (`LengthDamagePasses`, `SeenExactly`).
- An unframed API key reply parses back exactly when its error code is not 0x21 (`UnframedExactly`).
  With that code a truncated success reply can pass for a rejection (`TruncatedKeyExample`); the
  condition under which none passes is `AllShortReadsNoticed`. Framed replies have neither problem
  (`FramedRoundTrip`, `FramedShortRead`).
- Strings of 64 KiB can make two requests share a packet; 64 KiB is the exact limit below which none
  do (`UnambiguousExactly`, `LongFieldsCollide`).
- A granted token of 1 to 19 bytes stops the process at a log line, after the session is marked
  connected (`Authenticate`, `KeepaliveLoop`, `ShortTokenParses`).
- A weight outside 0 to 1, or a negative jump fraction with any weight but 0, overshoots
  (`ParametersExactlyWhen`, `NegativeFractionOvershoots`); a trigger threshold under the release
  threshold makes the direction flicker (`SteadyExactlyWhen`).

## Model

| member | source | states |
|---|---|---|
| `LinkStep.EffectiveLoss` | forwarder/px4_link.go:73-75 | the loss period used is always positive, two seconds if none is configured |
| `LinkStep.EffectiveRecoverN` | forwarder/px4_link.go:70-72 | at least one heartbeat is always asked for, two if none is configured |
| `LinkStep.StepLink` | forwarder/px4_link.go:66-137 | never leaves the drone without a link; the reason given is the one for the change of link that was made, and none without one |
| `LinkStep.ReturnsExactlyWhen` | forwarder/px4_link.go:77-84 | off Ethernet, the return happens if and only if enough heartbeats were counted and Ethernet is fresh and open, hold or not |
| `LinkArbiter.IdentifiesDevice` | forwarder/px4_link.go:239-261 | a channel is identified as TELEM2 exactly by the device configured for it, as TELEM3 by the other device configured, as Ethernet by the custom endpoint, and as no link otherwise |
| `LinkArbiter.ApplyKeepsInv` | forwarder/px4_link.go:263-336 | every locked operation keeps the snapshot invariant, counter ceiling included |
| `LinkArbiter.ApplyMovesBoth` | forwarder/px4_link.go:322-336 | only a health check moves the active link, and the generation moves by one exactly with it |
| `LinkArbiter.Arbiter.constructor` | forwarder/px4_link.go:407-427 | the supervisor starts on Ethernet, entered now, in generation zero |
| `LinkArbiter.Arbiter.RegisterChannel` | forwarder/px4_link.go:263-271 | fills exactly the slot of the link the channel belongs to by its endpoint, and no other |
| `LinkArbiter.Arbiter.UnregisterChannel` | forwarder/px4_link.go:273-284 | the loop clears exactly the slots that hold this channel |
| `LinkArbiter.Arbiter.NoteHeartbeat` | forwarder/px4_link.go:286-296 | records the time for exactly the link that was heard, and counts it for recovery as the run model says |
| `LinkArbiter.Arbiter.Observe` | forwarder/px4_link.go:300-313 | registers, counts the heartbeat, and answers in one locked read: forward if and only if the channel belongs by its endpoint to the link active then, whatever others do while the lock is let go |
| `LinkArbiter.Arbiter.EvaluateAt` | forwarder/px4_link.go:322-336 | the flag loop and the update are the health check of the run model; the reason is the one for the change made |
| `LinkArbiter.Arbiter.Perform` | forwarder/px4_link.go:263-336 | operations of other goroutines move the arbiter as the run model says, in the order the lock admits them |
| `LinkRuns.EveryListRuns` | forwarder/px4_link.go:263-336 | every list of locked operations from a starting state is a run, so the run results cover them all |
| `LinkRuns.Trace.InvAt` | forwarder/px4_link.go:66-137 | the snapshot invariant holds at every point of every run |
| `LinkRuns.Trace.EventMoves` | forwarder/px4_link.go:322-336 | only health checks switch; they stamp the entry time and count the switch |
| `LinkRuns.Trace.SwitchIsLate` | forwarder/px4_link.go:66-137 | no switch leaves Ethernet before a loss period, and no switch leaves an open UART early except for Ethernet |
| `LinkRuns.Trace.SwitchEntersUsable` | forwarder/px4_link.go:77-131 | the link a switch enters has a channel attached by the events before it, has been heard within the loss period where the source asks for it, and TELEM3 is taken from Ethernet only if TELEM2 has none |
| `LinkRuns.Trace.HeardExact` | forwarder/px4_link.go:286-296 | the time kept for a link is that of its last heartbeat event |
| `LinkRuns.Trace.AttachedExact` | forwarder/px4_link.go:263-284 | a slot holds the last channel registered that belongs to its link by endpoint, unless that was unregistered since |
| `LinkRuns.Trace.FlagsExact` | forwarder/px4_link.go:322-331 | a health check sees a link as open and as fresh exactly by the register, unregister and heartbeat events before it |
| `LinkRuns.Trace.TargetServes` | forwarder/px4_link.go:361-393 | at every point the channel a transmission would use is the one attached to the active link, and belongs to it by its endpoint |
| `LinkRuns.Trace.SwitchSpacing` | forwarder/px4_link.go:66-137 | consecutive switches are a loss period apart unless the second regains Ethernet or leaves a closed link |
| `LinkRuns.Trace.FirstSwitchLate` | forwarder/px4_link.go:66-137 | the first switch of a run leaves Ethernet, a loss period or more after the start |
| `LinkRuns.Trace.EntryAfterRecovery` | forwarder/px4_link.go:66-137 | after a recovery, being off Ethernet again took a further loss period |
| `LinkRuns.Trace.RecoveryGap` | forwarder/px4_link.go:77-88 | two Ethernet recoveries are at least a loss period apart |
| `LinkRuns.Trace.RecoveryRate` | forwarder/px4_link.go:66-137 | a window of length T holds at most 1 + floor(T / loss) recoveries |
| `LinkRuns.Trace.OffHasDeparture` | forwarder/px4_link.go:95-108 | off Ethernet there is a departure since which it has stayed off, and it is marked lost |
| `LinkRuns.Trace.CounterExact` | forwarder/px4_link.go:286-296 | the recovery counter is min(1000, Ethernet heartbeats since that departure) |
| `LinkRuns.Trace.CounterZeroOnEthernet` | forwarder/px4_link.go:286-296 | on Ethernet the counter is zero |
| `LinkRuns.Trace.RecoveryExact` | forwarder/px4_link.go:77-88 | a health check regains Ethernet if and only if that many heartbeats came since the departure, the threshold is at most 1000, and by the events Ethernet was heard within the loss period and has a channel |
| `LinkRuns.Trace.DepartureExact` | forwarder/px4_link.go:91-112 | a health check leaves Ethernet if and only if by the events it was not heard within the loss period, a loss period passed since it was entered and a UART has a channel; TELEM2 first |
| `LinkRuns.Trace.Telem2Exact` | forwarder/px4_link.go:113-123 | on TELEM2, short of a recovery, a health check goes to TELEM3 if and only if by the events that has a channel and TELEM2 has none, or was not heard and is past its hold |
| `LinkRuns.Trace.Telem3Exact` | forwarder/px4_link.go:124-131 | on TELEM3, short of a recovery, a health check returns to TELEM2 if and only if by the events that has a channel and was heard, and TELEM3 has none or is past its hold |
| `LinkRuns.Trace.NoReturnAboveCeiling` | forwarder/px4_link.go:77-88 | with a threshold above 1000 no run ever regains Ethernet |
| `LinkRuns.Trace.LostExact` | forwarder/px4_link.go:77-108 | Ethernet is marked lost exactly from a health check that found it stale a loss period after it was entered until it is regained |
| `LinkRuns.Trace.GenerationCounts` | forwarder/px4_link.go:322-336 | the generation is the number of changes of the active link so far |
| `LinkRuns.Trace.SameGenerationSameLink` | forwarder/px4_link.go:300-336 | equal generations at two points mean no change of link in between |
| `LinkLocks.CommitLinearised` | forwarder/px4_link.go:322-336 | an operation committed under its lock extends the sequential run |
| `LinkLocks.StepOwners` | forwarder/px4_link.go:322-343 | each lock is held by exactly the thread whose program point says so |
| `LinkLocks.StoreKeepsLink` | forwarder/px4_link.go:322-343 | the active link moves only in a health check, which holds both locks |
| `LinkLocks.StepFrozen` | forwarder/px4_link.go:361-393 | what a transmitting thread read stays true while it transmits |
| `LinkLocks.Invariant` | forwarder/px4_link.go:322-393 | ownership, frozen reads, linearisation and epochs hold in every state of every interleaving |
| `LinkLocks.InterleavingsAreRuns` | forwarder/px4_link.go:263-343 | however threads interleave, the committed operations form a run ending in the shared state |
| `LinkLocks.StepOrdered` | forwarder/px4_link.go:322-343 | a step keeps the committed health checks in order, and a pending one after them |
| `LinkLocks.InterleavingsAreTimed` | forwarder/px4_link.go:429-447 | with the supervisor as the one thread that makes health checks, stamped by its ticker, the committed run has them in order of time |
| `LinkLocks.RecoveryRateUnderLocks` | forwarder/px4_link.go:322-343 | however threads interleave, a window of length T holds at most 1 + floor(T / loss) Ethernet recoveries |
| `LinkLocks.SendsOnActiveLink` | forwarder/px4_link.go:361-393 | a transmission in progress is on the link that is active now |
| `LinkLocks.OneLinkPerEpoch` | forwarder/px4_link.go:361-393 | a transmission ends on the link and in the generation it began with; switches order transmissions into epochs of one link each |
| `LinkLocks.SentOnOwnChannel` | forwarder/px4_link.go:361-393 | however threads interleave, a completed transmission went out on the channel attached to the active link when it was read, which belongs to that link by its endpoint |
| `LinkLocks.NoDeadlock` | forwarder/px4_link.go:322-393 | while any thread is inside an operation some thread can move |
| `LinkLocks.AloneCompletes` | forwarder/px4_link.go:322-393 | undisturbed, a transmission sends over the active link's channel if there is one, an operation is applied, a reader is told link and generation, and all locks are given back |
| `LinkLocks.AnswersArePoints` | forwarder/px4_link.go:300-313 | however threads interleave, what a reader is told is the active link and generation at one point of the run, and later answers are of later points |
| `LinkScheduler.NextDeadline` | forwarder/px4_link.go:157-163 | strictly after now, no earlier than one period on, and no later than needed |
| `LinkScheduler.AdvanceDeadline` | forwarder/px4_link.go:157-163 | the loop terminates with the least due + k * period, k at least 1, after now |
| `LinkScheduler.TurnExact` | forwarder/px4_link.go:142-163 | one turn, however late: which action it runs, and that each deadline it moves goes to the next point of its own half-second or one-second grid, or 200 ms on for a heartbeat put off |
| `LinkScheduler.Turns.PhasesKeepGrid` | forwarder/px4_link.go:429-447 | from the source's offsets and tick gaps up to 250 ms the phases never meet and each runs exactly once per grid point passed |
| `LinkScheduler.Turns.WhileDeferred` | forwarder/px4_link.go:142-155 | during a deferral the heartbeat keeps its new deadline and health runs at most once |
| `LinkScheduler.Turns.SlackGrows` | forwarder/px4_link.go:142-155 | each further deferral has strictly more room before the next health check |
| `LinkScheduler.Turns.HeartbeatFollows` | forwarder/px4_link.go:142-155 | at tick gaps up to 300 ms every deferred heartbeat is sent |
| `LinkScheduler.Turns.DeferredAtMostTwice` | forwarder/px4_link.go:139-155 | from any deadlines, at tick gaps up to 150 ms, at most two deferrals in a row and less than 700 ms to the heartbeat |
| `LinkScheduler.Turns.SlowTicksStarve` | forwarder/px4_link.go:146-147 | ticks half a second apart or more never send the heartbeat |
| `LinkScheduler.GridTurn` | forwarder/px4_link.go:142-163 | a turn less than 250 ms late runs one phase and moves its deadline by one period |
| `LinkScheduler.StarvesAbove` | forwarder/px4_link.go:142-155 | above 300 ms no bound on the wait for a heartbeat holds |
| `LinkScheduler.StarvationThreshold` | forwarder/px4_link.go:142-155 | some bound on the wait exists if and only if tick gaps are at most 300 ms |
| `MavlinkCrc.AccumulateIsFeedByte` | forwarder/px4_link.go:558-562 | the byte step is eight shifts of the bit-serial register, for every byte and register |
| `MavlinkCrc.MavlinkChecksum` | forwarder/px4_link.go:550-556 | the loop computes the bit-serial CRC of the data and the extra byte |
| `MavlinkCrc.BitStepReverses` | forwarder/px4_link.go:558-562 | a shift loses nothing |
| `MavlinkCrc.TwoBytesAtOnce` | forwarder/px4_link.go:558-562 | two bytes are sixteen shifts of the register with both mixed in at once |
| `MavlinkCrc.FeedByteSeparates` | forwarder/px4_link.go:558-562 | no two registers, bytes or pairs of bytes are confused |
| `MavlinkCrc.ChecksumDetects` | forwarder/px4_link.go:550-562 | bodies that differ only inside one byte or two adjacent bytes have different checksums |
| `MavlinkCrc.ChecksumTakesBits` | forwarder/px4_link.go:550-562 | the checksum is the register fed the bits of the body one by one |
| `MavlinkCrc.BurstDetected` | forwarder/px4_link.go:550-562 | bodies whose bits differ only inside 16 consecutive ones, across byte boundaries as well, have different checksums |
| `MavlinkCrc.SixteenExactly` | forwarder/px4_link.go:558-562 | strings of n bits fed to one register are always told apart if and only if n is at most 16 |
| `MavlinkCrc.CheckValue` | forwarder/px4_link.go:550-562 | the bit-serial definition gives the published check value 0x6F91 |
| `HeartbeatScan.FrameHasPX4Heartbeat` | forwarder/px4_link.go:517-548 | true if and only if the buffer holds the complete encoding of a PX4 HEARTBEAT somewhere; no index out of range on any buffer |
| `HeartbeatScan.CheckHeader` | forwarder/px4_link.go:518-541 | the tests before the checksum accept exactly the header of a PX4 HEARTBEAT |
| `HeartbeatScan.ReadWord` | forwarder/px4_link.go:542 | the two checksum bytes are the low and high byte of the word |
| `HeartbeatScan.ReadMessageId` | forwarder/px4_link.go:526-527 | the three-byte id is zero exactly when its bytes are |
| `HeartbeatScan.MatchIsHeartbeat` | forwarder/px4_link.go:517-548 | what passes the tests is an encoded heartbeat |
| `HeartbeatScan.HeartbeatMatches` | forwarder/px4_link.go:517-548 | every encoded heartbeat passes the tests where it lies |
| `HeartbeatScan.FoundAmongOtherBytes` | forwarder/px4_link.go:517-548 | a heartbeat is found whatever surrounds it |
| `HeartbeatScan.ShortestExactly` | forwarder/px4_link.go:517-548 | for every 21-byte buffer the answer by its bytes: marker, length, system, component, message, autopilot and checksum |
| `HeartbeatScan.SampleFound` | forwarder/px4_link.go:517-548 | a concrete heartbeat frame is found, exactly with its checksum 0xBDB6 |
| `HeartbeatScan.DamageIsSeen` | forwarder/px4_link.go:517-562 | damage within 16 consecutive bits that leaves the length byte alone does not pass with the original checksum |
| `HeartbeatScan.BytesAreBits` | forwarder/px4_link.go:517-562 | a change of one byte or two adjacent ones is such damage |
| `HeartbeatScan.SeenExactly` | forwarder/px4_link.go:517-562 | damage within 16 bits from a given bit of the body on is always seen if and only if that bit lies past the length byte |
| `HeartbeatScan.LengthDamagePasses` | forwarder/px4_link.go:517-562 | the failing input: a PX4 HEARTBEAT of length 11 or more whose length byte is turned into 9 passes |
| `SeqHistory.SeqHist.constructor` | forwarder/forwarder.go:118-124 | a new ring holds nothing |
| `SeqHistory.SeqHist.Duplicate` | forwarder/forwarder.go:126-142 | duplicate if and only if the number is held; the ring then holds the last 32 distinct arrivals in order |
| `SeqHistory.SeqHist.Search` | forwarder/forwarder.go:127-135 | the search finds a number exactly when it is held |
| `SeqHistory.SeqHist.Push` | forwarder/forwarder.go:136-141 | the held numbers gain one at the end and keep at most 32 |
| `SeqHistory.PushedOver` | forwarder/forwarder.go:136-141 | overwriting the oldest slot appends and drops the oldest |
| `SeqHistory.RingDistinct` | forwarder/forwarder.go:126-142 | after any stream the entries are distinct and at most 32 |
| `SeqHistory.RingIsLastAccepted` | forwarder/forwarder.go:126-142 | the ring holds exactly the numbers of the last 32 accepted frames, all of them while there are fewer |
| `SeqHistory.IdealExactlyWhen` | forwarder/forwarder.go:116-142 | every prefix is deduplicated ideally if and only if the ring can tell each arriving frame from those before it |
| `SeqHistory.OrderlyTells` | forwarder/forwarder.go:116-142 | copies before 32 further new frames and numbers less than 256 apart are enough for that |
| `SeqHistory.ExactlyOnce` | forwarder/forwarder.go:116-142 | under those limits each frame passes exactly once, for any reordering and duplication |
| `PacketLedger.Ledger.Inc` | forwarder/forwarder.go:353-423 | total and per-second counters both count the bump, as the record of bumps says |
| `PacketLedger.Ledger.TakeSnapshot` | forwarder/forwarder.go:425-467 | the per-second values are the bumps since the last snapshot, the totals all bumps |
| `PacketLedger.BumpOrder` | forwarder/forwarder.go:1022-1182 | a frame is counted raw, then sorted, then settled, each once |
| `PacketLedger.StepBalanced` | forwarder/forwarder.go:1022-1182 | each single bump keeps both balances up to the frame in flight |
| `PacketLedger.StepConserved` | forwarder/forwarder.go:425-467 | snapshots lose and invent nothing |
| `PacketLedger.LedgerBalances` | forwarder/forwarder.go:353-467 | in every interleaving raw = sysid255 + duplicate + accepted and accepted = the fates + withheld, off by at most the one frame in flight; totals = sum of snapshots + residue |
| `PacketLedger.CountsAreTrail` | forwarder/forwarder.go:353-467 | total and per-second counters of an interleaving are its record of bumps, whole and since the last snapshot |
| `PacketLedger.ObjectBalances` | forwarder/forwarder.go:353-467 | the same balances and conservation for a ledger object that went through the interleaving |
| `PacketLedger.ExactFrame` | forwarder/forwarder.go:1022-1182 | a frame counted in full keeps both balances exact, whatever its verdict |
| `PacketLedger.AllBumpsExact` | forwarder/forwarder.go:1022-1182 | the bumps of any list of verdicts balance |
| `PacketTally.CountersExact` | forwarder/forwarder.go:353-423 | every counter counts the frames whose verdict it is for, and no others |
| `UplinkReader.DedupTable.Reset` | forwarder/forwarder.go:1013-1018 | a new generation forgets every sender |
| `UplinkReader.DedupTable.CheckDuplicate` | forwarder/forwarder.go:1042-1056 | only the sender's own history decides and only it moves |
| `UplinkReader.Reader.SeeGeneration` | forwarder/forwarder.go:1013-1018 | the table is dropped exactly when the generation moved |
| `UplinkReader.Reader.Settle` | forwarder/forwarder.go:1072-1182 | the fate of an accepted frame and the one counter it bumps, none for a withheld frame; forwarded if and only if connected, in the tunnel where one is required, healthy, not a withheld GPS message, and sent |
| `UplinkReader.Reader.HandleFrame` | forwarder/forwarder.go:1007-1182 | one frame moves the reader as the run model says and bumps its verdict's counters in order |
| `UplinkReader.Reader.ReceiveAndForward` | forwarder/forwarder.go:1001-1182 | over any list of frames, with generated packets in between, the loop gives each the verdict of the run model, every other counter has counted exactly the frames with the verdicts it is for, and both balances hold |
| `UplinkReader.HandledHistory` | forwarder/forwarder.go:1013-1056 | a frame feeds only its own sender's history, and only past the sysid filter |
| `UplinkReader.Uplink.OneLinkPerGeneration` | forwarder/px4_link.go:300-336 | within one generation, frames handled in between included, one link is active |
| `UplinkReader.Uplink.TableComesFrom` | forwarder/forwarder.go:1012-1056 | every number in the table is that of a frame passed in the generation last seen |
| `UplinkReader.Uplink.DuplicateHasTwin` | forwarder/forwarder.go:1012-1056 | a frame is dropped as duplicate only for a passed twin on the same link with no switch since |
| `UplinkReader.Uplink.HistoryIsRing` | forwarder/forwarder.go:1012-1056 | each sender's history is one ring fed that sender's frames of this generation |
| `UplinkReader.Uplink.PassedAreAccepted` | forwarder/forwarder.go:1012-1056 | the frames of a sender that pass are those one ring would accept |
| `UplinkReader.Uplink.SenderExactlyOnce` | forwarder/forwarder.go:1012-1056 | within one generation, orderly frames of a sender each pass exactly once, mixed in any way with other senders and arbiter events |
| `UplinkReader.Uplink.ConnectedFromHeartbeat` | forwarder/forwarder.go:1072-1145 | once a heartbeat passed, no frame is dropped for want of a flight controller |
| `UplinkReader.Uplink.ConnectedExactly` | forwarder/forwarder.go:1072-1145 | the flight controller counts as connected exactly once a heartbeat has passed the duplicate check |
| `UplinkReader.Uplink.FateExact` | forwarder/forwarder.go:1072-1182 | each fate of a frame that passed, if and only if: a heartbeat has passed by then, the tunnel is ready where required, healthy, GPS_RAW_INT allowed, sent |
| `UplinkReader.Uplink.VerdictExact` | forwarder/forwarder.go:1007-1056 | how far a frame gets, if and only if: over the active link, not from system 255, and with a number its sender's ring of this generation does not hold |
| `UplinkLocks.StepMirrored` | forwarder/px4_link.go:300-336 | each single step of a thread extends that run or leaves it |
| `UplinkLocks.InterleavingsAreUplinks` | forwarder/forwarder.go:1007-1018 | however threads interleave and whatever frames arrive, there is an uplink run with the same operations, frames and answers in order, so the uplink results hold under the locks |
| `AuthWire.WriteRead` | auth/protocol.go:300-336 | writing the number read gives the bytes back |
| `AuthWire.ReadWrite` | auth/protocol.go:259-297 | reading the number written gives it back if it fits the width |
| `AuthWire.WireNumbers` | auth/protocol.go:259-297 | numbers of one, two and eight bytes go out low byte first, digit by digit |
| `AuthWire.FieldUnambiguous` | auth/protocol.go:259-297 | equal strings begin with equal fields of one kind, and the rests agree |
| `AuthWire.ListUnambiguous` | auth/protocol.go:259-297 | the same for whole lists of fields |
| `AuthWire.ReadBlob` | auth/protocol.go:308-323 | a length-prefixed string is read if and only if one is completely there |
| `AuthWire.Stuck` | auth/protocol.go:300-336 | if the next field cannot be read, no reading of the list exists |
| `AuthWire.ReadIsUnique` | auth/protocol.go:300-336 | what was read is the only reading |
| `AuthRequests.SerializeAuthInit` | auth/protocol.go:239-255 | the bytes by position: 0x01, then the length and bytes of the uuid, strings after their two-byte length, nothing after; the packet of the unambiguity results |
| `AuthRequests.SerializeAuthResponse` | auth/protocol.go:259-297 | the bytes by position: 0x03, uuid, HMAC, eight timestamp bytes, address, strings after their two-byte length, nothing after; the packet of the unambiguity results |
| `AuthRequests.SerializeSessionRequest` | auth/protocol.go:410-435 | the bytes by position: 0x10, uuid, old token, strings after their two-byte length, nothing after; the packet of the unambiguity results |
| `AuthRequests.SerializeSessionRefresh` | auth/protocol.go:496-521 | the bytes by position: 0x12, token, then uuid, strings after their two-byte length, nothing after; the packet of the unambiguity results |
| `AuthRequests.SerializeRegisterInit` | auth/protocol.go:575-603 | the bytes by position: 0xA0, uuid, and the type byte, length byte and up to 32 model bytes unless both say nothing, strings after their two-byte length, nothing after; the packet of the unambiguity results |
| `AuthRequests.SerializeRegisterResponse` | auth/protocol.go:646-675 | the bytes by position: 0xA2, uuid, HMAC, eight timestamp bytes, strings after their two-byte length, nothing after; the packet of the unambiguity results |
| `AuthRequests.SerializeAPIKeyRequest` | auth/protocol.go:758-788 | the bytes by position: 0x20, uuid, token, two bytes of hours, strings after their two-byte length, nothing after; the packet of the unambiguity results |
| `AuthRequests.SerializeAPIKeyRevoke` | auth/protocol.go:870-895 | the bytes by position: 0x22, uuid, token, strings after their two-byte length, nothing after; the packet of the unambiguity results |
| `AuthRequests.SerializeAPIKeyStatus` | auth/protocol.go:926-951 | the bytes by position: 0x24, uuid, token, strings after their two-byte length, nothing after; the packet of the unambiguity results |
| `AuthRequests.SerializeAPIKeyDelete` | auth/protocol.go:1037-1062 | the bytes by position: 0x26, uuid, token, strings after their two-byte length, nothing after; the packet of the unambiguity results |
| `AuthRequests.SerializeVPNProvisionRequest` | auth/protocol.go:1111-1138 | the bytes by position: 0xB0, uuid, token, key, strings after their two-byte length, nothing after; the packet of the unambiguity results |
| `AuthRequests.TrailerIsSeen` | auth/protocol.go:575-603 | REGISTER_INIT with and without vehicle trailer are never confused |
| `AuthRequests.PacketsUnambiguous` | auth/protocol.go:239-297 | across all eleven request types, equal packets carry the same request, models up to 32 bytes |
| `AuthRequests.LongFieldsCollide` | auth/protocol.go:410-435 | two SESSION_NEW requests that swap a 64 KiB string of zeros with an empty one share a packet |
| `AuthRequests.UnambiguousExactly` | auth/protocol.go:239-297 | no two requests with strings under a limit share a packet, across all types, if and only if the limit is at most 64 KiB |
| `AuthReplies.CorrectIsUnique` | auth/protocol.go:300-402 | at most one parse result is correct on any bytes |
| `AuthReplies.RoundTrip` | auth/protocol.go:300-402 | the documented encoding, whatever follows, parses to the reply |
| `AuthReplies.WireLayout` | auth/protocol.go:300-402 | the encoding of each reply byte by byte: type, result, and its fields in order |
| `AuthReplies.LayoutParses` | auth/protocol.go:300-402 | each reply given by its bytes parses to its own fields, whatever follows |
| `AuthReplies.RejectedWait` | auth/protocol.go:341-402 | a refused AUTH_ACK gives result, code and the wait of the two bytes after it |
| `AuthReplies.ShortReadNoticed` | auth/protocol.go:300-402 | no strict prefix of a success packet parses; for API_KEY_RESPONSE this speaks of the inner parser, and the next rows of the outer one |
| `AuthReplies.ParseAuthChallenge` | auth/protocol.go:300-336 | the one correct result on every byte string: the reply the bytes begin with, or an error if there is none |
| `AuthReplies.ParseAuthAck` | auth/protocol.go:341-402 | likewise; a rejection carries its code and wait if present |
| `AuthReplies.ParseSessionAck` | auth/protocol.go:438-492 | likewise |
| `AuthReplies.ParseSessionRefreshAck` | auth/protocol.go:524-565 | likewise |
| `AuthReplies.ParseRegisterChallenge` | auth/protocol.go:606-642 | likewise |
| `AuthReplies.ParseRegisterAck` | auth/protocol.go:679-750 | likewise |
| `AuthReplies.ParseVPNProvisionAck` | auth/protocol.go:1140-1185 | likewise |
| `AuthReplies.ParseAPIKeyUnframed` | auth/protocol.go:816-866 | likewise, for the reply without its length frame |
| `AuthReplies.ParseAPIKeyResponse` | auth/protocol.go:792-813 | the third byte decides on the frame; a short frame is an error, otherwise the unframed result |
| `AuthReplies.FramedRoundTrip` | auth/protocol.go:792-866 | the framed encoding parses to the reply whatever its error code and key length |
| `AuthReplies.UnframedExactly` | auth/protocol.go:792-866 | the unframed encoding parses to the reply if and only if its error code is not 0x21 |
| `AuthReplies.KeyResult` | auth/protocol.go:816-866 | the inner parser fails if and only if there is neither a rejection nor a success reply with as many bytes as its key length asks for |
| `AuthReplies.FramedShortRead` | auth/protocol.go:792-813 | with its length frame, no strict prefix of an API key reply parses, success or rejection, whatever its key length |
| `AuthReplies.UnframedShortReadExactly` | auth/protocol.go:792-866 | the same for one prefix: the exact condition on the reply and the number of bytes that came |
| `AuthReplies.AllShortReadsNoticed` | auth/protocol.go:792-866 | every strict prefix of an unframed success reply is noticed if and only if its code is not 0x21, its key has at most 22 bytes, or the key length has a zero low byte and the key begins with a number that reaches beyond the packet |
| `AuthReplies.TruncatedKeyRejected` | auth/protocol.go:792-866 | from 35 bytes on, a truncated unframed success reply with code 0x21 parses as a rejection unless the key length has a zero low byte |
| `AuthReplies.TruncatedKeyExample` | auth/protocol.go:792-866 | the failing input: 40 of 53 bytes of an unframed success reply with code 0x21 parse as a rejection |
| `AuthSession.SpacedPairwise` | auth/client.go:530-556 | any two failed recoveries without an ack between, once connected, are a reconnect interval apart |
| `AuthSession.Client.constructor` | auth/client.go:484-491 | a new client has never been connected; a non-positive interval means five minutes |
| `AuthSession.Client.MarkConnected` | auth/client.go:493-510 | an ack clears cause and backoff and is the last word from the server |
| `AuthSession.Client.MarkDisconnected` | auth/client.go:512-528 | the session is down for the cause given; backoff stays |
| `AuthSession.Client.ScheduleReconnectBackoff` | auth/client.go:530-545 | a failed recovery sets the next one an interval ahead, but not before the first connection |
| `AuthSession.Client.ReconnectBackoffActive` | auth/client.go:547-556 | active exactly before the deadline of a client that was ever connected |
| `AuthSession.Client.IsAuthenticated` | auth/client.go:559-578 | true if and only if the last word from the server is an ack within the staleness bound and the token has not expired |
| `AuthSession.Client.Authenticate` | auth/client.go:596-771 | one handshake added to the history: a dial if needed, init, challenge, response, ack, in that order and as far as each succeeds; it succeeds if and only if the ack carries a token, whose token, expiry and interval become the session; otherwise the session's standing is left alone; the process stops if and only if the token has fewer than 20 bytes |
| `AuthSession.Client.Converse` | auth/client.go:660-751 | the messages of a handshake in order, the ack they end in, and the connection dropped on every failure but an ack without token |
| `AuthSession.Client.LogToken` | auth/client.go:766-767 | the slice for the log line is out of range exactly for tokens under 20 bytes |
| `AuthSession.ShortTokenParses` | auth/client.go:766-767 | the failing input: a well-formed AUTH_ACK with a one-byte token |
| `AuthSession.Client.ReconnectTCP` | auth/client.go:1182-1223 | success means an open connection; a change of local address is timed, and nothing else is |
| `AuthSession.Client.SendRefresh` | auth/client.go:854-933 | skipped exactly within ten seconds of a change of address, an invalid token (0x07) without one, otherwise the server's word: an ack that sets the expiry, its error code, or 0; only an ack changes the session's standing |
| `AuthSession.Client.Recover` | auth/client.go:981-1051 | extends the history; one handshake for an invalid session; after a network error a handshake without a lasting token, else a new connection, a refresh on it, and a handshake if the first fails or the second is refused with 0x06 or 0x07; recovered if and only if acknowledged |
| `AuthSession.Client.HandleRefreshFailure` | auth/client.go:936-1056 | by the code: 0x03 and 0x05 only mark the session down; 0x06 and 0x07 mark it invalid and make exactly one handshake; any other is a network error with its recovery; unless backoff is on, and a failed attempt leaves a deadline ahead |
| `AuthSession.Client.Tick` | auth/client.go:1059-1103 | a running client makes a refresh each turn; its result decides what is logged, by code |
| `AuthSession.Client.KeepaliveLoop` | auth/client.go:1059-1103 | over any number of turns the history only grows, the flags tell what the server said, failed recoveries stay spaced, the process survives if and only if every token granted has at least 20 bytes, and while it does every turn has made a refresh |
| `AuthSession.Client.Start` | auth/client.go:225-267 | nothing if running or with a lasting session, otherwise exactly one handshake, on whose success alone it succeeds |
| `Failover.StretchDecides` | Module_4G/connection_manager.py:290-301 | down longer than the delay is down longer than it since the stretch of failures began |
| `Failover.GoodProbeRestarts` | Module_4G/connection_manager.py:290-301 | after a good probe only the failures after it count |
| `Failover.NetworkMonitor.constructor` | Module_4G/connection_manager.py:261-278 | no restart and no failing stretch to begin with |
| `Failover.NetworkMonitor.ResolveTarget` | Module_4G/connection_manager.py:280-309 | under prefer-4G WiFi if and only if every probe since one more than the delay ago failed, WiFi is up and fallback is allowed; never under 4G only; the reason given is the right one in each case |
| `Failover.NetworkMonitor.PollPending` | Module_4G/connection_manager.py:886-906 | an outstanding restart is resolved by an address or given up after 120 s |
| `Failover.WaitDoubles` | Module_4G/connection_manager.py:913-916 | off WiFi the wait starts at 5 minutes, doubles with each restart, and is an hour exactly after four or more |
| `Failover.WifiWaitDoubles` | Module_4G/connection_manager.py:909-912 | on WiFi the wait starts at the configured minimum and doubles up to the cap; it never shrinks if and only if the minimum is not negative |
| `Failover.NetworkMonitor.IsDue` | Module_4G/connection_manager.py:908-925 | due if and only if a restart now keeps its distance from those before |
| `Failover.NetworkMonitor.TriggerReinit` | Module_4G/connection_manager.py:867-944 | restarts if and only if the init unit is idle, none is outstanding and the distance is kept |
| `Failover.NetworkMonitor.ApplyRoutingPolicy` | Module_4G/connection_manager.py:945-1062 | one cycle: interface, cleared backoff on a good probe, restart rule on a bad one |
| `Failover.NetworkMonitor.Run` | Module_4G/connection_manager.py:1208-1225 | over any number of cycles the log and the probes only grow and restarts stay throttled |
| `Failover.OutageBackoff` | Module_4G/connection_manager.py:908-935 | in an outage off WiFi the n-th restart comes no sooner than the sum of the doubling waits |
| `Failover.UnresolvedTwoMinutes` | Module_4G/connection_manager.py:886-906 | a restart comes at least 120 s after an unresolved one |
| `SmoothTracker.RoundKeepsBounds` | Find_landing/processing/smooth_tracker.py:37-38 | rounding half to even does not leave integer bounds |
| `SmoothTracker.JumpByLongerSide` | Find_landing/processing/smooth_tracker.py:126-127 | the jump bound is the fraction of the longer side, of at least one pixel |
| `SmoothTracker.RoundNearest` | Find_landing/processing/smooth_tracker.py:37-38 | rounding gives the nearest integer, the even one of two |
| `SmoothTracker.StepApart` | Find_landing/processing/smooth_tracker.py:126-138 | whether the joint jump test fires makes no difference to either axis |
| `SmoothTracker.AxesApart` | Find_landing/processing/smooth_tracker.py:126-138 | over any frames each coordinate moves as if the other did not exist |
| `SmoothTracker.FrameLaw` | Find_landing/processing/smooth_tracker.py:126-138 | on both axes of the tracked position the error keeps its sign and shrinks by exactly alpha * min(abs(e), max_jump) per accepted frame |
| `SmoothTracker.BetweenExactlyWhen` | Find_landing/processing/smooth_tracker.py:126-138 | no frame overshoots, for all positions and detections, if and only if nothing moves or the bound is positive and the weight between 0 and 1 |
| `SmoothTracker.ParametersExactlyWhen` | Find_landing/processing/smooth_tracker.py:84-97 | a tracker never overshoots, on images of any size, if and only if its weight or fraction is zero or the fraction is positive and the weight between 0 and 1 |
| `SmoothTracker.NegativeFractionOvershoots` | Find_landing/processing/smooth_tracker.py:126-138 | the failing input for a negative fraction: a detection at (-1, 0) moves the position to (0.5, 0.5) |
| `SmoothTracker.StaysInside` | Find_landing/processing/smooth_tracker.py:126-138 | an axis stays within any bounds its detections stay within |
| `SmoothTracker.ShownAmongDetections` | Find_landing/processing/smooth_tracker.py:126-166 | the rounded position shown lies in every box that holds the detections since the last reset |
| `SmoothTracker.Converges` | Find_landing/processing/smooth_tracker.py:126-138 | for a stopped target the error never grows or changes sign and drops by alpha * bound a frame until within the bound |
| `SmoothTracker.Decays` | Find_landing/processing/smooth_tracker.py:126-138 | within the bound each frame leaves exactly the rest of the error |
| `SmoothTracker.LeftIsPower` | Find_landing/processing/smooth_tracker.py:9-12 | what is left after n frames is (1 - alpha)^n of the error |
| `SmoothTracker.MoverApart` | Find_landing/processing/smooth_tracker.py:126-138 | the tracker's move is one pull on either axis |
| `SmoothTracker.TrackerDraws` | Find_landing/processing/smooth_tracker.py:126-138 | with a weight between 0 and 1 each axis approaches a stopped target |
| `SmoothTracker.StoppedTarget` | Find_landing/processing/smooth_tracker.py:126-138 | from any position the tracker approaches a stopped target on both axes at once, dropping alpha * bound a frame until within the bound, and overshoots neither |
| `SmoothTracker.DirectionExact` | Find_landing/processing/smooth_tracker.py:45-75 | which side is shown, exactly, by the side shown before, the offset and the two thresholds |
| `SmoothTracker.SteadyExactlyWhen` | Find_landing/processing/smooth_tracker.py:45-75 | an unmoving target shows a steady direction from the second frame, at every offset, if and only if the release threshold does not exceed the trigger threshold |
| `SmoothTracker.Tracker.constructor` | Find_landing/processing/smooth_tracker.py:84-105 | the hold is at least one frame; nothing has been seen |
| `SmoothTracker.Tracker.Reset` | Find_landing/processing/smooth_tracker.py:183-190 | forgets position, direction and streak |
| `SmoothTracker.Tracker.Miss` | Find_landing/processing/smooth_tracker.py:111-120 | the last report again exactly while a detection lies within the hold |
| `SmoothTracker.Tracker.Hit` | Find_landing/processing/smooth_tracker.py:122-181 | one more frame averaged in, shown rounded with its offset and direction |
| `SmoothTracker.Tracker.Accept` | Find_landing/processing/smooth_tracker.py:107-181 | a report if and only if this call or one of the hold_frames before it carried a detection; it shows the average since the last reset |

## Left out

- LinkRuns.Trace.RecoveryRate: uses that health checks are ordered in time; LinkLocks.RecoveryRateUnderLocks derives that order from one supervisor thread and a ticker that does not go back.
- LinkScheduler.Turns.PhasesKeepGrid: holds for tick gaps up to 250 ms, the offset between the phases; later ticks are covered by LinkScheduler.TurnExact and the deferral results.
- UplinkReader.Reader.Settle: the order of log lines, web notifications and stream requests inside the branch is not modelled.
- AuthSession.Client.KeepaliveLoop: the endless loop is modelled for any finite number of turns, with stop requests and the timer as undetermined choices.
- AuthSession.Client.ScheduleReconnectBackoff: asks for a recovery that began after the last deadline, which its one caller guarantees; this is what ties the deadline to the history.
- AuthReplies.RoundTrip: a rejected AUTH_ACK is required to end after its error code, because bytes after it are read as a wait time.
- Failover.NetworkMonitor.Run: assumes a wall clock that is positive and does not go back, as the source's zero-means-unset fields do.
- SmoothTracker.Tracker.Hit: exact arithmetic over reals instead of floating point; sizes, corners and marker lists, which use the same average without the clamp, are not modelled.
- The generation is an unbounded number (64 bits in the source) and durations do not saturate.
- Link identifiers are 0 to 3; the default branch of the link step for other values is not modelled.
- Parsing of link configuration and baud rates, and the socket loop that feeds Ethernet broadcasts to the scanner.
- Per-message-identifier statistics, which are plain counters keyed by message.
- Socket and MAVLink library calls, WireGuard, HMAC and key derivation, secret storage: outcomes are undetermined.
- Rebuilding the sender after a change of address; only the health flag it leaves is an input.
- Reply parsers for API key revoke, status and delete; the status reply has a lenient optional tail.
- Recovery triggered from outside the keepalive loop, and session requests on a second connection.
- Network mode strings other than the three documented ones, which the source treats as prefer-4G.
- Routing table commands, modem bring-up, camera, image detection, web interface and display.
