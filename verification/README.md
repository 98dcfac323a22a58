# Osprey BLAKE2b miner: a verified model

The miner grinds 64-bit nonces through BLAKE2b-256 on an FPGA and checks every reported
candidate again in C on the host. The two sides recompute the same facts independently: which
bytes, which word, which nonce, which target. This project models both sides and proves that
they agree.

`dafny verify dfyconfig.toml` checks everything.

## The modules

| file | what it models |
|---|---|
| Words, Serial | 64-bit words with wrap-around, byte orders, bit strings |
| Blake2b | BLAKE2b as in sections 2.6 to 3.3 of RFC 7693, and the C code proved against it |
| Pipeline, Cores | the unrolled pipeline (rotated lanes, four-clock mixers), the skewed nonce counters, the prefilter, stage 3 |
| HostCheck | the host's recomputation, and the 64-bit compare against the 256-bit one |
| Nonces | how N cores share the nonce space |
| Arbiter, Uart, ResultPath | N-core round robin, serial transmitter, parsed frames |
| FrameSync, Link | finding and keeping frame boundaries on the host, and on the composed line |
| WorkItem, Receiver, Chip | packing, the shift-register receiver, the held copy, run control; whole chip runs |
| KnotsHeader | the five software stages of a Knots v2 header (solo mining) |
| Targets | 256-bit division, difficulty and compact targets |
| Json, Notify, Stratum | the JSON scanner, jobs and shares as text, header agreement with the pool |
| Loopback, Miner | the start-up calibration; chip, cores, arbiter, line and host composed |
| Bech32, Address | checksum algebra and address decoding |
| Sha256, Merkle | streaming SHA-256 over any compression function, the in-place merkle tree |

Code that works by updating state is a method or a class proved against a specification
function; the theorems are about those functions and about whole runs. Clocked VHDL processes
are one `Clocked` function each, with a class whose `Clock` method performs the register
updates. Words are integers below 2^64 with every wrap-around written out.

The main chain of results, from the host and back to the pool:

1. `WorkItem.RoundTrip`, `Receiver.ItemPulse` and `Chip.SwitchTogether`: a packed item sent in any
   timing reaches the cores unchanged, together with the reload of their counters.
2. `Pipeline.LaneRoundsAreRounds`, `Pipeline.TapsGiveF`, `Cores.OneNonce` and
   `Cores.PipelineCoherence`: about 97 hashes are in flight and none ever mixes two nonces.
3. `Chip.ItemIsGround`, `Chip.ReportIsConfirmed` and `Chip.NoNonceTwice` compose these with the
   prefilter and the seeds.
4. `Arbiter.Conservation`, `Arbiter.BoundedWaiting`, `ResultPath.EveryGrantParses`,
   `Link.PassReachesStep` and `Link.LoopKeepsStep`: what the cores report arrives, in order, or is
   counted; the host comes into step at a silence of the line and stays in step.
5. `Loopback.CalibratesToZero` and `Miner.LoopConfirms` join 1 to 4: every candidate the calibrated
   mining loop assembles is what one core showed on one clock, and confirmed if that was from the
   item's first verdict on; `Miner.OneStaleEach`: at most one candidate of each core is older.
6. `Notify.NotifiedIff`, `Stratum.HeaderAgreement`, `Stratum.ShareIsGraded` and
   `Stratum.SubmittedIsAccepted`: the pool rebuilds the header the host hashed, grades the value
   the host compared and accepts what the host submits.

## Assumptions

- `Pipeline.Regs` and `Pipeline.Edge` are the registers of the vendor's mixer
  (vendor/sia-fpga/MixG_FlopPipe_4.vhd:36-85), four to a QuadG (vendor/sia-fpga/QuadG.vhd:33-48).
  kSigma, kIV and kHin (vendor/sia-fpga/PkgBlake2b.vhd:26-56) are the constants of
  miner/blake2b.c:6-26 and RFC 7693. Registers start with any contents.
- The compression function of SHA-256 is a parameter of `Sha256`; every statement there and in
  `KnotsHeader` holds for any compression function.
- Serial input on the host is a sequence of polls, each empty or one byte; a deadline is a number
  of polls. `Link.Heard` ties polls to clocks: a poll takes the next decoded byte if there is one,
  and at least one bit cell passes after an empty poll. The chip's serial input is a sampled line:
  `Receiver.Carries` says what a byte looks like at any baud rate.
- A work source keeps the record of its latest build while the mining loop keeps the context it
  last sent. The agreement theorems are about a context and a record from the same build; when
  sending stalls after a build (miner/miner.c:1802-1822) the two differ until the next one.

## Where code and comments differ

- src/PkgOspreyBlake2b.vhd:116 says the top bits of a verified nonce are the core index. A core's
  first nonce is the last of its left neighbour's slice: `Nonces.TopBitsAreIndex`.
- src/OspreyBlake2bTop.vhd:37 states a conservation law without the slots still in use and
  without the saturation of the counters. The exact law is `Arbiter.Conservation`.
- src/OspreyBlake2bTop.vhd:32 counts 170 bit times a frame. The transmitter spends eleven cells
  on a byte, 187 on a frame: `Uart.FrameCells`.
- src/OspreyBlake2bStage3Core.vhd:154-159 asks for its lane mapping to be validated. It is right:
  `Cores.Stage3Coherence`.
- miner/stratum.c:236-249 loses a bit whenever a remainder reaches 2^63, and then the quotient is
  too small: `Targets.QuotientExactIff`. That can only happen for divisors above 2^63, pool
  difficulties above 2^31. `Targets.TargetExactIff` says for which difficulties the target is
  right. Only for those is it within 2^32 below the rational one: `Targets.HostNearRational`. It is
  zero for every scaled difficulty above 0xFFFF000000000000,
  4294967295 for one: `Targets.TargetVanishes`. And a higher difficulty may give a larger target,
  3221225472 against 3221159936: `Targets.HigherIsLaxer`. From a difficulty with the right target
  on it does not: `Targets.HostAntitone`.
- miner/miner.c:1770 gives frame_sync a buffer of eight frames, 136 bytes, and its gap path
  (miner/miner.c:917-919) copies up to 511 bytes without comparing. `FrameSync.OverrunIff` says
  when the copy does not fit; twelve frames and a gap are enough,
  `FrameSync.TwelveFramesOverrun`. The self-test's 512 bytes (miner/miner.c:1282) always suffice.
- miner/stratum.c:156-172 does not undo escapes, so a string with an escaped quote is cut there:
  `Notify.StrUndoesPrint` says exactly which strings survive. A job id that was cut cannot be sent
  back: `Stratum.JobComesBackIff`.
- miner/stratum.c:728 prints worker name and job id as they are. The line conveys the share exactly
  when both are JSON string contents already: `Stratum.SubmitConveysIff`.
- src/OspreyBlake2bUartTop.vhd:314-316 says a core is silent until it has real work. It is until the
  first target reaches it; for 98 clocks after that it compares digests of the message before:
  `Chip.SilentUntilItem`, `Miner.FirstItemWindow`. The broadcast registers have no reset, so the
  silence begins three clocks after it unless they hold zeros.
- In miner/bech32.c a single wrong character behind the version is caught whatever it is, except
  that a '1' moves the separator and can make another valid address:
  `Address.DetectedIffNotSeparator` has the pair a1sslx8kppzrsq6zapx and a1sslx81ppzrsq6zapx.
- miner/bech32.c:114 passes 6 - 7 groups on for a data part of six symbols. The count wraps, and the
  conversion reads cells of data[] never written until its output is full; the address is rejected
  whatever they hold: `Address.Convert5to8`.
- miner/merkle.c repeats the last element of an odd row, which is why three or more ids and the
  same ids with the last one repeated have one root; a single id does not: `Merkle.SingleElement`.

## Model

| member | source | states |
|---|---|---|
| Blake2b.LoadWord | miner/blake2b.c:30-35 | the byte fold from the top end is the little-endian value |
| Blake2b.GMacro | miner/blake2b.c:42-52 | the in-place macro is G of section 3.1 of RFC 7693 on four distinct cells and changes no other |
| Blake2b.Compress | miner/blake2b.c:54-78 | the in-place compression is F of section 3.2 of RFC 7693 |
| Blake2b.Blake2bNoKey | miner/blake2b.c:80-108 | for every length below 2^64 and every outlen from 1 to 64 the block loop is the unkeyed hash of section 3.3 of RFC 7693, with the last full block kept for the final call and one block for the empty message |
| Pipeline.LaneRoundIsRound | src/OspreyBlake2bStage4Core.vhd:141-164 | mixing rotated lanes and rotating back is one column step and one diagonal step of the indexed rounds |
| Pipeline.LaneRoundsAreRounds | src/OspreyBlake2bStage4Core.vhd:130-167 | the same for any number of rounds, state and message |
| Pipeline.MixerPhases | vendor/sia-fpga/MixG_FlopPipe_4.vhd:43-85 | whatever the mixer held, A, B, D, X at one clock, C one later and Y two later come out as G four clocks on, C one clock after A |
| Pipeline.ArrayComputes | src/OspreyBlake2bStage4Core.vhd:130-167 | in any run the computation that enters the array at a clock leaves round i eight clocks per round later as the first i rounds of its own message |
| Pipeline.TapsGiveF | src/OspreyBlake2bStage3Core.vhd:146-163 | each of the four output taps, with A delayed one clock, is that word of F, 97 clocks after entry |
| Cores.GrindCore.Clock | src/OspreyBlake2bStage4Core.vhd:85-107 | one clock edge of the whole core, counters written in place, is the clocked step the theorems use |
| Cores.CoherentSinceReset | src/OspreyBlake2bStage4Core.vhd:85-107 | once Enable has been low for one clock the twelve counters are one counter at twelve delays, for the rest of every run |
| Cores.SkewIsReadTime | src/OspreyBlake2bStage4Core.vhd:89-100 | each skew is the clock at which its round reads the nonce word, which its schedule row holds once |
| Cores.OneNonce | src/OspreyBlake2bStage4Core.vhd:130-139 | all 192 message reads of the computation that enters at a clock see the header with the one nonce of that clock |
| Cores.PipelineCoherence | src/OspreyBlake2bStage4Core.vhd:187-243 | with inputs steady for the latency, 98 clocks later the core reports a hit exactly when the compared BLAKE2b word of that nonce is below the target, with that nonce and the byte-swapped word; for h[3] (Knots) and byte-swapped h[0] (Siacoin) |
| Cores.EveryNonceInTurn | src/sia/OspreySiaCore.vhd:88-204 | after a reload the reports are the verdicts on seed, seed + 1, seed + 2 and so on modulo 2^64, none skipped or repeated |
| Cores.Stage3Coherence | src/OspreyBlake2bStage3Core.vhd:85-163 | 97 clocks of a steady message give all four digest words of the 52-byte message |
| HostCheck.NonceIsWord4 | miner/sia_stratum.c:79-85 | storing the nonce bytes is overwriting message word 4 |
| HostCheck.BlockIsHeader | src/OspreyBlake2bStage4Core.vhd:79-82 | the padded stage-4 block is the cores' message assignment |
| HostCheck.StageFourDigest | src/OspreyBlake2bStage4Core.vhd:61-82 | the digest of the 80 bytes is the four chain words, each least significant byte first |
| HostCheck.PutNonce | miner/sia_stratum.c:82-85 | the byte loop stores exactly the nonce and nothing else |
| HostCheck.ExpectedTop64 | miner/sia_stratum.c:87-97 | the word the host expects is the byte swap of the word the core taps, on both chains |
| HostCheck.PowCompare | miner/sia_stratum.c:99-110 | the compare value is the digest reversed for Knots and as emitted for Siacoin |
| HostCheck.HashMeetsTarget | miner/work_item.c:184-187 | the byte comparison is the numeric one |
| HostCheck.ComparedWordIsTop64 | miner/sia_stratum.c:141-164 | the word the core compares is the top 64 bits of the value the host compares |
| HostCheck.PrefilterExact | src/OspreyBlake2bStage4Core.vhd:201-233 | a hit always meets the 256-bit target, and the strict compare misses a solution exactly when the two top words are equal |
| HostCheck.CoreAgreesWithHost | miner/sia_stratum.c:87-110 | over any run a hit is confirmed by the host's word and full compare, and silence about a solution means equal top words |
| Nonces.ClogB2 | src/PkgOspreyBlake2b.vhd:125-134 | the least number of bits that address n cores |
| Nonces.CoreNonceSeed | src/PkgOspreyBlake2b.vhd:136-140 | the seed is the core's slice start less one, modulo 2^64, and all ones for core 0 |
| Nonces.CoresDisjoint | src/PkgOspreyBlake2b.vhd:94-103 | different cores hash different nonces for 2^(64-m) clocks |
| Nonces.SliceExhausted | src/PkgOspreyBlake2b.vhd:94-97 | the bound is sharp: one clock later a core repeats its right neighbour's first nonce |
| Nonces.TopBitsAreIndex | src/PkgOspreyBlake2b.vhd:116-117 | the top bits name the core if and only if it is not the first nonce or there is one core |
| Arbiter.ResultArb.Choose | src/OspreyBlake2bTop.vhd:101-121 | the search loop finds the first valid slot in ring order from the pointer, and nothing only when the transmitter is busy or no slot is valid |
| Arbiter.ResultArb.Clock | src/OspreyBlake2bTop.vhd:132-166 | one clock of capture, same-cycle refill, saturating drop counters and pointer |
| Arbiter.Conservation | src/OspreyBlake2bTop.vhd:132-152 | for any core count and run, a core's kept results are its delivered ones plus the one in its slot, in order and each once, and its counter is the number lost capped at 65535 |
| Arbiter.OffersAccountedFor | src/OspreyBlake2bTop.vhd:35-41 | successes are grants plus true losses plus the slot in use |
| Arbiter.ServingAnotherBringsNearer | src/OspreyBlake2bTop.vhd:157-166 | serving another core strictly shortens the ring distance to a waiting one |
| Arbiter.BoundedWaiting | src/OspreyBlake2bTop.vhd:101-121 | while a core waits, at most N - 1 grants go to others |
| Arbiter.ServedWithinNReadyClocks | src/OspreyBlake2bTop.vhd:98-121 | so N ready clocks serve every waiting core |
| Arbiter.EveryReadyClockServes | src/OspreyBlake2bTop.vhd:107-118 | and while a core waits no ready clock goes unused |
| Uart.Transmitter.Clock | src/OspreyBlake2bUartGetWork.vhd:190-234 | one clock of the three-state transmitter |
| Uart.ClockConserves | src/OspreyBlake2bUartGetWork.vhd:200-236 | bytes decoded off the line plus bytes still owed grow by exactly one frame per accepted request, for any tick pattern, with no framing error |
| Uart.FrameCells | src/OspreyBlake2bUartGetWork.vhd:209-230 | the remaining bit cells fall by one per tick from eleven per byte |
| ResultPath.FrameOnTheWire | src/OspreyBlake2bUartTop.vhd:517-519 | the packed reply is flag, nonce and hash, bytes least significant first |
| ResultPath.ParseResult | miner/work_item.c:189-195 | flag test and both words |
| ResultPath.LineConserves | src/OspreyBlake2bUartTop.vhd:488-521 | over any run, decoded bytes followed by those in flight are the frames of all grants |
| ResultPath.EveryGrantParses | src/OspreyBlake2bUartTop.vhd:511-521 | every whole frame off the line parses as the corresponding grant, in order, and at most the last grant is still under way |
| ResultPath.GapBetweenFrames | src/OspreyBlake2bUartGetWork.vhd:200-236 | when no byte comes out over eleven bit cells the line stands between frames |
| ResultPath.LogIsDelivery | src/OspreyBlake2bUartTop.vhd:493-511 | the frames of core k are what the arbiter delivered for k, so its conservation law is about parsed results |
| FrameSync.FrameSyncOn | miner/miner.c:881-1023 | the collection loop, histogram, dominance test, skip and read are the specified outcome for every poll sequence, deadline, quiet flag and buffer, with the bytes in the buffer; an overrun is an outcome of its own |
| FrameSync.Dominant | miner/miner.c:971-977 | the bucket loop finds the first of the most flagged residues |
| FrameSync.CollectConserves | miner/miner.c:900-960 | no byte is lost while collecting |
| FrameSync.SilentReadsNothing | miner/miner.c:927-957 | the quiet exit has consumed nothing |
| FrameSync.GapIffBurst | miner/miner.c:900-925 | the gap path is taken exactly on a burst of fewer than 512 bytes followed by the gap, after any empty polls when silence does not count, and hands over that burst |
| FrameSync.GapPath | miner/miner.c:892-925 | a burst without an inner gap is handed over whole at its trailing gap, and nothing behind it is touched, if and only if it fits the buffer |
| FrameSync.OverrunIff | miner/miner.c:908-925 | for every input the buffer is overrun if and only if a burst of fewer than 512 bytes without an inner gap, longer than the buffer, is followed by the gap; never with room for 511 bytes |
| FrameSync.TwelveFramesOverrun | miner/miner.c:1770 | twelve frames and a gap overrun the mining loop's buffer |
| FrameSync.FramedDominates | miner/miner.c:979-988 | a genuinely framed stream never fails the dominance test |
| FrameSync.DensePath | miner/miner.c:962-1016 | on a framed stream the dense path succeeds, loses no byte after the skip, and lands on a boundary if and only if the true residue is the first of the most flagged ones |
| FrameSync.WholeFrames | miner/miner.c:997-1014 | from a boundary the eight frames handed back are eight frames sent, and the line goes on with the next |
| FrameSync.MiningLoop.Feed | miner/miner.c:1885-1924 | one byte of the frame assembler, with the run of bad frames and the counters the verdict moves |
| FrameSync.MiningLoop.Drain | miner/miner.c:1880-1926 | the assembly loop: handed-back bytes first, then the line until a poll is empty or alignment is lost |
| FrameSync.MiningLoop.Pass | miner/miner.c:1832-1926 | one pass: resynchronise, replay whole frames counted from the end, drain |
| FrameSync.FramesAssemble | miner/miner.c:1880-1907 | from a boundary any string of frames yields exactly its candidates, in order |
| FrameSync.MisalignedGivesUp | miner/miner.c:1889-1897 | three windows in a row without the flag accept nothing and drop the alignment |
| FrameSync.GapPassDelivers | miner/miner.c:1850-1924 | the tail of a frame, whole frames and a gap, up to 136 bytes, replay as exactly those frames and whatever follows is drained in step; longer ones overrun the replay buffer |
| FrameSync.DensePassDelivers | miner/miner.c:1850-1926 | with the true residue singled out, exactly the eight following frames are delivered and the line stays on a boundary |
| WorkItem.PackItem | miner/worksrc.c:19-38 | both layouts, nothing for any other length, and a cleared rest |
| WorkItem.SlotIsLoad64 | src/OspreyBlake2bUartTop.vhd:332-336 | a slice of 64 held bits is eight item bytes, least significant first |
| WorkItem.RoundTrip | src/sia/OspreySiaUartTop.vhd:175-178 | packing, serialising and slicing give back the header words and the target, on both chips |
| WorkItem.Stage3InIsBlock | src/OspreyBlake2bUartTop.vhd:332-335 | the stage-3 slots are the padded 52-byte message |
| WorkItem.BypassEquivalent | src/OspreyBlake2bTop.vhd:274-310 | when ss4 carries the digest of ss3, the chip without stage 3 feeds its core what the chip with stage 3 would, and for every nonce the core hashes the header of ss4 |
| Receiver.UartReceiver.Clock | src/OspreyBlake2bUartGetWork.vhd:142-183 | one clock of the receiver and of the held copy |
| Receiver.TrackedConsistent | src/OspreyBlake2bUartTop.vhd:312-330 | at every clock the shift register is the tail of all bits received and the held copy is zero or one complete receive window |
| Receiver.ByteArrives | src/OspreyBlake2bUartGetWork.vhd:155-181 | a byte in any timing adds its eight bits and moves the byte counter, closing a window every n bytes |
| Receiver.BytesArrive | src/OspreyBlake2bUartGetWork.vhd:142-183 | the same for any string of bytes |
| Receiver.ItemPulse | src/OspreyBlake2bUartGetWork.vhd:172-174 | the last byte of an item sent from a zero counter raises NewWork with exactly the item in the register |
| Receiver.ItemLatched | src/OspreyBlake2bUartTop.vhd:321-330 | and the held copy is then that item |
| Receiver.PhaseSearch | miner/miner.c:1259-1334 | stepping n + 1 bytes a phase meets a zero counter in exactly one of n phases |
| Receiver.CounterIsReceivers | src/OspreyBlake2bUartGetWork.vhd:172-177 | that counter is the receiver's |
| Chip.WorkFront.Clock | src/OspreyBlake2bUartTop.vhd:321-426 | one clock of held copy, run control, trunk and core register |
| Chip.Delayed | src/OspreyBlake2bUartTop.vhd:391-426 | message, target and Enable reach a core together |
| Chip.HeldUntilNext | src/OspreyBlake2bUartTop.vhd:357-368 | until the next NewWork the item is held and Enable is low for its first clock only |
| Chip.SwitchTogether | src/OspreyBlake2bUartTop.vhd:312-318 | the new item and the counter reload reach the core on one clock |
| Chip.SilentUntilItem | src/OspreyBlake2bUartTop.vhd:312-318 | from reset until the target of the first item reaches it a core compares against zero and reports nothing |
| Chip.ItemIsGround | src/OspreyBlake2bUartTop.vhd:405-447 | an item sent by the host is ground nonce by nonce from the seed, against its own header and target |
| Chip.ReportIsConfirmed | miner/worksrc_stratum.c:210-222 | every report about it passes the host's word check and its 256-bit compare |
| Chip.NoNonceTwice | src/OspreyBlake2bUartTop.vhd:428-447 | two cores of one chip never report the same nonce within their slices |
| Chip.DeliveryPossible | src/OspreyBlake2bUartTop.vhd:321-368 | from reset every item can be delivered and followed by any number of quiet clocks, so the runs above exist |
| Chip.CoreRunExists | src/OspreyBlake2bStage4Core.vhd:84-243 | every input sequence and starting state has a run of the core |
| Miner.GrantsWereOffered | src/OspreyBlake2bTop.vhd:132-170 | every slot in use and every grant of a composed run goes back to one offer of one core, captured before it was granted and not before the core's last grant |
| Miner.EveryCandidateIsConfirmed | src/OspreyBlake2bUartTop.vhd:405-521 | for N cores holding one item, any arbiter and line timing and a host in step, every assembled candidate is the success its source core showed on the clock it was captured and, if that is from the item's first verdict on, passes the host's word check and its 256-bit compare |
| Miner.OneStaleEach | src/OspreyBlake2bTop.vhd:132-152 | once a grant of a core falls in the time of the item's verdicts, that core's later candidates are confirmed |
| Miner.SourcesDiffer | src/OspreyBlake2bTop.vhd:132-152 | no result is assembled twice: a core's grants have increasing capture clocks |
| Miner.FirstItemWindow | src/OspreyBlake2bUartTop.vhd:309-318 | after power-up a stale result can only come from the 98 clocks before the first item's first verdict |
| Miner.LoopConfirms | miner/miner.c:1832-1926 | the calibrated mining loop, listening from any byte on, whose first pass ends at a gap or in silence: after any number of passes it is in step and every candidate is what a core showed, confirmed if captured from the item's first verdict on |
| Loopback.ExpectedHashTop64 | miner/miner.c:626-634 | the word expected for a header, zero for one the chip cannot mine |
| Loopback.ExpectedOfCandidate | miner/miner.c:626-634 | it is the word a core reports for that nonce of the header's item |
| Loopback.LoopbackVerify | miner/miner.c:1345-1395 | the window and offset loops give the least correction of the first window that reproduces at all |
| Loopback.CalibratesToZero | miner/miner.c:1345-1395 | a settled report about the item, with no window before it that reproduces, makes the correction zero |
| Link.GapIsBoundary | miner/miner.c:905-957 | fifteen empty polls in a row cannot fall inside a frame |
| Link.InStepMeans | miner/miner.c:1880-1907 | in step, what has been assembled is exactly the frames that are through, all accepted, with every counter |
| Link.PassKeepsStep | miner/miner.c:1880-1926 | in step, a pass drains the line and stays in step |
| Link.LoopKeepsStep | miner/miner.c:1832-1926 | so does any number of passes |
| Link.PassReachesStep | miner/miner.c:1850-1926 | a pass out of step that ends its collection at a gap or in silence assembles every frame begun since listening started and goes on in step, wherever in a frame it started; unless the burst exceeds 136 bytes, which overruns |
| KnotsHeader.StageInputs | miner/work_item.c:45-103 | the stage-3 and stage-4 messages of every mode-0 header; any other mode is refused |
| KnotsHeader.BuildWorkItem | miner/work_item.c:105-117 | writes the very item worksrc_pack_item would |
| KnotsHeader.GetPowHash | miner/work_item.c:119-144 | the five-stage hash, mask cleared bit by bit from the top |
| KnotsHeader.CandidateIsNonce | miner/miner.c:672-679 | writing a candidate into the two nonce fields overwrites the nonce bytes of the item and leaves stage 3 alone |
| KnotsHeader.StageFiveIdle | miner/work_item.c:128-142 | the chip's compare value is the proof-of-work hash if and only if the mask is zero, as it is for a zero key |
| KnotsHeader.SoloJobMayBypass | src/OspreyBlake2bTop.vhd:284-310 | for every solo job either build of the chip hashes, for every nonce, the header the host put together |
| KnotsHeader.ReportSolves | miner/miner.c:672-700 | with a zero mask a prefilter hit is a nonce whose five-stage hash meets the target |
| Targets.SetBit | miner/stratum.c:245-246 | setting one bit in place adds its power of two if it was clear and nothing if it was set |
| Targets.BnDiv | miner/stratum.c:236-249 | the bit loop computes the 64-bit-remainder division for every divisor, zero included |
| Targets.DivExact | miner/stratum.c:236-249 | for divisors up to 2^63 that is the exact quotient |
| Targets.QuotientExactIff | miner/stratum.c:236-249 | for every dividend and divisor the quotient is never too large, and exact if and only if no remainder on the way reaches 2^63 |
| Targets.DivExactIff | miner/stratum.c:236-249 | it is exact for every dividend if and only if the divisor is at most 2^63 |
| Targets.TargetFull | miner/stratum.c:258-272 | the host's quotient of the difficulty-1 target times 2^32, nothing lost by the shift, for every scaled difficulty |
| Targets.TargetExactIff | miner/stratum.c:258-272 | the target never exceeds the one the difficulty stands for, and equals it if and only if none of 0xFFFF doubled up to 207 times leaves a remainder of 2^63 or more |
| Targets.TargetVanishes | miner/stratum.c:236-272 | the target is zero if and only if the scaled difficulty is above 0xFFFF000000000000, though every difficulty stands for more than zero |
| Targets.TargetTop64 | miner/stratum.c:274-281 | its top 64 bits |
| Targets.HostAntitone | miner/stratum.c:258-272 | where the target is the one the difficulty stands for, as it is up to pool difficulty 2^31, no higher difficulty gives a larger one |
| Targets.HigherIsLaxer | miner/stratum.c:236-272 | beyond that it may: pool difficulty 3221225472 gives a larger target than 3221159936 |
| Targets.HostNearRational | miner/stratum.c:258-272 | the target never exceeds the rational one, and is within 2^32 below it if and only if it is the one the difficulty stands for |
| Targets.HostNearPool | miner/stratum.c:258-272 | the host is never laxer than a pool that divides without rounding, and where its division is exact stricter by less than 2^32 |
| Targets.CompactToTargetShifted | miner/work_item.c:147-173 | the bit placement is the decoded target times 2^shift modulo 2^256, and zero when the sign bit is set |
| Targets.TargetTop64FromBits | miner/work_item.c:175-182 | its top 64 bits |
| Json.JsSkip | miner/stratum.c:58-93 | the cursor loop with one counted bracket type |
| Json.JsElem | miner/stratum.c:123-137 | the element walk |
| Json.JsCount | miner/stratum.c:139-154 | the counting walk |
| Json.JsGet | miner/stratum.c:95-121 | the key walk |
| Json.CountBoundsElem | miner/stratum.c:123-154 | for every text, a count n of zero or more means element i exists if and only if i is below n |
| Json.SkipUndoesPrint | miner/stratum.c:58-93 | skipping any printed value of RFC 8259, at any depth and spacing, stops exactly at its end |
| Json.ElemUndoesPrint | miner/stratum.c:123-154 | element i of a printed array is where its text stands, no other exists, and the count is right |
| Json.GetUndoesPrint | miner/stratum.c:95-121 | a key of a printed object finds the value of the first member so written, and nothing when there is none |
| Json.TextDeterminesValue | miner/stratum.c:58-93 | a text has one reading up to white space, by the scanner undoing both printings |
| Json.OneReading | miner/stratum.c:714-731 | the same for a whole JSON text of RFC 8259, so a line means one value to every reader |
| Notify.JsStr | miner/stratum.c:156-172 | the copy loop, its bound and its two failures |
| Notify.StrUndoesPrint | miner/stratum.c:156-172 | a printed string comes back if and only if it holds no quote and fits with its terminator |
| Notify.StrOfPrint | miner/stratum.c:156-172 | of any printed value, strings only are read, cut at their first quote, escaped or not |
| Notify.HexOfPrint | miner/stratum.c:182-198 | any printed value is read as b if and only if it is the hex of b in either case and b fits |
| Notify.JsHex | miner/stratum.c:182-198 | the decoding loop |
| Notify.Bin2Hex | miner/stratum.c:208-213 | the encoding loop |
| Notify.HexExact | miner/stratum.c:174-213 | a text decodes to b if and only if it is the encoding of b up to case |
| Notify.OnNotify | miner/stratum.c:476-542 | every check of the notify handler |
| Notify.NotifiedIff | miner/stratum.c:476-542 | for every printed params value, exactly when it is taken for a given job: at least nine elements, an id cut at a quote, hex of the right widths, at most 32 branches, and a flag that is clean if it begins with "true" |
| Notify.NotifyUndoesPrint | miner/stratum.c:476-542 | every printed announcement of a job, in any spacing and digit case, is read as that job |
| Notify.Submit | miner/stratum.c:720-729 | the submitted line |
| Notify.SubmitUndone | miner/stratum.c:714-731 | the submitted line is JSON from which job id, extranonce2, time and nonce read back |
| Stratum.SubmitConveysIff | miner/stratum.c:714-731 | the line is JSON conveying worker, job id, extranonce2, time and nonce if and only if worker and job id are JSON string contents |
| Stratum.JobComesBackIff | miner/stratum.c:498 | for a job read off a printed announcement that holds if and only if the worker is string contents and the announced id holds no quote |
| Stratum.ArbTx | miner/sia_stratum.c:6-22 | the four parts in order, or failure when they do not fit |
| Stratum.MerkleRoot | miner/sia_stratum.c:33-44 | the branch fold with the accumulator on the right, as the pool's reference computes it |
| Stratum.BuildStages | miner/sia_stratum.c:46-77 | both stage messages, only for 51 bytes |
| Stratum.BuildHeader | miner/sia_stratum.c:114-139 | the Siacoin header for any length |
| Stratum.StratumSource.BuildFrom | miner/worksrc_stratum.c:92-153 | the work item, its targets and the record kept for submission; a refused job leaves the record alone |
| Stratum.StratumSource.OnCandidate | miner/worksrc_stratum.c:210-253 | exactly when a candidate is bad, ignored or submitted, and with which fields |
| Stratum.HeaderAgreement | zynq/stratum_test_server.py:206-211 | the header the pool rebuilds from job, extranonces, time and nonce is the one the host hashed |
| Stratum.ValueAgreement | zynq/sia_reference.py:181-200 | and both compare the same number |
| Stratum.KnotsRootIsStage3 | src/OspreyBlake2bTop.vhd:224-229 | an accepted Knots job carries the digest of ss3 in its last 32 bytes |
| Stratum.KnotsJobMayBypass | src/OspreyBlake2bTop.vhd:284-310 | so the stage-3 bypass changes nothing for any accepted job, and either build hashes the header the host put together |
| Stratum.ReadShareUndoes | zynq/stratum_test_server.py:277-318 | any JSON reader gets job id, extranonce2, time and nonce back from the submitted line |
| Stratum.ShareIsGraded | zynq/stratum_test_server.py:277-324 | the pool, reading the submitted line as any JSON text, accepts exactly when the host's compare value is within its target |
| Stratum.SubmittedIsAccepted | miner/worksrc_stratum.c:218-251 | a share the host submits is accepted by a pool that divides without rounding; where the host's target is the one the difficulty stands for, one it withholds wrongly is less than 2^32 above its target |
| Stratum.PushesDiffer | miner/worksrc_stratum.c:98-105 | two builds of one job hash different transactions if and only if their counters differ modulo 256^len |
| Bech32.Polymod | miner/bech32.c:12-25 | the five-bit loop is the checksum recurrence |
| Bech32.StepInjective | miner/bech32.c:18-23 | one step is injective on 30-bit states |
| Bech32.SubstitutionDetected | miner/bech32.c:12-25 | a changed symbol always changes the checksum, for any length |
| Bech32.ChecksumUnique | miner/bech32.c:12-25 | the last six symbols are determined by what precedes them |
| Address.Convert5to8 | miner/bech32.c:36-54 | the accumulator loop is base-256 conversion with short zero padding, although its high bits wrap; a count beyond the input ends in rejection before the sixty-seventh byte is read |
| Address.TooLong | miner/bech32.c:46 | sixty-six groups or more never convert, whatever they are |
| Address.ConvertInjective | miner/bech32.c:36-54 | equal bytes from equal lengths come from equal groups |
| Address.DecodeAddr | miner/bech32.c:56-124 | every check of the decoder, in order |
| Address.SubstitutionRejected | miner/bech32.c:86-111 | every single-character substitution behind the version other than by '1' is rejected |
| Address.DetectedIffNotSeparator | miner/bech32.c:79-84 | exactly the replacement by '1' can go unnoticed |
| Address.DecodeInjective | miner/bech32.c:86-117 | two accepted addresses with equal prefix, version and program are equal up to case |
| Sha256.Context.Update | miner/sha256.c:60-70 | appends to the message whatever the split |
| Sha256.Context.Final | miner/sha256.c:72-96 | the block fold over the padding of sections 5.1.1 and 6.2.2 of FIPS 180-4 |
| Sha256.HashPieces | miner/sha256.c:50-104 | for every split the result is the digest of the concatenation |
| Sha256.TaggedHash | miner/sha256.c:106-119 | SHA256(th, th, payload) for th the hash of the tag |
| Merkle.RowKeepsRoot | miner/merkle.c:11-22 | one pass keeps the root of the top-down tree |
| Merkle.FoldRow | miner/merkle.c:11-21 | the in-place pass never overwrites an unread id |
| Merkle.MerkleRoot | miner/merkle.c:6-26 | the in-place loop computes the root of the recursive tree with the last element repeated |
| Merkle.LastElementTwice | miner/merkle.c:15-19 | for an odd count of three or more the root does not change when the last id is repeated |
| Merkle.SingleElement | miner/merkle.c:8-24 | a single id and the same id twice have the roots id and hash(id, id) |

## Left out

- Sockets, DNS, HTTP, /dev/uio registers, status.json, logging and the command line: plumbing.
- The reconnect and backoff policy of `dial`, the dev-fee counters and second session, the work source registry, block.c and coinbase.c: they would add only easy members.
- Floating-point difficulty scaling (miner/stratum.c:260-266): the scaled integer is an input, any 64-bit value.
- Extranonce1 changes during a session: the extranonce1 of a build is the one the pool grades with.
- The push schedule of st_get_work (miner/worksrc_stratum.c:175-208) and the five-second refresh.
- UART baud counters, double-flop synchronisers and the receiver's baud restart: the sampling clock and the bit tick are inputs.
- Work in flight while the header changes: claims start at the reload that comes with an item.
- KnotsHeader.ReportSolves: needs a zero mask, because the chip does not apply stage 5.
- Notify.SubmitUndone: worker name and job id must be JSON string contents. Otherwise the line does not convey the share, by Stratum.SubmitConveysIff.
- Stratum.ShareIsGraded: the same, and for the same reason.
- Stratum.ReadShareUndoes: the same, and for the same reason.
- Targets.HostAntitone: one way only. Among difficulties with a wrong target some still have no laxer one above them, the highest for instance.
- Link.PassReachesStep: says nothing of passes on the dense path, which may settle on a wrong residue; FrameSync.DensePath says when it does not.
- Link.LoopKeepsStep: no byte is lost to the 16-deep receive buffer.
- FrameSync.FrameSyncOn: running out of polls stands for the two later deadlines; behaviour after an overrun is undefined and not modelled.
- Miner.EveryCandidateIsConfirmed: a success captured before the item's first verdict need not be confirmed, since the pipeline still holds older work; Miner.OneStaleEach bounds how many are assembled.
- Stratum.StratumSource.OnCandidate: the socket is two booleans, connected and delivered.
- Json.JsSkip: C ints for depth and index are unbounded here; the 262144-byte line buffer keeps them small.
- Nonces.ClogB2: at most 2^30 cores, beyond which the VHDL variable would overflow.
- The debug echo frames (kDebugEcho), which production builds elaborate away.
- The body of the SHA-256 compression function, a parameter here.
- bech32_scriptpubkey, sha256d outside the merkle tree, MMCM clocking, constraints, scripts, reports and testbenches.
- Collision resistance of any hash.
