# A verified model of the PTP time server firmware

The firmware keeps an STM32 board on time with the Precision Time Protocol (IEEE 1588-2008), a GNSS
receiver and a few filters. This project models the parts of it that decide, compute and share
memory with hardware, and proves what they are for:

| files | what they model |
|---|---|
| `DataSetComparison`, `ForeignMasters`, `BestMasterClock`, `Agreement` | the best master clock algorithm of `ptpd-2.0.0/src/bmc.c`: comparison, foreign master table, state decision, and several clocks that run it together |
| `RxRing`, `RxDriver`, `TxRing`, `TxDriver` | the receive and transmit descriptor rings of `lwip-1.3.1/port/ethernetif.c`, which the MAC overwrites with time stamps, as state machines over the interleaved steps of the MAC and the driver, and the driver's methods on the descriptor tables as runs of these machines |
| `HardwareClock` | the fixed-point conversions and the clock registers of `ethernetif.c` |
| `TimeAlgebra` | the signed seconds and nanoseconds of `ptpd-2.0.0/src/arith.c` |
| `Sentences`, `TimeOfDay`, `CheckSum` | sentence parsing and the checksum of `USER/CMD_HANDLE/bds.c` |
| `Filters`, `Kalman` | the filters of `USER/tracking/filter.c` |
| `Calendar` | the two date conversions of `time.cpp` |
| `CInt`, `PtpData` | C operators on machine integers, and the PTP data types with `memcmp` |

Code that updates fields, tables or arrays is a class or a method with the source's loops. Each such
method is proved equal to a specification function of the old state, and the theorems are about
these functions and their runs. `dafny verify dfyconfig.toml` checks the project.

## Where the code does not do what it is for

The model follows the code. Each of these is a theorem, with the exact condition under which the
intended behaviour holds.

- The scan of `bmc` (bmc.c:428-431) takes record i when the comparison of i with the best is
  negative, but negative means that i is worse (bmc.c:241-242). It keeps the worst record. In a
  network of N clocks N - 1 become masters; it agrees with the intended scan only for N = 2.
- The comparison is a total preorder when grandmaster attributes belong to grandmaster identities.
  Two announces of one grandmaster take part in a circle of three exactly when the one that is better
  by topology carries the worse attributes, although the comparison of IEEE 1588-2008 section 9.3.4
  is meant as an order. In such a circle `bmc` selects whichever announce was heard last.
- The announce receipt timeout (protocol.c:428-429) resets `count` and `i` but not `best`, and
  `initData` (bmc.c:75-76) resets `count` but neither `i` nor `best`. The searches go wrong exactly
  when a cursor that was not reset differs from 0; after `initData` with another `i`, `bmc` reads an
  old record.
- A frame with an error, or one that spans descriptors, at the head of the receive ring is never
  taken: `ETH_GetRxPktSize` reports size 0 for it (stm32_eth.c:641-655) and its handler
  (stm32f10x_it.c:180) then stops. No later frame is handed up. The driver can hand up all that
  has arrived exactly when every frame is whole and without errors.
- The leap test of `change_datetime_to_seconds` (time.cpp:65) can never be met, so it is a day behind
  from March to December of leap years.
- `subTime` overflows 32 bits on one family of operands whose exact difference fits, and
  `scaledNanosecondsToInternalTime` turns the least 64-bit number positive.
- `ETH_PTPTime_UpdateOffset` and `ETH_PTPTime_SetTime` are right only when the signs of seconds and
  nanoseconds agree.
- The extremes of `AvrValueFiter` start at 0 (filter.c:50-51), so it trims too little when all samples
  have the same sign; its result differs exactly when the remainder of the division has no room for
  the sample it leaves in.

## Model

| member | source | states |
|---|---|---|
| DataSetComparison.CompareAntisymmetric | ptpd-2.0.0/src/bmc.c:249-371 | for all announces and receivers, exchanging the two sides of the comparison negates its result |
| DataSetComparison.CompareExactly | ptpd-2.0.0/src/bmc.c:263-371 | without any hypothesis: attributes and identity in lexicographic order for two grandmasters; steps removed and sender for one, whatever the attributes say, and 0 exactly at an own echo or a tie |
| DataSetComparison.CompareIsLexicographic | ptpd-2.0.0/src/bmc.c:249-371 | given grandmaster attributes that belong to the identity, Figures 27 and 28 are lexicographic comparison of priority1, class, accuracy, variance, priority2, identity, steps removed and sender if and only if neither side is this clock's own announce one hop further |
| DataSetComparison.CircleExactly | ptpd-2.0.0/src/bmc.c:263-371 | two announces a and b of one grandmaster close a circle with some announce of another grandmaster, from any given port, if and only if a has the lexicographically better attributes and b is better by topology |
| DataSetComparison.ComparisonCycle | ptpd-2.0.0/src/bmc.c:263-371 | at every clock three announces of three different other clocks can each be better than the next |
| DataSetComparison.CircleSelectsLast | ptpd-2.0.0/src/bmc.c:421-433 | of three records in a circle both scans select the last slot, in any order of the three |
| DataSetComparison.OrderlyIsPreorder | ptpd-2.0.0/src/bmc.c:249-371 | on a table that meets the hypotheses the comparison is transitive and a tie means equal keys |
| DataSetComparison.ScanExtremal | ptpd-2.0.0/src/bmc.c:421-433 | on any preordered table no record is worse than the one selected by the code, and none is better than the one selected with the sign turned round |
| DataSetComparison.ScanSelectsFirst | ptpd-2.0.0/src/bmc.c:421-433 | of several records of that rank the one in the lowest slot is selected |
| DataSetComparison.SlotOrderIrrelevant | ptpd-2.0.0/src/bmc.c:421-433 | the rank of the selected record does not depend on the slots the announces are in |
| ForeignMasters.HearKeepsDistinct | ptpd-2.0.0/src/bmc.c:99-146 | hearing an announce keeps the identities in the queue pairwise different |
| ForeignMasters.VisitedStep | ptpd-2.0.0/src/bmc.c:121 | the closed form of the slot visited starts at the cursor and advances as the loop does, by `(j + 1) % count` |
| ForeignMasters.VisitsEachSlotOnce | ptpd-2.0.0/src/bmc.c:104-122 | so the circular search from a slot in use reaches every slot in use at exactly one step |
| ForeignMasters.FindComplete | ptpd-2.0.0/src/bmc.c:104-122 | it fails if and only if no record in use has the identity, and never leaves the records in use |
| ForeignMasters.SearchesAgree | ptpd-2.0.0/src/bmc.c:104-122 | it finds the slot of exactly the entry that a search of the queue finds |
| ForeignMasters.RefreshRefines | ptpd-2.0.0/src/bmc.c:110-119 | updating a record is refreshing its queue entry; all other records are unchanged |
| ForeignMasters.InsertRefines | ptpd-2.0.0/src/bmc.c:125-145 | overwriting at the round-robin cursor is entering the queue at the back and, when full, leaving at the front |
| ForeignMasters.AddForeignRefinesQueue | ptpd-2.0.0/src/bmc.c:99-146 | one call of `addForeign` does to the table what hearing does to the queue it represents |
| ForeignMasters.SelectKeepsQueue | ptpd-2.0.0/src/bmc.c:421-437 | `bmc` leaves the queue alone and puts its cursor inside the records in use |
| ForeignMasters.RunRefinesQueue | ptpd-2.0.0/src/bmc.c:99-146 | every run of `addForeign` and `bmc` from a zeroed table leaves in it the queue of the announces heard, with pairwise different identities |
| ForeignMasters.QueueIsWindowOfEntrances | ptpd-2.0.0/src/bmc.c:99-146 | for every history the queue holds exactly the last `capacity` masters to enter, oldest first, each with the latest announce of its sender and the number of repeats since it entered |
| ForeignMasters.TimeoutIsEmptyQueue | ptpd-2.0.0/src/bmc.c:104-108 | after the announce receipt timeout (protocol.c, lines 428 and 429) the cursor is in use if and only if `best` was 0 |
| ForeignMasters.TimeoutForgetsCursor | ptpd-2.0.0/src/bmc.c:104-145 | after the timeout two announces of one sender leave the table of their queue if and only if `best` was 0 |
| ForeignMasters.InitializeIsEmptyQueue | ptpd-2.0.0/src/bmc.c:75-76 | after `initData` the table is an empty queue if and only if `i` was 0 |
| ForeignMasters.InitializeForgetsCursors | ptpd-2.0.0/src/bmc.c:75-146 | after `initData` two announces of one sender leave the table of their queue if and only if `i` and `best` were both 0 |
| ForeignMasters.InitializeThenReads | ptpd-2.0.0/src/bmc.c:75-146 | after `initData` and one announce, what `bmc` reads is that announce if and only if `i` was 0 or slot 0 held it already |
| ForeignMasters.CircleSelectsLastHeard | ptpd-2.0.0/src/bmc.c:99-437 | a fresh table that hears three announces in a circle makes `bmc` select the one heard last, in any order and with either sign |
| BestMasterClock.Eui64Injective | ptpd-2.0.0/src/bmc.c:8-18 | different MAC addresses give different clock identities |
| BestMasterClock.Eui64KeepsOrder | ptpd-2.0.0/src/bmc.c:8-18 | clock identities are ordered as the MAC addresses |
| BestMasterClock.DecisionIsFigure26 | ptpd-2.0.0/src/bmc.c:376-417 | for every class, port state and table: LISTENING if and only if the clock listens and has no record, and then no change; otherwise MASTER if and only if its own data set is better, else PASSIVE below class 128 and SLAVE from it on; and field by field the data sets of Tables 12, 13 and 16, each time property on its own flag bit |
| BestMasterClock.DecideIsFigure26 | ptpd-2.0.0/src/bmc.c:421-440 | the same of the whole algorithm, on the record that the scan leaves in `best`; of the table nothing else changes |
| BestMasterClock.SilenceKeepsListening | ptpd-2.0.0/src/bmc.c:380-383 | over every run without an announce a clock is told to listen if and only if it listens, and then nothing changes |
| BestMasterClock.GrandmasterClassNeverFollows | ptpd-2.0.0/src/bmc.c:391-403 | over every run of announces and decisions, with any port states in between, a clock of class below 128 keeps its first data sets until it stands for itself, and then always does |
| BestMasterClock.DecideIdempotent | ptpd-2.0.0/src/bmc.c:376-440 | running the algorithm again without news changes no data set and recommends the same state |
| BestMasterClock.PtpClock.EUI48toEUI64 | ptpd-2.0.0/src/bmc.c:8-18 | the first three octets, 0xFF, 0xFE, the last three; injectivity and order are proved of this |
| BestMasterClock.PtpClock.InitData | ptpd-2.0.0/src/bmc.c:21-89 | every field that `initData` writes; the identity comes from the MAC address and a zeroed table becomes a fresh one |
| BestMasterClock.PtpClock.AddForeign | ptpd-2.0.0/src/bmc.c:99-146 | the loop over the record array performs the table step that refines the queue, and changes no other field |
| BestMasterClock.PtpClock.M1 | ptpd-2.0.0/src/bmc.c:151-180 | Table 13 field by field: zero steps and delays, its own identity with port 0, no time flag, its configured UTC offset |
| BestMasterClock.PtpClock.S1 | ptpd-2.0.0/src/bmc.c:188-223 | Table 16 field by field: 16-bit wrap of the steps, offsets kept, the change-of-master event exactly on a new parent, each time property if and only if its own bit is set |
| BestMasterClock.FlagChangesItsProperty | ptpd-2.0.0/src/bmc.c:214-222 | flipping one flag bit of an announce negates exactly its own time property of the slave and changes nothing else, whatever the other bits |
| BestMasterClock.PropertiesReadOff | ptpd-2.0.0/src/bmc.c:214-222 | two announces give the same time properties if and only if they agree in the six flag bits, the UTC offset and the time source |
| BestMasterClock.PtpClock.BmcStateDecision | ptpd-2.0.0/src/bmc.c:376-417 | new data sets and recommended state meet Figure 26 as stated for DecisionIsFigure26, and are those of the decision function |
| BestMasterClock.PtpClock.Bmc | ptpd-2.0.0/src/bmc.c:421-440 | the loop and the decision are the scan as written followed by the decision on the record it selects |
| Agreement.Extremes | ptpd-2.0.0/src/bmc.c:249-371 | among N >= 2 clocks with different MAC addresses one beats all others and another is beaten by all others |
| Agreement.SelectionOf | ptpd-2.0.0/src/bmc.c:421-433 | an informed clock selects, as written, a clock that all the remaining ones beat and, as intended, one that beats all the remaining ones |
| Agreement.DecisionAgainst | ptpd-2.0.0/src/bmc.c:376-440 | a clock becomes master if it beats the clock it selected and otherwise its slave, one step away from it |
| Agreement.IntendedAgreement | ptpd-2.0.0/src/bmc.c:376-440 | with the sign turned round, for every N >= 2, exactly the best clock becomes master and all others become its slaves at distance 1 |
| Agreement.AsWrittenAllButOne | ptpd-2.0.0/src/bmc.c:421-440 | as written exactly N - 1 clocks become masters, all but the worst |
| Agreement.AsWrittenAgreesForTwo | ptpd-2.0.0/src/bmc.c:421-440 | the two elect the same masters if and only if N = 2 |
| Agreement.NobodyLeaves | ptpd-2.0.0/src/bmc.c:125-145 | a table with room for every sender evicts none, over every history |
| Agreement.RunInforms | ptpd-2.0.0/src/bmc.c:99-146 | a fresh table with room for the other clocks ends up with exactly their announces, in whatever order and however often they were heard |
| Agreement.ToldClocksAreInformed | ptpd-2.0.0/src/bmc.c:99-146 | clocks that have been told of one another through `addForeign` meet the hypothesis of the agreement theorems |
| HardwareClock.ConversionsRoundDown | lwip-1.3.1/port/ethernetif.c:80-92 | both conversions leave less than one unit and are never above, subseconds for every word and nanoseconds below 2 * 10^9 |
| HardwareClock.NanoSecondRoundTrip | lwip-1.3.1/port/ethernetif.c:80-92 | nanoseconds below 2 * 10^9 come back from subseconds exactly if 5^9 divides them and one less otherwise |
| HardwareClock.SubSecondRoundTrip | lwip-1.3.1/port/ethernetif.c:80-92 | every 32-bit subsecond value comes back from nanoseconds with a loss of 0 to 3 |
| HardwareClock.UpdateIsClosest | lwip-1.3.1/port/ethernetif.c:848-860 | for a canonical signed time the triple has the right sign, a 31-bit subsecond and a magnitude short by less than 2^-31 s, never beyond |
| HardwareClock.UpdateIsCloseOnlyIfSignsAgree | lwip-1.3.1/port/ethernetif.c:848-860 | it is that close if and only if the two fields have no opposite signs |
| HardwareClock.AddendEstimate | lwip-1.3.1/port/ethernetif.c:821-826 | the 32-bit addend never wraps, is monotone in the adjustment, exact at 0 and within 0.3 percent and four units of the exact one |
| HardwareClock.AddendExactly | lwip-1.3.1/port/ethernetif.c:821-826 | adjustments within 5 120 000 either way are taken as they are, others as the nearer of these, and no step wraps |
| HardwareClock.AddendWithinLimits | lwip-1.3.1/port/ethernetif.c:821-826 | within these limits the correction is off by at most 0.3 percent and four units |
| HardwareClock.PtpRegisters.AdjFreq | lwip-1.3.1/port/ethernetif.c:804-831 | the register gets the base plus the unwrapped correction of the adjustment clamped to 5 120 000 |
| HardwareClock.PtpRegisters.UpdateOffset | lwip-1.3.1/port/ethernetif.c:840-879 | the clock moves by the offset, short by less than a subsecond, in its direction, and the addend is what it was |
| HardwareClock.PtpRegisters.SetTime | lwip-1.3.1/port/ethernetif.c:888-916 | the clock holds the time, short by less than a subsecond |
| RxRing.TakeSafe | lwip-1.3.1/port/ethernetif.c:600-660 | taking a frame keeps the invariant with both software cursors one slot on |
| RxRing.CopySafe | lwip-1.3.1/port/ethernetif.c:281-295 | copying reads the frame's own bytes, with or without a pbuf |
| RxRing.RestoreEffect | lwip-1.3.1/port/ethernetif.c:670-677 | the clean-up reads the frame's own time stamp and leaves the descriptor with its own buffer and successor |
| RxRing.GiveBackSafe | lwip-1.3.1/port/ethernetif.c:473-476 | the descriptor returns to the MAC with its addresses intact |
| RxRing.StepSafe | lwip-1.3.1/port/ethernetif.c:259-309 | every step of the MAC or the driver keeps the invariant and follows no time stamp as an address |
| RxRing.RunSafe | lwip-1.3.1/port/ethernetif.c:259-309 | so does every interleaving of any length |
| RxRing.ReachableStates | lwip-1.3.1/port/ethernetif.c:259-309 | in every reachable state the cursors share an index, the CPU's descriptors are the circular window from it to the MAC, the MAC's have their addresses, and the frames handed up are the first that arrived, all of them good, once each, in order, whole, with their own time stamps, or dropped |
| RxRing.DropsOnlyWithoutMemory | lwip-1.3.1/port/ethernetif.c:285-309 | in every run and for each frame on its own: it is dropped if and only if the `pbuf_alloc` for it failed, and otherwise handed up whole with its own time stamp |
| RxRing.DriverProgresses | lwip-1.3.1/port/ethernetif.c:259-309 | while work is left and all frames are good the driver's next step is enabled and lessens it |
| RxRing.Drain | lwip-1.3.1/port/ethernetif.c:259-309 | from every state of the invariant with good frames, wherever the MAC is, driver steps alone (with memory for each frame) hand up all that has arrived, each frame whole with its own time stamp unless it was dropped before, and return every descriptor to the MAC, addresses intact but for one being stamped |
| RxRing.DrainsExactlyGoodFrames | lwip-1.3.1/port/ethernetif.c:259-309 | such driver steps exist if and only if every frame that has arrived is whole and without errors |
| RxRing.SizeTellsOldestFrame | Main/stm32f10x_it.c:180 | the size that the handler asks for is not 0 if and only if the oldest frame not taken is whole and without errors, and then it is that frame's |
| RxRing.BadFrameArrives | Main/stm32f10x_it.c:180-184 | every frame with an error, or in pieces, that reaches a fresh ring puts it into that state |
| RxRing.BadFrameStalls | Main/stm32f10x_it.c:180-184 | once an erroneous frame is at the head, no continuation hands up another frame |
| RxDriver.RxDriver.constructor | lwip-1.3.1/port/ethernetif.c:160 | the loop of `ETH_DMAPTPRxDescChainInit` (stm32_eth.c, lines 2837 to 2877) on zeroed shadow descriptors establishes the initial state of the machine |
| RxDriver.RxDriver.GetRxPktSize | Main/stm32f10x_it.c:180 | between two calls of the driver: the size with CRC of the oldest frame not handed up, if that frame is whole and without errors, and 0 otherwise |
| RxDriver.RxDriver.RxPktChainMode | lwip-1.3.1/port/ethernetif.c:600-660 | is the taking step of the machine; the length is the size less 4 in 16 bits |
| RxDriver.RxDriver.CopyOut | lwip-1.3.1/port/ethernetif.c:290-294 | the payloads have the lengths of the chain and concatenate to the first `length` bytes of the buffer |
| RxDriver.RxDriver.AllocateAndCopy | lwip-1.3.1/port/ethernetif.c:281-295 | what is copied is the oldest frame not yet handed up |
| RxDriver.RxDriver.RestoreAddresses | lwip-1.3.1/port/ethernetif.c:670-677 | returns the arrival time of that frame, and is the restoring step |
| RxDriver.RxDriver.GiveBack | lwip-1.3.1/port/ethernetif.c:473-476 | is the step that returns the descriptor and records what goes up |
| RxDriver.RxDriver.TakeAndCopy | lwip-1.3.1/port/ethernetif.c:271-295 | with any MAC steps in between, the first half of `low_level_input` is a run of the machine |
| RxDriver.RxDriver.CleanUp | lwip-1.3.1/port/ethernetif.c:297-306 | so is the second half, with the frame's own time stamp |
| RxDriver.RxDriver.LowLevelInput | lwip-1.3.1/port/ethernetif.c:259-309 | whatever the MAC does meanwhile, the call hands up the next frame that arrived, whole and with its own time stamp, or nothing if there is no pbuf |
| TxRing.SubmitSafe | lwip-1.3.1/port/ethernetif.c:579-591 | restoring the addresses, filling the buffer and setting OWN keeps the invariant |
| TxRing.CollectSafe | lwip-1.3.1/port/ethernetif.c:723-744 | taking the time stamp brings all descriptors to rest with both cursors one slot on |
| TxRing.TxStepSafe | lwip-1.3.1/port/ethernetif.c:690-748 | every send, poll or MAC step keeps the invariant and follows no time stamp as an address |
| TxRing.ReachableTxStates | lwip-1.3.1/port/ethernetif.c:211-249 | in every interleaving at most one descriptor is in flight, marked as first and last of its frame; the wire carries the first frames submitted, whole and in order, the time stamps returned are theirs, and between sends every descriptor is at rest with MAC and cursors at one index |
| TxRing.TimeoutMovesNothing | lwip-1.3.1/port/ethernetif.c:718-721 | a timeout changes neither cursor nor any descriptor |
| TxDriver.TxDriver.constructor | lwip-1.3.1/port/ethernetif.c:158 | the loop of `ETH_DMAPTPTxDescChainInit` (stm32_eth.c, lines 2788 to 2827) establishes the initial state of the machine |
| TxDriver.TxDriver.PrepareBuffer | lwip-1.3.1/port/ethernetif.c:579-591 | nothing and no change while the MAC owns the descriptor, otherwise its buffer and its addresses restored |
| TxDriver.TxDriver.CopyIn | lwip-1.3.1/port/ethernetif.c:229-233 | the buffer starts with the concatenation of the payloads and is otherwise unchanged |
| TxDriver.TxDriver.Send | lwip-1.3.1/port/ethernetif.c:218-233 | accepts if and only if the CPU owns the descriptor, and then puts exactly the payloads in flight, with OWN, first and last segment set and their length as buffer size |
| TxDriver.TxDriver.PollForTimeStamp | lwip-1.3.1/port/ethernetif.c:712-721 | ends before the limit if and only if the MAC has taken its four steps before poll 255 |
| TxDriver.TxDriver.Collect | lwip-1.3.1/port/ethernetif.c:723-744 | returns the time captured for the frame in flight and moves both cursors on together |
| TxDriver.TxDriver.LowLevelOutput | lwip-1.3.1/port/ethernetif.c:211-249 | which of the three results it returns, exactly; on success the frame is on the wire whole and the time stamp is its own; a timeout moves no cursor |
| TimeAlgebra.RepresentationUnique | ptpd-2.0.0/src/arith.c:75-90 | a time has less than a second of nanoseconds and no sign disagreement if and only if it is the one representation of its total |
| TimeAlgebra.NormalizeRepresents | ptpd-2.0.0/src/arith.c:75-90 | `normalizeTime` keeps the total and yields its canonical representation |
| TimeAlgebra.AddSubHomomorphic | ptpd-2.0.0/src/arith.c:92-106 | on representations the two operations are integer addition and subtraction |
| TimeAlgebra.AddCommutes | ptpd-2.0.0/src/arith.c:92-98 | `addTime` is commutative on all times |
| TimeAlgebra.AddAssociates | ptpd-2.0.0/src/arith.c:92-98 | `addTime` is associative on all times, canonical or not |
| TimeAlgebra.AddInverse | ptpd-2.0.0/src/arith.c:92-106 | on canonical times the two undo each other and zero is neutral |
| TimeAlgebra.SubOfSub | ptpd-2.0.0/src/arith.c:92-106 | subtracting a difference is subtracting and adding back |
| TimeAlgebra.AddFits | ptpd-2.0.0/src/arith.c:92-98 | on canonical 32-bit times no intermediate of `addTime` overflows if and only if the seconds of the exact result fit |
| TimeAlgebra.SubFits | ptpd-2.0.0/src/arith.c:100-106 | the same for `subTime`, but for subtracting a time of exactly -2^31 seconds from one of zero seconds and fewer nanoseconds, which overflows although its result fits |
| TimeAlgebra.SubOverflows | ptpd-2.0.0/src/arith.c:100-106 | such operands exist: the result fits, the first step does not |
| TimeAlgebra.Div2Canonical | ptpd-2.0.0/src/arith.c:108-115 | halving a canonical time truncates its total toward zero, without 32-bit overflow |
| TimeAlgebra.Div2Any | ptpd-2.0.0/src/arith.c:108-115 | halving any time is off by at most half a nanosecond, and the exact condition under which it truncates |
| TimeAlgebra.FromScaledTruncates | ptpd-2.0.0/src/arith.c:5-29 | the result is the canonical form of trunc(x / 2^16) if and only if x is not the least 64-bit number |
| TimeAlgebra.StampRoundTrip | ptpd-2.0.0/src/arith.c:32-70 | which times survive the way into a time stamp and back, and what is left otherwise |
| TimeAlgebra.InternalRoundTrip | ptpd-2.0.0/src/arith.c:32-70 | which time stamps survive the way into an internal time and back |
| TimeAlgebra.LateStampsIgnored | ptpd-2.0.0/src/arith.c:55-70 | seconds below 2^31 - 1 are read as they are and all others leave the time alone, so no time turns negative |
| TimeAlgebra.TimeInternal.NormalizeTime | ptpd-2.0.0/src/arith.c:75-90 | the in-place steps compute the normal form proved canonical |
| TimeAlgebra.TimeInternal.AddTime | ptpd-2.0.0/src/arith.c:92-98 | the total is the sum of the totals, also when the receiver is an operand |
| TimeAlgebra.TimeInternal.SubTime | ptpd-2.0.0/src/arith.c:100-106 | the total is the difference of the totals, also when the receiver is an operand |
| TimeAlgebra.TimeInternal.Div2Time | ptpd-2.0.0/src/arith.c:108-115 | the in-place steps compute the half characterised above |
| TimeAlgebra.TimeInternal.ScaledNanosecondsToInternalTime | ptpd-2.0.0/src/arith.c:5-29 | the canonical form of trunc(x / 2^16) but for the least 64-bit number |
| TimeAlgebra.Timestamp.FromInternalTime | ptpd-2.0.0/src/arith.c:32-53 | a negative field leaves the time stamp unchanged, otherwise it takes both fields and no upper seconds |
| TimeAlgebra.Timestamp.ToInternalTime | ptpd-2.0.0/src/arith.c:55-70 | seconds from 2^31 - 1 on leave the time unchanged, all others are taken with the nanoseconds as a signed word |
| TimeAlgebra.FloorLog2 | ptpd-2.0.0/src/arith.c:117-130 | -1 for 0, otherwise the power of two that n reaches but not the next |
| TimeAlgebra.ShiftIf | ptpd-2.0.0/src/arith.c:124-127 | each line keeps the shifted number the leading bits of n |
| Calendar.ClosedDaysStep | time.cpp:22-28 | the closed form grows by one from any date to the next, across months, years and leap years |
| Calendar.ClosedDaysCount | time.cpp:22-28 | between any two Gregorian dates it differs by the number of days counted one by one |
| Calendar.ClosedSecondsStep | time.cpp:22-31 | the closed form grows by one from any second to the next, across minutes, hours, days, months and leap years |
| Calendar.ClosedSecondsSince | time.cpp:22-31 | between any two date-times it differs by the number of seconds counted one by one |
| Calendar.ClosedSecondsCount | time.cpp:22-31 | from 1970 on it is the number of seconds since midnight of 1970-01-01, counted one by one |
| Calendar.ClosedSecondsByDays | time.cpp:22-31 | which is 86400 times the day count since 1970-01-01 plus 3600 an hour, 60 a minute and 1 a second |
| Calendar.ClosedSecondsMonotone | time.cpp:22-31 | it orders valid date-times by date, hour, minute and second, and tells any two apart |
| Calendar.Mktime | time.cpp:18-32 | from 1970 on the number of seconds since midnight of 1970-01-01 modulo 2^32; for every month of every year from 1 on the closed form, and for every other word the shifted one |
| Calendar.ShiftExactly | time.cpp:22-26 | which words count as early months, and the month and year that they become |
| Calendar.DaysWordExactly | time.cpp:28-29 | the days of any words, with the one product that can wrap |
| Calendar.LeapYearsClosed | time.cpp:47-53 | the counting loop has the closed form of the Gregorian rule |
| Calendar.LoopDaysExactly | time.cpp:47-80 | what the loops as written count for any numbers: years before 1900, months beyond 12 and days out of range included |
| Calendar.CorrectedLoopCounts | time.cpp:47-84 | with the leap test corrected the loops give the number of seconds since midnight of 1900-01-01, counted one by one |
| Calendar.AsWrittenLoopMisses | time.cpp:65 | as written they are 86400 less exactly from March on in leap years |
| Calendar.LoopAgainstClosedForm | time.cpp:34-86 | from 1970 on they equal the closed form plus 2208988800 (section 6 of RFC 5905), less a day exactly from March on in leap years; corrected, always |
| Calendar.ChangeDatetimeToSeconds | time.cpp:34-86 | from 1900 on the number of seconds since midnight of 1900-01-01, less a day exactly from March on in leap years, modulo 2^32; and what the loops count for every byte in every field |
| Calendar.CountLeapYears | time.cpp:47-53 | the loop over the years counts the leap years from 1900 on |
| Calendar.AddMonths | time.cpp:57-78 | the month loop adds the days of the months before, modulo 2^32 |
| Calendar.DaysToSeconds | time.cpp:80-83 | the last lines compute the seconds modulo 2^32 |
| Sentences.MyStrstr | USER/CMD_HANDLE/bds.c:34-51 | the first match inside the given length, or none exists |
| Sentences.MyStrrstr | USER/CMD_HANDLE/bds.c:8-32 | the last match, or none exists; the last character for an empty pattern |
| Sentences.FindFieldMeaning | USER/CMD_HANDLE/bds.c:58-68 | a field starts right after its comma with no stop character before, and is absent when a stop character comes first |
| Sentences.FieldCutOff | USER/CMD_HANDLE/bds.c:58-68 | a field is absent when a '*', a control character or one beyond 'z' comes before its comma, whatever follows |
| Sentences.NmeaCommaPos | USER/CMD_HANDLE/bds.c:58-68 | the offset of that field in eight bits, or 0xFF |
| Sentences.NmeaPow | USER/CMD_HANDLE/bds.c:71-76 | the power modulo 2^32 |
| Sentences.ScanNumberBounds | USER/CMD_HANDLE/bds.c:88-113 | the summing loops never read past the terminator, although the counts wrap at 256 |
| Sentences.SumDigits | USER/CMD_HANDLE/bds.c:104-113 | the positional value modulo 2^32 |
| Sentences.ScanLoop | USER/CMD_HANDLE/bds.c:88-102 | sign and counts as the scanning function defines them |
| Sentences.NmeaStr2num | USER/CMD_HANDLE/bds.c:81-117 | value and decimals of the characters it counts, for every buffer with a terminator |
| Sentences.FinishNumber | USER/CMD_HANDLE/bds.c:114-116 | the two parts combine to the value of their concatenation in 32 bits two's complement |
| Sentences.Str2numWord | USER/CMD_HANDLE/bds.c:81-117 | every well-formed decimal is read as its value with min(5, f) decimals, in 32 bits |
| Sentences.Str2numWritten | USER/CMD_HANDLE/bds.c:81-117 | it is read exactly if and only if this value fits 32 bits |
| Sentences.IllegalCharacter | USER/CMD_HANDLE/bds.c:93-98 | a number with or without sign and decimals that an illegal character ends is read as 0 without decimals |
| TimeOfDay.FieldFound | USER/CMD_HANDLE/bds.c:58-68 | in a printed list each field is found where it was printed |
| TimeOfDay.FieldMissing | USER/CMD_HANDLE/bds.c:58-68 | a field beyond the star of a short sentence is not found, whatever follows the sentence |
| TimeOfDay.ListRead | USER/CMD_HANDLE/bds.c:467-517 | a sentence of up to six numbers sets that many members in order and leaves the others as they were |
| TimeOfDay.SentenceRead | USER/CMD_HANDLE/bds.c:467-517 | every sentence of six numbers, leading zeros included, sets the struct to these numbers |
| TimeOfDay.RoundTrip | USER/CMD_HANDLE/bds.c:467-517 | for every date-time, printed anywhere in the buffer with no tag before it, all six values are read back |
| TimeOfDay.Clock.ReadField | USER/CMD_HANDLE/bds.c:481-485 | the field's number as a 32-bit word, or nothing if it is not found below 255 |
| TimeOfDay.Clock.ReadFields | USER/CMD_HANDLE/bds.c:481-516 | each member takes its own field, and keeps its value when that field is missing |
| TimeOfDay.Clock.TodAnalysis | USER/CMD_HANDLE/bds.c:467-517 | the first sentence in the buffer is analysed, whatever follows it; without one nothing changes |
| CheckSum.UbloxCheckSum | USER/CMD_HANDLE/bds.c:534-543 | the two bytes are the sum and the sum weighted by the distance from the end, modulo 256 |
| CheckSum.FletcherConcat | USER/CMD_HANDLE/bds.c:534-543 | the check bytes of a concatenation follow from those of its parts and the length of the second |
| CheckSum.SingleByteDetected | USER/CMD_HANDLE/bds.c:534-543 | a change of one byte leaves them equal if and only if it is no change |
| CheckSum.SwapDetected | USER/CMD_HANDLE/bds.c:534-543 | an exchange of two bytes leaves them equal if and only if 256 divides distance times difference; so for neighbours only when they are equal |
| Filters.Bubble | USER/tracking/filter.c:85-91 | one round moves a greatest sample to its end, permutes the rest below it and touches nothing above |
| Filters.BubbleSort | USER/tracking/filter.c:84-92 | the array becomes sorted and a permutation of what it was |
| Filters.Filter | USER/tracking/filter.c:74-96 | it sorts in place and returns trunc((sum - least - greatest) / (n - 2)) of the samples given, and 0 for less than two |
| Filters.AvrValueFiter | USER/tracking/filter.c:46-70 | one pass gives trunc((sum - max(0, greatest) - min(0, least)) / (n - 2)) |
| Filters.SortedMiddle | USER/tracking/filter.c:94 | the middle of a sorted array sums to the trimmed sum |
| Filters.TrimmedMeanRobust | USER/tracking/filter.c:74-96 | whatever value one of n >= 3 samples has, the result stays within the range of the others |
| Filters.OnePassAgrees | USER/tracking/filter.c:46-96 | the two filters divide the same sum if and only if least <= 0 <= greatest |
| Filters.FiltersAgree | USER/tracking/filter.c:46-96 | then they return the same |
| Filters.FiltersAgreeExactly | USER/tracking/filter.c:46-96 | for every n >= 3 they return the same if and only if the remainder of the trimmed sum by n - 2 and the extreme that the one pass leaves in stay below n - 2 together |
| Filters.FiltersAgreeOnThree | USER/tracking/filter.c:46-96 | for three samples they return the same only then |
| Filters.PartialSumFits | USER/tracking/filter.c:56-94 | no partial sum overflows 32 bits if n times the largest magnitude fits |
| Filters.OnePassFits | USER/tracking/filter.c:67 | nor do the differences of the one pass if (n + 2) times it fits |
| Kalman.KalmanFilter.Filter | USER/tracking/filter.c:16-43 | the estimate returned and the new statics are the weighted mean and its covariance, and one step of the recursion |
| Kalman.CovarianceBounds | USER/tracking/filter.c:31-37 | the gain is strictly between 0 and 1, and the new covariance positive, below the measurement noise and below the predicted one |
| Kalman.EstimateIsWeightedMean | USER/tracking/filter.c:31-37 | for all Q >= 0 and R > 0 the new estimate is the mean of the last one and the measurement weighted by R and P + Q, and the new covariance is that of this mean |
| Kalman.GainIsOptimal | USER/tracking/filter.c:31-37 | no gain g gives a smaller (1 - g)^2 (P + Q) + g^2 R than the new covariance, and exactly one gives the same |
| Kalman.StepContracts | USER/tracking/filter.c:31-37 | two covariances approach each other in a step by (R / (Q + R))^2 or faster |
| Kalman.CovarianceStepExists | USER/tracking/filter.c:31-39 | for every Q >= 0 and R > 0 the hypothesis of the three theorems about iterated calls is met |
| Kalman.CovarianceStaysBounded | USER/tracking/filter.c:26-39 | after every number of calls the covariance is positive, and below R after the first |
| Kalman.CovariancesContract | USER/tracking/filter.c:26-39 | after n calls two covariances have approached each other by the n-th power of that factor |
| Kalman.RunCovariance | USER/tracking/filter.c:16-43 | in every run with constant noise the covariance is that iterate, whatever is measured |
| Kalman.FilterIsOptimal | USER/tracking/filter.c:16-43 | over every history with changing noise no sequence of gains reaches a smaller covariance than the filter |
| Kalman.FilterIsLinear | USER/tracking/filter.c:16-43 | and estimate and covariance of the filter are those of one sequence of gains |
| Kalman.RunIsWeightedMean | USER/tracking/filter.c:16-43 | in every run with changing noise each estimate is that weighted mean, starting from 0 with covariance 20 |
| Kalman.EstimateInHull | USER/tracking/filter.c:16-43 | in every run, also with changing noise, the estimate stays within every interval that holds 0 and the measurements so far |
| Kalman.StillRunIsAverage | USER/tracking/filter.c:16-43 | without process noise every run yields the average of the measurements, the start value 0 counting as R / 20 of one |

## Left out

- DataSetComparison.CompareAntisymmetric: `memcmp` is reduced to its sign; the code stores its `int` result in a `short` (bmc.c:267), which keeps the sign for the byte-wise `memcmp` of the tool chain.
- BestMasterClock.PtpClock.AddForeign: header and announce fields that no function of bmc.c reads are not carried along.
- RxRing.StepSafe: `low_level_input` on a descriptor the MAC owns, or on an erroneous frame, is not modelled; the handler at Main/stm32f10x_it.c:180 calls it only after `ETH_GetRxPktSize` found a frame. What arrives in one step fits one buffer; a longer frame is several such pieces without both flags, and so an erroneous one.
- TxRing.ReachableTxStates: after a timeout the driver makes no further steps in these runs; what a later call does with a late time stamp is not modelled, except that it returns ERR_INPROGRESS while the MAC still owns the descriptor.
- TxDriver.TxDriver.LowLevelOutput: the chain must fit the 1520 bytes of a buffer. The code does not check it and relies on its caller: the interface declares an MTU of 1500 (ethernetif.c:149), which leaves room for the 14 bytes of Ethernet header. What a longer chain would do to the neighbouring buffers is not modelled. The bus polling flags (RBUS, TBUS) and the descriptor bits that never change are not modelled.
- RxDriver.RxDriver.LowLevelInput: `pbuf_alloc` is a parameter, a chain whose lengths sum to the request or nothing.
- HardwareClock.PtpRegisters.UpdateOffset: the hardware is one that adds the update to its time at once; busy-waits on its flags are left out.
- TimeAlgebra.TimeInternal.AddTime: the fields are integers; AddFits, SubFits and Div2Canonical say when the 32-bit fields of the code behave as these.
- TimeOfDay.Clock.TodAnalysis: a buffer that ends within a field being read of its first sentence is excluded, because the code then reads whatever memory follows.
- Sentences.NmeaStr2num: likewise for a number without a terminator; bytes of the buffer are values, so pointers into it are offsets.
- Filters.Filter: the sum is an integer; PartialSumFits and OnePassFits bound it. With two samples both filters divide by zero, which is excluded.
- Kalman.KalmanFilter.Filter: the arithmetic is over the reals, rounding is not modelled; the argument InitialPrediction is never read by the code.
- Calendar.ChangeDatetimeToSeconds: the code ignores its argument and reads a global `nowdate` with a two-byte year; its declaration is not part of this model, and the fields are taken as bytes. `unsigned long` has 32 bits as on the target.
- The debug macros of bmc.c and the empty `p1`.
- The PTP protocol engine, servo, message packing and timers: announces and times are arbitrary inputs; of `handleAnnounce` only its call of `addForeign` matters here, and of the announce receipt timeout only its two resets.
- The GSV, GGA, GSA, RMC and ZDA analysers of bds.c: they differ from the time-of-day path in the fields they read and would add only easy members.
- `USER/tracking/pid.c`: its output and integral clamps are settled by reading the branches.
- The peripheral library, start-up code, link handling, the lwIP API layer and nmealib: register writes, constants and input or output.
