# Oscillatord: a verified model of its protocols and algorithms

Oscillatord disciplines a local oscillator to GNSS and hands the time to NTP. Most of its files
talk to devices; between them sit a number of small protocols and algorithms that have to be
right over every run. This project models those as step machines and as classes that change
their fields in place, and proves what they keep. Kernel, serial and socket calls appear as
inputs that may answer anything.

| module | what it models |
|---|---|
| `Timespec` | signed, normalised timespec arithmetic and comparison |
| `NtpSegment` | one NTP shared-memory segment: `ntp_write`, `ntp_read` as whole calls |
| `ShmProtocol` | the same segment word by word: one writer and any number of readers interleaving freely |
| `ShmAllocator` | allocation of segments to sessions |
| `Phasemeter` | the online pairing of two 1PPS event streams |
| `PpsMonitor` | classification of pulse edges on the RFC 2783 path |
| `Sa5x` | the disciplining state machine of the SA5x driver |
| `Common` | an option type and bytes |
| `Gf2`, `Crc8` | polynomials over GF(2) as sets of exponents; `gencrc` as polynomial division |
| `RtcmHandoff` | the client descriptor shared by three threads |
| `PtyRing` | the ring buffers of the pty pair and the arming of EPOLLOUT |
| `GnssConfig` | building the receiver configuration, overriding it, comparing it with RAM |
| `MainLoop` | the disciplining loop: phase jumps, discarded readings, the request mailbox |

`dafny verify dfyconfig.toml` checks everything.

In each module a specification function (`Step`, `CtrlStep`, `Crc`, `Reports`, `Written`, ...)
says what one operation does to a value; the methods of the classes follow the source's control
flow and are proved equal to it; the lemmas prove what runs of it keep.

## What turned out not to hold

Where the code and a comment or an expectation differ, the code is modelled as it is; the lemmas
named here show inputs or runs on which it differs, and under which condition it does not.

- `ntp_read` calls its copy proof against concurrency, but it never tests that the count it
  sampled is even. `ShmProtocol.OddSampleCanBeTorn` builds, for any two samples and any cut, a
  run in which the mixture of the two is returned as OK; `ShmProtocol.ReadsAreConsistent` shows
  that an even sample excludes it and when an odd one can occur at all. Even an even sample is no
  proof when a restarted daemon resets the segment during the read
  (`ShmProtocol.EvenSampleTornByReset`).
- `monitoring_init` leaves the request slot as the allocated memory was. What it held is acted on as
  if it had been posted, unless a request is posted over it before the loop first looks
  (`MainLoop.RequestsAreActedOnOnce`, `MainLoop.UnpostedCalibration`). The phasemeter's error is
  likewise unset until the first pair (`Phasemeter.ShownErrorIsLastReported`).
- `check_gnss_config_in_ram` ignores list items that the receiver does not report, and accepts
  everything when the receiver cannot be read; `GnssConfig.AcceptedMeansConfiguredIff` says when
  acceptance means that the receiver is configured.
- A port line of the configuration may separate its fields by tabs, except that after SPI, I2C and
  USB a tab makes it unknown (`GnssConfig.PortLine`).
- A negative nanosecond part does not survive a write and a read (`NtpSegment.WriteReadRoundTrip`
  is an equivalence).
- The half-second bound of the phasemeter is sharp: a thread that joins in the middle of a second
  pairs across seconds exactly as long as each second slips into the next by a full 500 ms
  (`Phasemeter.JoiningLate`), which may be for ever (`Phasemeter.HalfSecondOffsetIsNeverCorrected`).
- The PPS monitor's comments promise a 10 % window at 5 Hz; the code stops at 201000 us. At 1 Hz
  the two edges of a period may both be accepted, or neither (`PpsMonitor.EdgesPerPeriod`); both
  always are when the pulse or the gap is shorter than a microsecond
  (`PpsMonitor.ShortPulseCountsTwice`). A delay of two to three seconds is reported although the
  comment allows 1.1 s (`PpsMonitor.ReportedDelays`).
- The SA5x driver can report LOCK without a pulse ever having been seen
  (`Sa5x.LockWithoutAnyPulse`). `Sa5x.UnlockedReadingShowsLockIff` says at which steps an unlocked
  reading shows LOCK, and `Sa5x.LockMeansLockedSpanIff` when LOCK stands for a locked span, both
  for every run. Also, UNCALIBRATED turns into HOLDOVER on the next holdover reading
  (`Sa5x.UncalibratedBecomesHoldover`). Its latch procedure gives up when the third attempt at
  switching disciplining off succeeds (`Sa5x.Oscillator.Latch`).
- After a failed send the GNSS thread compares descriptor numbers, so a number that was reused
  meanwhile makes it close a live client (`RtcmHandoff.ClosesTheSnappedConnectionIff`,
  `RtcmHandoff.LiveConnectionCanBeClosed`).
- The pty ring is a queue exactly under the conditions of `PtyRing.PutAppendsIff` and
  `PtyRing.TakeRemovesIff`; the room check before a read can never fail, so a full ring is
  overwritten rather than refused (`PtyRing.RoomCheckNeverFails`).
- The EEPROM's CRC misses two wrong bits that are a multiple of 127 positions apart, and no other
  pair (`Crc8.TwoBitErrorsIff`).
- Activating a session whose pointer is already set leaks the segment
  (`ShmAllocator.ActivateKeepsIff`).

## Model

| member | source | states |
|---|---|---|
| Timespec.NormStepExact | src/ntpshm/timespec.h:41-67 | TS_NORM keeps the instant; its result is normalised exactly for the inputs where one borrow or carry is enough, and is then the unique normalised form |
| Timespec.DiffExact | src/ntpshm/timespec.h:97-103 | the difference of two normalised timespecs is exact and again normalised: one step always suffices |
| Timespec.ComparisonsAreInstantOrder | src/ntpshm/timespec.h:110-131 | on normalised operands the comparison macros, timespec_diff_ns and TSTOMS agree with the integer order of the instants |
| Timespec.Cell.Norm | src/ntpshm/timespec.h:41-67 | TS_NORM in place keeps the instant and normalises exactly where one step is enough |
| Timespec.Cell.Sub | src/ntpshm/timespec.h:97-103 | TS_SUB in place, also when the destination is an operand, stores the exact difference |
| NtpSegment.FieldsInjective | src/ntpshm/ntpshmwrite.c:72-79 | the words a write stores determine its sample |
| NtpSegment.WrapTestMeansTruncation | src/ntpshm/ntpshmread.c:127-139 | the reader's unsigned, wrapping test accepts exactly the nanoseconds whose truncation is the microsecond field |
| NtpSegment.ReconcileWholeSegment | src/ntpshm/ntpshmread.c:149-169 | for any contents with microseconds in range both nanosecond fields are adopted or neither, exactly when both truncate, and a result is at most 999 ns above its microseconds |
| NtpSegment.FieldRoundTrip | src/ntpshm/ntpshmwrite.c:73-77 | one timestamp field passes through the unsigned store and the reader's test unchanged when it is not negative, and never when it is |
| NtpSegment.WriteReadRoundTrip | src/ntpshm/ntpshmwrite.c:63-84 | a read after an undisturbed write returns OK, leap and precision, and both timestamps to the nanosecond exactly when neither has a negative nanosecond part |
| NtpSegment.PublishedInstantsAreReadBack | src/ntpshm/ntpshmwrite.c:63-84 | the same for the caller's times before normalisation: every pair of non-negative instants one step away from normal form is read back exactly |
| NtpSegment.PublishedFieldsMeanTimes | src/ntpshm/ntpshmwrite.c:67-84 | where other programs find a published pair: reference time in the clock fields, system time in the receive fields, as seconds, truncated microseconds and nanoseconds of the same instant; count moves by two, valid is set, mode and nsamples stay |
| NtpSegment.ReadEndsHow | src/ntpshm/ntpshmread.c:72-184 | exactly when a read ends as not ready, clash, bad mode or OK, whatever its loads return, and which of the times, leap and precision each of these leaves alone |
| NtpSegment.ShmTime.Write | src/ntpshm/ntpshmwrite.c:28-85 | ntp_write normalises both times in place, publishes exactly the sample derived from them, adds two to count, sets valid, and passes a leap warning on exactly in June and December |
| NtpSegment.ShmTime.Reset | src/ntpshm/timehint.c:182-186 | a segment handed out is empty, in mode 1, not in sync, not valid |
| NtpSegment.Read | src/ntpshm/ntpshmread.c:64-185 | ntp_read, with whatever its loads return while others store, fills shm_stat as ReadEndsHow says, clears valid only when it consumes a valid segment, and changes nothing else |
| ShmProtocol.WriterInvStep | src/ntpshm/ntpshmwrite.c:67-84 | at every step of every process the count tells how far the writer is and the fields are what it has stored so far |
| ShmProtocol.ActorReaderStep | src/ntpshm/ntpshmread.c:80-114 | while the count stands still and nothing is reset, each word a reader has copied is a word of the write that its sample names, or under an odd sample of the record before |
| ShmProtocol.LogStep | src/ntpshm/ntpshmread.c:106-116 | a step adds at most one outcome to a reader's log, and the log stays consistent and never goes backwards |
| ShmProtocol.InvRun | src/ntpshm/ntpshmread.c:80-114 | the invariants hold after every interleaving of the writer, resets and any number of readers |
| ShmProtocol.ReadsAreConsistent | src/ntpshm/ntpshmread.c:80-114 | over every interleaving, with resets of the segment at any time, an OK read that no reset fell into returns under an even sample exactly the latest write complete at the sample, half the sample after the reset; an odd sample needs a write begun after the valid test and mixes it with the record before; one reader never goes backwards |
| ShmProtocol.WithoutResetAllAreUndisturbed | src/ntpshm/timehint.c:182-186 | while ntpshm_alloc does not run again this covers every OK read |
| ShmProtocol.EvenSampleTornByReset | src/ntpshm/timehint.c:182-186 | that no reset falls into the read is needed: count starts again at 0, and for all samples and every cut some run returns the mixture of a write before and one after it as OK under an even sample |
| ShmProtocol.EvenReadReturnsWrittenTimes | src/ntpshm/ntpshmread.c:80-169 | end to end: under every interleaving an OK read with an even sample that no reset fell into yields to the nanosecond the two non-negative times, the leap and the precision given to the write it names |
| ShmProtocol.OddSampleCanBeTorn | src/ntpshm/ntpshmread.c:80-95 | the parity condition is needed: for all samples and every cut some run returns the torn mixture as OK |
| ShmProtocol.UndisturbedWrite | src/ntpshm/ntpshmwrite.c:67-84 | the writer alone publishes its data, adds two to count and sets valid |
| ShmProtocol.UndisturbedRead | src/ntpshm/ntpshmread.c:85-116 | a reader left alone after the valid test returns what the segment holds as OK, and clears valid exactly when it consumes |
| ShmProtocol.WriteIsUndisturbedRun | src/ntpshm/ntpshmwrite.c:67-84 | the whole call of ntp_write is an uninterrupted run of the step machine |
| ShmProtocol.ReadIsUndisturbedRun | src/ntpshm/ntpshmread.c:80-116 | the whole call of ntp_read is an uninterrupted run of the step machine with the same outcome and fields |
| ShmProtocol.CheckIsReadStat | src/ntpshm/ntpshmread.c:111-116 | however a read was interrupted, the outcome of its last step is the one the whole call reports for the words it copied and the two counts it saw |
| ShmProtocol.ClashNeedsAMovedCount | src/ntpshm/ntpshmread.c:85-114 | a read clashes only if the count was stored to between its two loads, whatever else the writer and other readers did |
| ShmProtocol.MovedCountClashes | src/ntpshm/ntpshmread.c:85-114 | and every store to the count in between makes it clash as long as nothing is reset |
| ShmAllocator.AllocField | src/ntpshm/timehint.c:167-194 | an unset pointer that takes the first free segment keeps "in use exactly when one field points there" |
| ShmAllocator.FreeField | src/ntpshm/timehint.c:196-209 | giving a pointer's segment back keeps it too |
| ShmAllocator.ActivateKeepsIff | src/ntpshm/timehint.c:318-349 | an activation keeps the bookkeeping exactly when it overwrites no pointer, in particular for every unlinked session |
| ShmAllocator.DeactivateExact | src/ntpshm/timehint.c:301-315 | deactivation releases exactly the segments the session held and unlinks it |
| ShmAllocator.RolesBySource | src/ntpshm/timehint.c:318-349 | which source gets which segments: none for a pty, the first free one for the pulse alone, the first for serial time and the next for the pulse over USB and RS232, the first for serial time otherwise, no pulse segment when the first is missing; exactly these are marked |
| ShmAllocator.SegmentsAreExclusive | src/ntpshm/timehint.c:167-216 | after any run of activations of unlinked sessions and deactivations a segment is in use exactly when one field points to it, and no two sessions or roles share one |
| ShmAllocator.Context.constructor | src/ntpshm/timehint.c:152-164 | the attached segments are recorded and none is in use |
| ShmAllocator.Context.AllocSegment | src/ntpshm/timehint.c:167-194 | first fit among attached, unused segments, or null; the segment comes back initialised and no other one is touched |
| ShmAllocator.Context.FreeSegment | src/ntpshm/timehint.c:196-209 | exactly the mark of this segment is cleared; an unknown pointer changes nothing |
| ShmAllocator.Session.constructor | src/ntpshm/timehint.c:211-216 | a new session points to no segment |
| ShmAllocator.Session.LinkActivate | src/ntpshm/timehint.c:318-349 | the session's pointers and the marks afterwards, per source type and when segments run out; the PPS thread runs exactly when a pulse segment was obtained |
| ShmAllocator.Session.LinkDeactivate | src/ntpshm/timehint.c:301-315 | pointers and marks afterwards; the PPS thread stops with its segment |
| Phasemeter.FilterKeeps | src/phasemeter.c:43-68 | an event counts exactly if its second is not negative and its index 0, the receiver, or 5, the internal pulse, and is kept as nanoseconds in its place |
| Phasemeter.PairsIsMatching | src/phasemeter.c:149-217 | the pairs the loop forms are disjoint neighbours of different sources at most 500 ms apart |
| Phasemeter.PairsIsOptimal | src/phasemeter.c:149-217 | no choice of disjoint such pairs is larger |
| Phasemeter.ErrorsAreThosePairs | src/phasemeter.c:191-209 | the reported phase errors are, in order, those of the pairs, GNSS minus internal |
| Phasemeter.ReportsAreMaximumMatching | src/phasemeter.c:141-217 | over any finite event stream, after filtering, the both-timestamps reports are a maximum matching and no timestamp is used twice |
| Phasemeter.StreamFromItsStart | src/phasemeter.c:149-217 | with one pulse per second and source, offset by at most 500 ms that may vary each second, every second gives one report and nothing else is reported |
| Phasemeter.JoiningLate | src/phasemeter.c:198-202 | what a thread reports that joins in the middle of a second: it pairs across seconds, with an error of half a second, exactly as long as each second slips into the next, and is right from then on |
| Phasemeter.OneExactReportPerSecond | src/phasemeter.c:149-217 | from the first event on each second gives exactly one report, minus its offset; a late joiner does so from the next second on exactly when the first second does not slip; the value fits the 32-bit field |
| Phasemeter.BelowHalfASecondIsRight | src/phasemeter.c:149-217 | with offsets below 500 ms, from any starting event each reported error is minus the offset of its second and every second after the first gives exactly one |
| Phasemeter.HalfSecondOffsetIsNeverCorrected | src/phasemeter.c:198-202 | at exactly 500 ms late, or early, in every second a late joiner reports the wrong sign for ever |
| Phasemeter.NextStamp | src/phasemeter.c:43-68 | the read loops deliver exactly the next event of index 0 or 5, skipping errors, negative seconds and other indices |
| Phasemeter.Meter.Compare | src/phasemeter.c:160-217 | each branch moves exactly one report, or none, from the specification to the published state |
| Phasemeter.ShownErrorIsLastReported | src/phasemeter.c:164-209 | the published status is that of the last report; the published error is the last one reported, converted to 32 bits, and before the first one whatever memory phasemeter_init left |
| Phasemeter.SilenceIsAnnounced | src/phasemeter.c:160-186 | when one source falls silent every further pulse of the other announces just that source as missing |
| Phasemeter.Meter.Thread | src/phasemeter.c:120-218 | the thread's reports are those of the specification, cut off only after the first one at which the stop flag was set, and the published status and error follow from them, whatever the error was before |
| PpsMonitor.LastEdgeIsLatest | src/ntpshm/ppsthread.c:626-658 | the later of assert and clear is taken in the order of instants, ties counting as clear, and the other one is its predecessor |
| PpsMonitor.GetEdge | src/ntpshm/ppsthread.c:560-677 | edge and previous edge as found by the nested comparison; a timeout is the only reason to try again |
| PpsMonitor.Categorize | src/ntpshm/ppsthread.c:1018-1100 | exactly these pairs of cycle and duration are accepted |
| PpsMonitor.ReportedDelays | src/ntpshm/ppsthread.c:1171-1208 | the report hook is called for an accepted edge exactly when the true delay since the fix lies in [0, 1.1 s] or [2 s, 3 s) |
| PpsMonitor.RejectedDelays | src/ntpshm/ppsthread.c:1123-1205 | and exactly when an accepted edge is rejected as backwards, out of range or without a usable fix |
| PpsMonitor.ReportedPair | src/ntpshm/ppsthread.c:1171-1173 | a reported edge is paired with exactly one second after the fix's second, with no nanoseconds, and with its own system time |
| PpsMonitor.SameDirection | src/ntpshm/ppsthread.c:953-984 | an edge of unchanged direction counts as an invisible pulse at the known cycles, accepted at 5 Hz and 1 Hz but not at 0.5 Hz; otherwise every tenth one is let through |
| PpsMonitor.OneEdgeKernels | src/ntpshm/ppsthread.c:640-658 | with a kernel that captures one polarity only each edge is measured against the one before, and at about 1 Hz every edge from the second on is accepted |
| PpsMonitor.FailedFetchIsNotReported | src/ntpshm/ppsthread.c:598-614 | a fetch that fails other than by a timeout goes on as an edge at time 0 and is never reported |
| PpsMonitor.PpsThread.TakeEdge | src/ntpshm/ppsthread.c:896-984 | stored pulse times, last state and unchanged counter after an edge, and the verdicts of stages one and two |
| PpsMonitor.PpsThread.Report | src/ntpshm/ppsthread.c:1171-1222 | pps_out and its count change exactly when the edge is reported, to the second after the fix and the edge's time |
| PpsMonitor.PpsThread.Turn | src/ntpshm/ppsthread.c:793-1222 | one turn of the loop for every answer of time_pps_fetch: new state, outcome and what is published |
| PpsMonitor.SteadyFromSecondEdge | src/ntpshm/ppsthread.c:896-970 | on any train of alternating edges, at any nanosecond and with any jitter, a monitor in any state measures, from the second edge it sees, the time since the last edge of the same direction as the cycle and since the previous edge as the duration, truncated to microseconds |
| PpsMonitor.AcceptedAtAnyRate | src/ntpshm/ppsthread.c:1018-1100 | on such trains, in nanoseconds, exactly which edges stage two accepts at 5 Hz, 1 Hz and 0.5 Hz, and none at any other rate |
| PpsMonitor.EdgeIsPublished | src/ntpshm/ppsthread.c:1171-1213 | an accepted edge that comes within 1.1 s after a fix is published at its own time with the second after the fix's: the true offset of the system clock if that is the edge's second |
| PpsMonitor.ReportsAreApart | src/ntpshm/ppsthread.c:1171-1213 | two published edges differ in GPS time by the seconds between their fixes and in system time by the time between the edges |
| PpsMonitor.EdgesPerPeriod | src/ntpshm/ppsthread.c:1044-1073 | of two neighbouring edges near 1 Hz, with low and high times that add up to the period P, both are accepted exactly when the high time lies in [555 ms, P - 450 ms] or one of the times is below 1 us, and neither exactly when the high time lies strictly between P - 450 ms and 555 ms; so at most one below P = 1.005 s if both times reach 1 us, and at least one from there on |
| PpsMonitor.ShortPulseCountsTwice | src/ntpshm/ppsthread.c:1049-1051 | the case below 1 us occurs: with a 500 ns pulse every second every edge after the first is accepted as an invisible pulse |
| Sa5x.InvStep | src/oscillators/sa5x_oscillator.c:528-636 | every reading, read error and GNSS update keeps the state invariant |
| Sa5x.ReachableStates | src/oscillators/sa5x_oscillator.c:464-475 | in every reachable state the phase is 0 to 2, holdover_ready means phase 2, CALIBRATING means phase 0, LOCK means a phase of at least 1, the status follows from the class up to the initial one, and the last TAU commanded is 50, 500 or 10000 by the phase |
| Sa5x.QuietRun | src/oscillators/sa5x_oscillator.c:593-633 | without holdover or latch steps disciplining_start is the time of the last unlocked reading, and class and holdover_ready are functions of the readings since |
| Sa5x.LockMeansTenLockedMinutes | src/oscillators/sa5x_oscillator.c:593-633 | on such runs LOCK holds exactly when the readings reach more than 600 s past the last unlocked one, so all of that span was locked; holdover_ready holds exactly when since then one reading came more than 600 s and a later one more than 7200 s after it |
| Sa5x.UnlockedReadingShowsLockIff | src/oscillators/sa5x_oscillator.c:580-633 | in every run a reading without discipline lock shows LOCK exactly at a holdover or latch step that bumps the phase or latches in a later phase |
| Sa5x.LockShownWhenLockedIff | src/oscillators/sa5x_oscillator.c:580-633 | so LOCK is shown by locked readings only exactly in the runs without such unlocked steps |
| Sa5x.EarnedRun | src/oscillators/sa5x_oscillator.c:593-618 | in every run the phase was earned by readings more than 600 s, and 7200 s, past disciplining_start, and unlocked readings since then are holdover or latch steps |
| Sa5x.LockMeansLockedSpanIff | src/oscillators/sa5x_oscillator.c:580-633 | in every run, when LOCK is shown all readings of more than the last 600 s were locked exactly if none of them was an unlocked holdover or latch step; the same for holdover_ready and 7200 s |
| Sa5x.HoldoverShownIff | src/oscillators/sa5x_oscillator.c:580-613 | in every run with fixed firmware, at a reading with no bump due HOLDOVER or UNCALIBRATED is shown exactly if there is no pulse, or alarm 17, or no fix reported and none for nine seconds, as functions of the GNSS updates; then UNCALIBRATED exactly out of calibration or 24 h after the last fix, and phase, start and TAU stay |
| Sa5x.BumpInHoldoverShowsLock | src/oscillators/sa5x_oscillator.c:614-633 | with a bump due such a reading shows LOCK in the next phase |
| Sa5x.TrackingShows | src/oscillators/sa5x_oscillator.c:593-633 | without such a reason: back from holdover or without lock everything starts again at phase 0 with TAU 50, otherwise the class stays or a due bump leads to LOCK |
| Sa5x.LatchesAreRemembered | src/oscillators/sa5x_oscillator.c:550-572 | in every run the time of the last latch is that of the last reading at which unfixed firmware was stuck, by its alarms, correction, lock, tuning and the 600 s since the latch before, and the latch succeeded |
| Sa5x.StuckReadingShows | src/oscillators/sa5x_oscillator.c:550-633 | a stuck reading shows CALIBRATING in phase 0 and LOCK later, after a due bump, whether or not the latch succeeds and whether or not there is a reason for holdover |
| Sa5x.NotStuckIsAsFixed | src/oscillators/sa5x_oscillator.c:550-572 | otherwise unfixed firmware goes through the same step as fixed firmware |
| Sa5x.LockWithoutAnyPulse | src/oscillators/sa5x_oscillator.c:580-618 | the restriction is needed: one holdover reading ten minutes after start-up is shown as LOCK |
| Sa5x.HoldoverStep | src/oscillators/sa5x_oscillator.c:580-633 | a holdover step shows HOLDOVER or UNCALIBRATED exactly when it neither bumps the phase nor latches, which of the two follows from class and age of the fix; otherwise it shows CALIBRATING in phase 0 and LOCK later, always LOCK after a bump; TAU moves only with the phase |
| Sa5x.BumpsAreCountedByPhase | src/oscillators/sa5x_oscillator.c:614-618 | over a stretch of holdover readings the number of phase bumps is the growth of the phase |
| Sa5x.HoldoverShowsAtMostTwoLocks | src/oscillators/sa5x_oscillator.c:580-633 | with fixed firmware, in any unbroken stretch of holdover readings at most two show LOCK, exactly the bumps, and all others more than a day after the last fix show UNCALIBRATED |
| Sa5x.UncalibratedBecomesHoldover | src/oscillators/sa5x_oscillator.c:585-588 | of two holdover readings in a row the first shows UNCALIBRATED and the second HOLDOVER |
| Sa5x.LatchSucceedsIff | src/oscillators/sa5x_oscillator.c:486-526 | the latch procedure succeeds exactly if the command is accepted and disciplining was off or is seen off in a round before the last, after being seen on in all before |
| Sa5x.Oscillator.constructor | src/oscillators/sa5x_oscillator.c:464-475 | the state of a new oscillator, which satisfies the invariant |
| Sa5x.Oscillator.Latch | src/oscillators/sa5x_oscillator.c:486-526 | the latch succeeds exactly when disciplining is off at once or seen off within two of the three rounds and the command is accepted, and only then is the time of the latch stored |
| Sa5x.Oscillator.LatchIfStuck | src/oscillators/sa5x_oscillator.c:550-572 | when a latch is wanted, and that its time, read after the serial exchange, is stored exactly when it succeeds |
| Sa5x.Oscillator.UpdateClass | src/oscillators/sa5x_oscillator.c:580-613 | class, status, phase and start after the holdover, latch and tracking branches |
| Sa5x.Oscillator.AdvancePhase | src/oscillators/sa5x_oscillator.c:614-633 | phase, TAU, class and holdover_ready after the bump and the adjust block |
| Sa5x.Oscillator.GetCtrl | src/oscillators/sa5x_oscillator.c:528-636 | the whole call is one step of the state machine and keeps the invariant |
| Sa5x.Oscillator.PushGnssInfo | src/oscillators/sa5x_oscillator.c:678-687 | fix status is stored, the time of the fix only with a good fix that has a time |
| Gf2.RemainderUnique | utils/eeprom.c:10-24 | two polynomials of degree below 8 that are congruent modulo x^8 + x^5 + x^4 + 1 are equal |
| Gf2.OddIsNoMultiple | utils/eeprom.c:18 | no polynomial with an odd number of terms is a multiple of the generator |
| Gf2.BurstIsNoMultiple | utils/eeprom.c:18 | no non-zero polynomial whose terms span at most 8 positions is one |
| Crc8.Gencrc | utils/eeprom.c:10-24 | the nested loops compute the CRC of the first len bytes |
| Crc8.TimesXCong | utils/eeprom.c:17-20 | one round of the inner loop is a multiplication by x modulo the generator |
| Crc8.CrcIsRemainder | utils/eeprom.c:10-24 | for every byte string of length n the CRC is the remainder of 0xFF x^(8n) + D(x) x^8 modulo the generator, and the only one |
| Crc8.CollisionIff | utils/eeprom.c:10-24 | two inputs of one length have the same CRC exactly when their difference is a multiple of the generator |
| Crc8.ErrorsDetected | utils/eeprom.c:10-24 | every odd number of wrong bits and every burst of at most 8 bits changes the CRC, for any length |
| Crc8.PeriodIff | utils/eeprom.c:16-21 | the inner loop, started at 1, comes back to 1 exactly after every 127 rounds |
| Crc8.TwoBitErrorsIff | utils/eeprom.c:10-24 | two wrong bits go undetected exactly when their distance is a multiple of 127, for any length |
| Crc8.CheckByteUnique | utils/eeprom.c:127 | appending a byte makes the CRC zero exactly when it is the CRC: the stored check byte is the only one |
| RtcmHandoff.OwnershipStep | src/gnss.c:642-661 | every step of every thread keeps each open client descriptor owned by exactly one of the slot and the threads' locals |
| RtcmHandoff.AccountedStep | src/gnss.c:1048-1069 | every close hits an open client descriptor, and every accepted connection is either open once or closed once |
| RtcmHandoff.ShutdownStep | src/gnss.c:1251-1264 | the order of the shutdown: threads are joined before the slot is emptied for good |
| RtcmHandoff.DescriptorsAreLinear | src/gnss.c:638-691 | under every interleaving and every reuse of descriptor numbers ownership is linear, no close is stray and no connection is closed twice |
| RtcmHandoff.ClosesHitOpenClients | src/gnss.c:657-658 | whatever is closed in a run is an open client at that moment, and exactly its number and its connection go |
| RtcmHandoff.NewClientReplaces | src/gnss.c:651-658 | a new client takes the slot and the one before is closed |
| RtcmHandoff.EverythingClosedAfterStop | src/gnss.c:1251-1264 | after gnss_stop nothing is open and every connection ever accepted was closed exactly once |
| RtcmHandoff.ShutdownIsBounded | src/gnss.c:1195-1199 | on every run the GNSS thread takes at most five steps and one look at the slot after stop is requested, the accept thread at most three after the listening socket is closed, and gnss_stop six |
| RtcmHandoff.NeverStuck | src/gnss.c:1251-1264 | until everything has stopped one of the three threads can take a step that brings the end nearer |
| RtcmHandoff.StopCanAlwaysComplete | src/gnss.c:669-691 | from every reachable state the shutdown can be completed within 14 steps, so it never deadlocks |
| RtcmHandoff.ConnectionBehind | src/gnss.c:643-661 | over any run an open number stands for the connection it stood for before, unless it was handed out again, and then for a younger one |
| RtcmHandoff.OnlyFailedSendsDrop | src/gnss.c:1054-1067 | in every run the GNSS thread empties the slot or closes a client only if its last send since the last snapshot failed |
| RtcmHandoff.GoodSendsKeepClients | src/gnss.c:1054-1067 | while only the GNSS thread moves and no send fails, slot, open clients and closed connections stay |
| RtcmHandoff.SendsOnlyToClients | src/gnss.c:1051-1056 | in every run nothing is sent while the slot is empty, and otherwise to the number found in it |
| RtcmHandoff.FailedSendDrops | src/gnss.c:1057-1063 | after a failed send to the client in the slot two steps empty the slot and close it |
| RtcmHandoff.ClosesTheSnappedConnectionIff | src/gnss.c:1051-1066 | the GNSS thread closes a descriptor only after its last send failed, and then the connection it had found in the slot exactly if the kernel has not handed its number out again since |
| RtcmHandoff.LiveConnectionCanBeClosed | src/gnss.c:1060-1063 | the other case occurs: some run closes a live client whose number was reused |
| PtyRing.RoomCheckNeverFails | tests/ptspair.c:149-154 | write_length is positive for every ring, a full one included |
| PtyRing.PutAppendsIff | tests/ptspair.c:156-161 | a transfer in appends to the queue, across the wrap-around, exactly when it has bytes and the ring is not full, or has none and the ring is not empty |
| PtyRing.TakeRemovesIff | tests/ptspair.c:175-181 | a transfer out removes a prefix of the queue exactly when it has bytes or the ring is not full |
| PtyRing.EventsKeepQueues | tests/ptspair.c:234-272 | over any run of events a side whose transfers met these conditions is a FIFO queue with EPOLLOUT armed exactly while bytes are queued |
| PtyRing.CarefulRunsAreQueues | tests/ptspair.c:190-231 | runs with positive transfers and no read into a full ring keep both sides such queues: bytes come out as they went in and no wake-up is lost |
| PtyRing.ReceiveTransfers | tests/ptspair.c:190-213 | a readable side hands over as many bytes as fit in one piece, at least one if there are any, and they are appended and armed for |
| PtyRing.DrainTransfers | tests/ptspair.c:215-231 | a writable side is given the oldest bytes of its ring, at least one if there are any, and stays armed exactly while some are left |
| PtyRing.TwoDrainsDeliverAll | tests/ptspair.c:215-231 | two writable events with room deliver everything received, wherever the ring wraps |
| PtyRing.EventMovesBytes | tests/ptspair.c:240-252 | bytes read on one side go into the other's ring, bytes written come from the side's own, and both happen when both are announced |
| PtyRing.ErrorsAreReturned | tests/ptspair.c:243-271 | -EIO is returned exactly if an entry is broken, otherwise an error exactly if some call failed |
| PtyRing.BrokenEntryEndsIt | tests/ptspair.c:253-268 | what stands before a broken entry in the list is not looked at |
| PtyRing.Pts.GetWriteLength | tests/ptspair.c:149-154 | the room before the end of the array or before start |
| PtyRing.Pts.GetReadLength | tests/ptspair.c:167-174 | the bytes that can be written out in one piece |
| PtyRing.Pts.WrittenUpdate | tests/ptspair.c:156-161 | end and full after bytes came in |
| PtyRing.Pts.ReadUpdate | tests/ptspair.c:176-181 | start and full after bytes went out |
| PtyRing.Pts.Receive | tests/ptspair.c:190-213 | process_in_event on the receiving side: ring, arming and result, for failure and for every number of bytes |
| PtyRing.Pts.Drain | tests/ptspair.c:215-231 | process_out_event: ring, arming and result |
| PtyRing.Ptspair.ProcessEvents | tests/ptspair.c:234-272 | events are handled from the last to the first up to a broken one, and the last error is returned |
| GnssConfig.TokensOfSpaced | common/gnss-config.c:170-172 | tokenising a text finds exactly its words, whatever runs of separators stand before, between and after them |
| GnssConfig.TextIsSpacedTokens | common/gnss-config.c:170-172 | every text is its tokens with such separators around them, so the two together determine the tokens of every line |
| GnssConfig.ItemLine | common/gnss-config.c:167-281 | a line of exactly two fields sets a named or hexadecimal item, and any other number of fields is refused |
| GnssConfig.RateLine | common/gnss-config.c:283-311 | a message line stands for its first five rates |
| GnssConfig.RatesMean | common/gnss-config.c:313-345 | "-" leaves a port alone; a line is refused exactly if another rate has no item or no readable value, and otherwise stands for exactly these items and values |
| GnssConfig.PortLine | common/gnss-config.c:349-441 | a port line stands for baud rate, input and output filter in this order; after SPI, I2C and USB a space has to stand or the line is refused |
| GnssConfig.BaudRates | common/gnss-config.c:373-383 | exactly eight baud rates are known, each read as the number written |
| GnssConfig.BaudMeans | common/gnss-config.c:443-471 | a single character or a leading "-" asks for no baud rate; otherwise the port must have one and the rate be known |
| GnssConfig.ProtfiltMeans | common/gnss-config.c:538-570 | a filter written with any commas stands for its protocols in order, 1 for a name and 0 for a name after "!", and is refused exactly if one is unknown; a single character or a leading "-" asks for nothing |
| GnssConfig.CfgDb.AddKeyVal | common/gnss-config.c:499-534 | the pair is appended exactly when there is room and its id is new, otherwise nothing changes |
| GnssConfig.CfgDb.ApplyProtfilt | common/gnss-config.c:538-570 | a protocol filter adds the pairs of all its parts, or fails exactly when a part is unknown or they do not fit |
| GnssConfig.CfgDb.AddRates | common/gnss-config.c:318-345 | a rate line adds the pairs of all ports that are not "-", or fails exactly when one cannot be configured or does not fit |
| GnssConfig.CfgDb.AddPort | common/gnss-config.c:443-486 | a port line adds baud rate and both filters in order, or fails exactly when one of them does |
| GnssConfig.CfgDb.Add | common/gnss-config.c:163-495 | a line of any kind adds exactly the pairs it stands for, or fails exactly when it is malformed or they do not fit |
| GnssConfig.BuildConfig | common/gnss-config.c:77-124 | a list is built exactly when every line is well formed and all pairs together are distinct and within capacity, and then it is those pairs in order |
| GnssConfig.CheckInRam | common/gnss-config.c:17-54 | the nested loops accept exactly when no item read from RAM has the id of a list item and another value; a failed read counts as none |
| GnssConfig.AcceptedMeansConfiguredIff | common/gnss-config.c:27-51 | an accepted RAM holds every pair of the list exactly when every id of the list occurs in it; a RAM with each item once holds them all exactly when it is accepted and every id occurs |
| GnssConfig.UnreadableIsAccepted | common/gnss-config.c:25-33 | the other case occurs: if nothing could be read every list is accepted, and none but the empty one is held |
| GnssConfig.OverlayAgrees | common/gnss-config.c:17-54 | a RAM overlaid with a list without conflicting values passes the comparison |
| GnssConfig.ConfiguredReceiverPassesIff | common/gnss-config.c:27-51 | every overlaid RAM passes exactly when the list has no two values for one id |
| GnssConfig.OverrideLast | src/gnss.c:436-445 | exactly the last entry with the id changes, and success means that there is one |
| GnssConfig.LowBytesReplaced | src/gnss.c:441 | writing the one-byte or two-byte member of a value replaces just its low byte or bytes |
| GnssConfig.TimeScaleNames | src/gnss.c:414-432 | a setting stands for the time scale whose three letters it starts with, and for none otherwise |
| GnssConfig.SetPreferredTimeScale | src/gnss.c:408-446 | a missing or unknown setting changes nothing; otherwise exactly the low byte of the time grid entry |
| GnssConfig.SetCableDelay | src/gnss.c:448-489 | a setting outside 1 to 32767 changes nothing; otherwise exactly the low two bytes of the cable delay entry |
| GnssConfig.OverrideKeepsIds | src/gnss.c:479-488 | an override changes one value and no id, so distinct ids stay distinct |
| GnssConfig.BuiltListIsAccepted | common/gnss-config.c:77-124 | every list that builds, with both overrides applied, is within capacity, keeps its ids, and is accepted by any receiver whose RAM was overlaid with it |
| MainLoop.JumpIsExact | src/oscillatord.c:114-122 | every phase jump is split into seconds and nanoseconds exactly, with nanoseconds in [0, 10^9), the only such split |
| MainLoop.SeenCarries | src/oscillatord.c:422-444 | the input built for a turn carries each of its readings, with the phase error normalised and exact in value and sign |
| MainLoop.JumpDoneIsRight | src/oscillatord.c:467-475 | the clock is moved exactly for a jump that was asked for and applied, by exactly the negated value with nanoseconds in [0, 10^9) |
| MainLoop.EndsIff | src/oscillatord.c:385-478 | the loop ends exactly when the receiver gives no data or a call, its jump or its calibration fails; the algorithm is called in exactly the complete turns that are not discarded |
| MainLoop.EndIsFinal | src/oscillatord.c:386 | once the loop has ended nothing more is called, taken or discarded |
| MainLoop.PostsReachTheSlot | src/monitoring.c:420-504 | every request reaches the slot except none, the EEPROM read and unknown values, and none does without monitoring |
| MainLoop.DiscardKeeps | src/oscillatord.c:416-420 | discarding a reading after a jump keeps the loop's state in step with its log |
| MainLoop.CallKeeps | src/oscillatord.c:460-478 | so does a call of the algorithm with the request taken after it |
| MainLoop.CallsAreRight | src/oscillatord.c:385-478 | over every run, whatever the request slot held at the start, each call is given its own turn's readings field by field, calibration_requested exactly when the request taken since the previous call was one, a valid fix hidden exactly during fake holdover; the clock jumps exactly as it asked, by the negated value; one complete reading was discarded since the previous call exactly when that made the clock jump; and no call follows one that failed |
| MainLoop.BetweenCalls | src/oscillatord.c:598-610 | between two consecutive calls, whatever the slot held at the start, exactly one request is taken and exactly one reading discarded after a jump, none otherwise; the second call sees a calibration request exactly when that request is one |
| MainLoop.RequestsAreActedOnOnce | src/oscillatord.c:598-605 | in every run the requests acted on, with the one still waiting, are exactly the posted ones that were not overwritten before the next take, each once and in order, preceded by what the slot held at the start; they are all posted ones exactly when the slot was empty then or was posted over before the first take |
| MainLoop.UnpostedCalibration | src/monitoring.c:707-750 | the other case occurs: left-over memory in the slot reaches the algorithm as a calibration request that nobody posted |
| MainLoop.WaitingIsLatest | src/monitoring.c:420-504 | the slot holds the latest effective post since it was last emptied, nothing if there was none, and what it held at the start only while nothing has happened to it |
| MainLoop.Daemon.ApplyPhaseOffset | src/oscillatord.c:108-128 | the timespec handed to the kernel is the phase error exactly, with nanoseconds in [0, 10^9) |
| MainLoop.Daemon.ProcessOutput | src/oscillatord.c:467-478 | the jump made, and that the next reading is marked for discarding exactly then; a failed jump or calibration ends the loop |
| MainLoop.Daemon.HandleMonitoring | src/oscillatord.c:598-645 | the request is taken from the slot exactly once and sets the calibration and fake holdover flags |
| MainLoop.Daemon.FillInput | src/oscillatord.c:422-444 | the input structure is the turn's own readings with the split phase error |
| MainLoop.Daemon.Iteration | src/oscillatord.c:385-478 | one turn of the loop for every outcome of its calls is one step of the state machine, early exits included |
| MainLoop.Daemon.Execute | src/oscillatord.c:386-676 | the whole loop, with requests posted between its turns and any initial slot, is a run of the state machine: every call in its log is right, and the requests acted on are those described above |

## Left out

- Word sizes: count, seconds and nanosecond totals are unbounded integers; a reader that is overtaken by 2^31 writes, years beyond the range of time_t, and overflow of `usec * 1000` in a foreign segment are not modelled.
- Memory order weaker than sequential consistency: the barriers are taken at their word.
- The month that gmtime_r computes in ntp_write is an input.
- Readers that map a segment before it was ever set up; the contents at the very first start are taken as not valid with a count of 0.
- Mode 0 segments under concurrency: the source itself has no clash detection there.
- `ntpshm_put`, the report hook's own checks and the chrony path.
- The TIOCMIWAIT branch of the PPS monitor, and waiting without PPS_CANWAIT; on that path `ok` is set before stage two.
- At most one report per second: `last_second_used` is never updated after its initialisation, so the code does not establish it.
- Pulse trains of which single edges are missed now and then. The high time is the time from assert to clear.
- How the monotonic clock and the attributes of the SA5x are read over the serial line; failure to send the TAU command, so "the last TAU commanded" is what the driver asked for.
- Between the request to stop and the closing of the listening socket the accept thread may serve any number of clients; no bound is claimed there.
- What send() does to a descriptor number that was closed and reused while the GNSS thread still held its copy; only ownership and closing are claimed.
- The listening socket's own number after it is closed, failure to create the accept thread, and the lifetime of the gnss structure, which gnss_thread frees.
- Failure of epoll_ctl when EPOLLOUT is armed or disarmed.
- Even numbers of wrong bits above two and longer bursts in the CRC; art_eeprom_reformat does not recompute the check byte, so no claim is made about every written image.
- The item tables and value parsers of the ubloxcfg library, hexadecimal keys included, and the parsing of the cable delay by strtol: they are parameters; the library is not part of this model.
- The receiver's reading of its own configuration, its maximum of 3000 items included.
- What the disciplining algorithm computes: its decisions are inputs; the library is not part of this model.
- The monitoring-only mode of the main loop, calibration, periodic saving, and the requests that only call into the receiver or the oscillator.
- The monitoring socket, the EEPROM structures, other oscillator drivers, device discovery and the configuration file: they would add only easy members, or their format is decided by libraries.
