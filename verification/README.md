# Verified model of the cattle-tracking backend

A Dafny model of six parts of the backend that are real algorithms or state machines, with proofs of
what they promise over every input, every run or every interleaving. `dafny verify dfyconfig.toml`
checks all of it.

- **Historical-time analytics** (`Medians`, `TemporalContinuity`, `ContinuityLaws`, `ObservedTime`,
  `GapVerdicts`, `Overlaps`, `TemporalBucketing`, `BucketingLaws`, `AnalyticsPipeline`,
  `TemporalSampling`, `EstimateAccuracy`). Timestamps are classified by the median cadence of their
  neighbourhood, the classification is accounted for as observed, gap or unknown time, and observed
  spans are distributed over epoch-aligned buckets. The bucketing loop is proved against a
  definition that counts single microseconds; classification is proved robust against outliers,
  symmetric in time and monotone in its parameters; the three stages are proved to compose without
  rejection and to conserve time.
- **Device assignment** (`DeviceAssignment`, `AssignmentHistory`, `UnorderedClocks`,
  `AssignmentOutcomes`). The history table is proved to be a faithful index of the past: asking it
  about an instant equals replaying the operations up to it. Without an ordered clock it is told
  exactly when the index stops answering.
- **Commands** (`CommandSequence`, `CommandLifecycle`, `CommandEffects`, `Dispatcher`,
  `EventDeduplication`, `EventHandling`). Sequence numbers stay gapless and unshared in every
  interleaving of sessions, the last application acknowledgement decides a command's status,
  dispatch passes are bounded and fair, and inbound events have their effects at most once.
- **Refresh sessions** (`RefreshSessions`, `SessionFamilies`, `SessionClients`). Token families are
  paths with at most one live session, the session limit is never exceeded, and a deactivation ends
  every session issued before it for good.
- **Geofences** (`GeofenceEvaluation`, `FenceReports`). Exits, returns and losses of GPS quality
  balance over every run, and the commanded report interval follows the last event.
- **Binary contract** (`WireContract`, `AckCorrelation`). The Python and the Go codec agree byte for
  byte, and an acknowledgement reaches exactly the command it answers, end to end.

Services that mutate state are classes. Their methods are proved to compute functions of the old
state, or to keep a relation to it where the database is free to choose; the laws are lemmas about
those functions and relations and about runs of them. Besides the laws over runs, every operation has
a lemma that tells its outcome from the inputs and the fields before, independently of the functions
that compute it.

## Conventions

- A naive UTC datetime is an integer number of microseconds since 1970, possibly negative. Seconds
  and medians are exact reals; the `isclose` tolerances are kept.
- A transaction step is atomic. Row locks and advisory locks are modelled by enabling a step only
  when the lock is free; a raise rolls the transaction back. Tables are sequences or maps, and a row
  inserted later has a larger id.
- Clock readings, transport replies, spatial query results and allocated numbers are parameters.
- Rows created at the same moment may be selected in any order by the dispatcher, and others may
  commit any action on commands between two of its iterations.
- Library text functions and Go's conversion of floats that do not fit an integer are parameters.
- Tokens stand for their hashes, taken to be injective; base64 is taken to be invertible.

## Where the code does not keep what it seems to promise

Each of these is stated as the exact condition under which the promise holds, on the inputs or the
run, with a witness.

- Bucketing reports time outside the window as zero when it is within the float tolerance, so input
  time equals bucketed plus outside time exactly when the time reported outside is zero or more than
  one microsecond. For spans that report exactly their length only a single microsecond outside is
  lost; a span accepted with slightly more than its length loses the excess
  (`BucketingLaws.ConservationExactly`, `ExactSpansAreConserved`, `OneMicrosecondIsLost`,
  `RoundedSecondsAreLost`).
- A larger query can get a finer bucket: one second more at 8000 devices halves the bucket
  (`TemporalSampling.LargerQueryCoarserExactly`, `OneMoreSecondHalvesTheBucket`).
- Under a clock that steps back the history can cover one instant twice, and the point query raises:
  exactly when a device is reassigned before the end of one of its finished stays
  (`UnorderedClocks.QueriesAnswerExactly`, `DisorderedClockBreaksTheIndex`).
- An error message on an event does not mean that nothing was changed: changes were committed exactly
  when publishing the location raised after the commit, or when the handler committed changes
  together with an error it reported, as for a downlink that was not transmitted
  (`EventDeduplication.ErrorMeansNoEffectsExactly`, `PublishFailureMarksACommittedEvent`,
  `ReportedFailureKeepsItsChanges`).
- The number of points estimated for a query is no upper bound: a window that does not start with a
  bucket can produce one bucket more per device, exactly when it overruns the estimated cells
  (`EstimateAccuracy.EstimateIsClose`, `FilledWindowExceedsExactly`, `MinuteAcrossTwoBuckets`).
- A command that the transport refuses retryably is offered again and again while it stays unexpired,
  and holds up the commands behind it (`Dispatcher.SameRowAgainExactly`, `UndisturbedRetryExactly`,
  `HeadOfLineBlocks`, `OneUnreachableDeviceBlocksTheOther`).
- An asset that leaves a fence, loses GPS quality and comes back inside never raises RETURNED
  (`GeofenceEvaluation.ExitsAreAnsweredExactly`, `SilentReturn`).
- The downlink decoder admits a zero parameter that the encoder refuses
  (`WireContract.EncodeAfterDecode`, `ZeroIntervalIsOneWay`).
- An acknowledgement that names its command directly can reach a command of another device
  (`AckCorrelation.AcksComeFromTheOwnerExactly`, `CommandLifecycle.AckStaysWithItsSenderExactly`,
  `AckedByAnotherDevice`).

## Model

| member | source | states |
|---|---|---|
| `Medians.MajorityConfinesMedian` | src/application/analytics/temporal_continuity.py:134-134 | a strict majority of the data inside a band forces the median inside it, wherever the minority lies |
| `Medians.HalfIsNotEnough` | src/application/analytics/temporal_continuity.py:134-134 | the majority bound is tight: with half the data in the band the median can leave it |
| `Medians.MedianIsPermutationInvariant` | src/application/analytics/temporal_continuity.py:134-136 | the median depends only on the multiset of its data |
| `TemporalContinuity.ValidateTimestamps` | src/application/analytics/temporal_continuity.py:239-252 | accepts exactly the ordered sequences of timestamps |
| `TemporalContinuity.AnalyzeTemporalContinuity` | src/application/analytics/temporal_continuity.py:52-116 | every configuration error and disorder is reported in the source's order; otherwise one assessment per interval, each decided by the windows on its two sides |
| `ContinuityLaws.OutlierRobustCadence` | src/application/analytics/temporal_continuity.py:134-136 | with a strict majority of samples in [lo, hi] the expected interval stays there and the spread is at most hi - lo |
| `ContinuityLaws.RegularSeriesIsContinuous` | src/application/analytics/temporal_continuity.py:79-195 | with at least 2 * min_samples intervals in a band tight for jitter and variability, every interval is continuous |
| `ContinuityLaws.TimeReversalSymmetry` | src/application/analytics/temporal_continuity.py:92-217 | analysing the mirrored timestamps gives the mirrored analysis with left and right evidence exchanged |
| `ContinuityLaws.TolerancePreservesContinuity` | src/application/analytics/temporal_continuity.py:119-195 | raising the gap factor or the jitter allowance keeps every verdict or turns it into continuous |
| `ContinuityLaws.AdmissionOnlyShrinksIndeterminate` | src/application/analytics/temporal_continuity.py:119-195 | raising the variability limit or lowering the sample minimum keeps every continuous and every gap verdict |
| `GapVerdicts.VerdictExactly` | src/application/analytics/temporal_continuity.py:119-170 | for every interval: continuous if and only if it is positive and within the factor or the allowance of a trusted side's median; a gap if and only if both sides are trusted and it exceeds both bounds of both |
| `GapVerdicts.SourceExactly` | src/application/analytics/temporal_continuity.py:172-217 | the sides named are those that explain the interval, or else those that are trusted, and each side reports the median of its samples |
| `GapVerdicts.ThresholdExactly` | src/application/analytics/temporal_continuity.py:139-145 | the threshold reported for a side is the longest interval it explains |
| `GapVerdicts.RepeatedTimestampIsUndecided` | src/application/analytics/temporal_continuity.py:82-90 | a repeated timestamp is never judged, and a configuration is accepted exactly within its bounds |
| `GapVerdicts.GapBetweenSteadyStretches` | src/application/analytics/temporal_continuity.py:79-170 | enough deltas in a tight band on both sides and a delta beyond factor and allowance make a gap, which is in the gap time |
| `GapVerdicts.GapNeedsBothSides` | src/application/analytics/temporal_continuity.py:165-170 | a gap has the minimum of positive deltas on both sides and exceeds both medians by factor and allowance |
| `GapVerdicts.SilentHourIsAGap` | src/application/analytics/temporal_continuity.py:79-116 | with the default configuration an hour of silence in a series of minutes is a gap of 3600 seconds |
| `GapVerdicts.MedianAndDeviationOfTwo` | src/application/analytics/temporal_continuity.py:131-134 | two samples have their mean as median and half their distance as deviation |
| `ObservedTime.CalculateObservedTime` | src/application/analytics/observed_time.py:45-113 | the six accumulators and the spans are those of the accounting function; otherwise the error is that of the first rejected assessment |
| `ObservedTime.NothingIsLostOrBookedTwice` | src/application/analytics/observed_time.py:57-92 | every second and every interval is booked under exactly one status |
| `ObservedTime.SpansCarryObservedTime` | src/application/analytics/observed_time.py:61-71 | the spans carry exactly the observed seconds, one for each continuous interval of positive length |
| `ObservedTime.OneMoreAssessment` | src/application/analytics/observed_time.py:57-92 | an assessment is booked under its own status, in count and seconds, and nowhere else; only a continuous one adds a span |
| `ObservedTime.CountsAreOccurrences` | src/application/analytics/observed_time.py:61-77 | each count is the number of times its status occurs |
| `ObservedTime.AcceptedExactly` | src/application/analytics/observed_time.py:96-113 | an assessment is accepted if and only if it does not run backwards and its seconds are its length within the tolerance |
| `Overlaps.MeasuresAgree` | src/application/analytics/temporal_bucketing.py:62-82 | for disjoint spans the sum of clipped lengths equals the number of single microseconds observed |
| `TemporalBucketing.ValidateSpans` | src/application/analytics/temporal_bucketing.py:174-202 | accepts exactly valid ordered spans and otherwise reports the first fault in the source's order |
| `TemporalBucketing.OrderedSpansAreDisjoint` | src/application/analytics/temporal_bucketing.py:174-202 | the neighbour-by-neighbour check makes all spans pairwise disjoint |
| `TemporalBucketing.ValidSpansExactly` | src/application/analytics/temporal_bucketing.py:174-202 | spans are accepted if and only if each is positive and reports its length within the tolerance, and none starts before its predecessor ends |
| `TemporalBucketing.SegmentBooked` | src/application/analytics/temporal_bucketing.py:73-82 | booking one segment into the dictionary keeps it describing the time clipped so far, cell by cell |
| `TemporalBucketing.BucketsBuilt` | src/application/analytics/temporal_bucketing.py:138-155 | the guard on bucket totals never fires |
| `TemporalBucketing.BucketsHoldWindow` | src/application/analytics/temporal_bucketing.py:94-103 | bucket totals add up to the microseconds observed in the window, so the closing consistency check never fires |
| `TemporalBucketing.DistributeSpans` | src/application/analytics/temporal_bucketing.py:62-82 | the nested loops end with a dictionary that describes the clipped time of all spans cell by cell, for any spans |
| `TemporalBucketing.BucketObservedTime` | src/application/analytics/temporal_bucketing.py:44-123 | buckets are exactly the non-empty epoch-aligned cells in increasing order, each with its number of observed microseconds and of spans meeting it; no internal guard fires |
| `BucketingLaws.BucketingIsDetermined` | src/application/analytics/temporal_bucketing.py:44-123 | the specification has only one result |
| `BucketingLaws.CoarseIsSumOfFine` | src/application/analytics/temporal_bucketing.py:56-93 | the total at k times the bucket size is the sum of the k fine totals |
| `BucketingLaws.WindowSplits` | src/application/analytics/temporal_bucketing.py:56-93 | cutting the window anywhere splits every bucket total and the overall total |
| `BucketingLaws.TotalsAreBounded` | src/application/analytics/temporal_bucketing.py:94-123 | bucketed time never exceeds the window, and no bucket exceeds its own length |
| `BucketingLaws.ConservationExactly` | src/application/analytics/temporal_bucketing.py:94-123 | for all accepted spans bucketed plus outside time is the input time if and only if the reported time outside is zero or above the tolerance |
| `BucketingLaws.ExactSpansAreConserved` | src/application/analytics/temporal_bucketing.py:94-123 | for spans reporting exactly their length: if and only if not exactly one microsecond lies outside the window |
| `BucketingLaws.OneMicrosecondIsLost` | src/application/analytics/temporal_bucketing.py:105-107 | the exception occurs: every bucketing of one microsecond before the window reports no bucket and no time outside |
| `BucketingLaws.RoundedSecondsAreLost` | src/application/analytics/temporal_bucketing.py:188-193 | the exception occurs inside the window too: a span accepted with half a microsecond too much loses it |
| `BucketingLaws.ReportExactly` | src/application/analytics/temporal_bucketing.py:109-123 | the report names window and bucket size, the spans given, those reaching into the window, the buckets, and the seconds in them |
| `AnalyticsPipeline.EndToEndAccounting` | src/application/analytics/observed_time.py:45-113 | for every ordered series the classifier's output is accepted by the accountant, its spans by the bucketer, and observed, gap and unknown time add up to last minus first |
| `AnalyticsPipeline.EndToEndConservation` | src/application/analytics/temporal_bucketing.py:94-123 | through all three stages bucketed plus outside time is the observed time, with the same single exception |
| `AnalyticsPipeline.ToleranceNeverLosesTime` | src/application/analytics/observed_time.py:57-92 | a larger gap factor or jitter allowance never reports less observed time |
| `AnalyticsPipeline.AdmissionNeverAddsUnknown` | src/application/analytics/observed_time.py:57-92 | admitting more evidence never reduces observed or gap time and never adds unknown time |
| `AnalyticsPipeline.RegularSeriesFullyObserved` | src/application/analytics/temporal_continuity.py:79-195 | a regular enough series is observed from its first to its last timestamp |
| `AnalyticsPipeline.ShortSeriesStaysUndecided` | src/application/analytics/temporal_continuity.py:92-130 | any series of fewer than 2 * min_samples intervals has an undecided one, so that bound is the least |
| `TemporalSampling.EstimateMonotone` | src/application/analytics/temporal_sampling.py:142-147 | estimated points grow with window and devices and shrink with the bucket |
| `TemporalSampling.PreFilterLosesNothing` | src/application/analytics/temporal_sampling.py:86-116 | a bucket below the required size cannot meet the target, so the pre-filter drops no candidate |
| `TemporalSampling.FailsAtTheLargest` | src/application/analytics/temporal_sampling.py:118-139 | no bucket is within the limit if and only if the largest one is not |
| `TemporalSampling.ResolutionIsOptimal` | src/application/analytics/temporal_sampling.py:60-139 | for every accepted query, zero devices included, the result is the smallest allowed bucket on target, failing that the smallest within the limit, and the limit error is raised exactly when the largest exceeds it |
| `TemporalSampling.CalculatedExactly` | src/application/analytics/temporal_sampling.py:70-84 | which queries are accepted, which buckets are allowed, and the refusals |
| `TemporalSampling.EstimateExactly` | src/application/analytics/temporal_sampling.py:142-147 | the estimate is one point per device and started bucket length |
| `TemporalSampling.RequiredTimesTarget` | src/application/analytics/temporal_sampling.py:86-86 | the required size times the target is the window times the devices |
| `TemporalSampling.LargerQueryCoarserExactly` | src/application/analytics/temporal_sampling.py:60-139 | told from the two queries: a larger query gets at least as coarse a bucket if and only if the largest bucket meets the target for both or neither, or every bucket too fine for the small target is too fine for the large limit |
| `TemporalSampling.OneMoreSecondHalvesTheBucket` | src/application/analytics/temporal_sampling.py:60-139 | the exception occurs with the default limits: 86400 s at 8000 devices takes 24 hours, 86401 s takes 12 |
| `TemporalSampling.DefaultBuckets` | src/application/analytics/temporal_sampling.py:78-84 | with the full range every configured bucket is a candidate |
| `EstimateAccuracy.AtMostTheCells` | src/application/analytics/temporal_bucketing.py:62-93 | a bucketing has no more buckets than the window meets cells |
| `EstimateAccuracy.FilledCells` | src/application/analytics/temporal_bucketing.py:62-93 | a span covering the window yields a bucket for every cell it meets |
| `EstimateAccuracy.EstimateIsClose` | src/application/analytics/temporal_sampling.py:142-147 | every bucketing has at most one bucket beyond the estimate, and none beyond it unless the window overruns the estimated cells, as it never does when it starts with a bucket |
| `EstimateAccuracy.FilledWindowExceedsExactly` | src/application/analytics/temporal_sampling.py:142-147 | for a device observed throughout, the estimate is exceeded if and only if the window overruns |
| `EstimateAccuracy.FleetEstimateIsClose` | src/application/analytics/temporal_sampling.py:142-147 | the points of all devices together exceed the estimate by at most one per device, and not at all unless the window overruns |
| `EstimateAccuracy.MinuteAcrossTwoBuckets` | src/application/analytics/temporal_sampling.py:142-147 | it occurs: one minute across a bucket boundary is estimated at one point and has two buckets |
| `DeviceAssignment.DeviceAssignmentService.AssignAsset` | src/service/device_assignment_service.py:25-75 | pointer, activity and history change together as the operation prescribes, or nothing changes and the error is that of the failing check |
| `DeviceAssignment.DeviceAssignmentService.ReleaseAsset` | src/service/device_assignment_service.py:77-102 | clears the pointer, switches the device off and closes its open row, or changes nothing |
| `DeviceAssignment.DeviceAssignmentService.CreateInitialAssignment` | src/service/device_assignment_service.py:104-149 | adds the device and its first open row together, or neither |
| `DeviceAssignment.ClosingTheOpenRow` | src/service/device_assignment_service.py:55-60 | closing the one open row of a device changes exactly that row |
| `AssignmentHistory.ApplyKeepsInv` | src/service/device_assignment_service.py:25-149 | every operation keeps pointer and history in agreement; a raise changes nothing, and the internal checks and table constraints never fire |
| `AssignmentHistory.PointerAgreesWithHistory` | src/service/device_assignment_service.py:25-149 | in every reachable state a device has an asset exactly when it has one open row, which names it, and no asset is on two devices |
| `AssignmentHistory.InvSatisfiesConstraints` | src/models/device_asset_assignment.py:17-33 | reachable states satisfy every unique index and check of the table |
| `AssignmentHistory.PointQueryReplaysThePast` | src/service/device_assignment_service.py:162-176 | the query for device d at instant t returns what replaying the operations stamped up to t leaves it carrying, and never meets two rows |
| `UnorderedClocks.QueryFailsExactly` | src/service/device_assignment_service.py:162-176 | the point query raises if and only if two rows of the device cover the instant |
| `UnorderedClocks.ReassignsExactly` | src/service/device_assignment_service.py:25-75 | in every consistent state, under any clock, moving a device to another asset succeeds if and only if device and asset have the same client, the asset is not deleted, active and free, and the stay to be ended did not begin later |
| `UnorderedClocks.RunKeepsConsistency` | src/service/device_assignment_service.py:25-149 | every run under any clock keeps pointers, open rows and table constraints in agreement |
| `UnorderedClocks.StepStaysClearExactly` | src/service/device_assignment_service.py:25-149 | at any clock reading an operation keeps the rows of a device unambiguous if and only if it is not a reassignment that will succeed before the end of one of its finished stays |
| `UnorderedClocks.QueriesAnswerExactly` | src/service/device_assignment_service.py:162-176 | over every run under any clock the point query always answers for a device if and only if no operation steps back for it |
| `UnorderedClocks.DisorderedClockBreaksTheIndex` | src/service/device_assignment_service.py:162-176 | the exception occurs: released at 10 and assigned at 5, the query for 7 raises |
| `AssignmentOutcomes.AssignExactly` | src/service/device_assignment_service.py:25-75 | in every consistent state, from the fields alone: which obstacle is raised with nothing changed, when a device is only switched on, and what changes when it is moved |
| `AssignmentOutcomes.ReleaseExactly` | src/service/device_assignment_service.py:77-102 | in every consistent state: nothing to release, a stay that began later, or the stay ended and the device off |
| `AssignmentOutcomes.CreateExactly` | src/service/device_assignment_service.py:104-149 | in every consistent state: the first obstacle in order, or the device added with its first stay |
| `AssignmentOutcomes.DeactivateExactly` | src/service/crud_device.py:322-332 | the device is switched off and nothing else changes |
| `AssignmentOutcomes.OneClientAtEveryCommit` | src/service/device_assignment_service.py:212-229 | at every step of every run, whenever an assignment or creation commits, device and asset have the same client |
| `AssignmentOutcomes.ForeignAssetIsRefused` | src/service/device_assignment_service.py:218-226 | an asset of another client is not found for the device |
| `AssignmentHistory.SelectedIffOverlapping` | src/service/device_assignment_service.py:178-201 | a non-empty stay is selected if and only if it shares an instant with the range |
| `AssignmentHistory.RangeQueryIsATimeline` | src/service/device_assignment_service.py:178-201 | over every run the range query returns every overlapping stay once, in time order without overlaps |
| `CommandSequence.AllocateNextCommandSeq` | src/service/device_command_sequence_service.py:21-40 | looking at stored and pending rows separately gives the successor of the largest number in use |
| `CommandSequence.StepKeepsInv` | src/service/device_command_sequence_service.py:21-76 | every step of every session keeps the numbering gapless and sessions apart |
| `CommandSequence.NumbersAreGapless` | src/service/device_command_sequence_service.py:21-76 | over every interleaving committed numbers are exactly 1..k, and so are those the lock holder would leave |
| `CommandSequence.AllocationFailsOnlyWhenFull` | src/service/device_command_sequence_service.py:28-40 | allocation fails if and only if all 65535 numbers are used, and otherwise returns an unused one |
| `CommandSequence.NoKeyIsShared` | src/service/device_command_service.py:49-82 | no device and number pair is ever used twice among committed and about to be committed rows |
| `CommandSequence.UncommittedKeysAreApart` | src/service/device_command_sequence_service.py:42-52 | two sessions never hold uncommitted numbers of one device |
| `CommandSequence.CommandIsCommitted` | src/service/device_command_service.py:49-82 | in every reachable state an idle session that gets the lock commits exactly one row with the next number, none if 65535 are used, and a failed transport or rollback adds nothing and loses no number |
| `CommandLifecycle.DeviceCommand.Expire` | command_dispatcher_worker/main.py:58-75 | the swept row is expired and stamped as the sweep prescribes |
| `CommandLifecycle.DeviceCommand.ApplyEnqueueResult` | command_dispatcher_worker/main.py:116-145 | a row becomes sent, failed or stays pending with the transport's message |
| `CommandLifecycle.DeviceCommand.ApplyTxAck` | src/integrations/chirpstack/service.py:488-520 | the transmission outcome is stamped once or fails a row that is not terminal |
| `CommandLifecycle.DeviceCommand.ApplyNetworkAck` | src/integrations/chirpstack/service.py:594-619 | the network outcome is stamped or fails a row that is not terminal |
| `CommandLifecycle.DeviceCommand.ApplyApplicationAck` | src/service/device_command_ack_service.py:60-100 | the row takes the status the acknowledgement stands for |
| `CommandLifecycle.RowStep` | src/integrations/chirpstack/service.py:429-630 | any action keeps a row consistent and moving forward, and only an application acknowledgement changes a terminal status |
| `CommandLifecycle.ReachableRowsOk` | src/integrations/chirpstack/service.py:488-520 | every reachable row: failed has a failure time, acked an acknowledgement time and no failure time, radio stamps have a queue item and a sending time |
| `CommandLifecycle.HistoryOfARow` | src/integrations/chirpstack/service.py:488-520 | pending is never re-entered, the first transmission stamp is never rewritten, the queue item never forgotten |
| `CommandLifecycle.LastAckDecides` | src/service/device_command_ack_service.py:60-100 | in any interleaving of the five writers the status is the image of the most recent application acknowledgement |
| `CommandLifecycle.OnlyAcksAcknowledge` | src/service/device_command_ack_service.py:60-100 | a row is acked only by an executed or duplicate acknowledgement that is its latest |
| `CommandLifecycle.AckStaysWithItsSenderExactly` | src/service/device_command_ack_service.py:26-58 | an acknowledgement reaches only rows of its sender if and only if it goes by number, or the row it names is the sender's or missing |
| `CommandLifecycle.AckedByAnotherDevice` | src/service/device_command_ack_service.py:26-37 | the exception occurs: a command of device 1 is acked by device 2 |
| `CommandEffects.SweepEffect` | command_dispatcher_worker/main.py:58-75 | exactly the selected rows that are pending or sent and whose time has come expire |
| `CommandEffects.DispatchEffect` | command_dispatcher_worker/main.py:116-145 | the row sent, kept pending or failed, with queue item, times and reason; a row not waiting is left alone |
| `CommandEffects.TxAckEffect` | src/integrations/chirpstack/service.py:488-520 | for the row a transmission event names: "" and "OK" stamp it once and clear the error, any other text fails it if pending or sent; nothing else changes |
| `CommandEffects.NetworkAckEffect` | src/integrations/chirpstack/service.py:594-619 | for the row a network acknowledgement names: stamped, failed if pending or sent, or unchanged without the flag; nothing else changes |
| `CommandEffects.UnresolvedEventIsIgnored` | src/integrations/chirpstack/service.py:673-701 | an event that names no row changes nothing |
| `CommandEffects.AckBySeqEffect` | src/service/device_command_ack_service.py:39-125 | the one row with this device and number gets the status, times and message of the acknowledgement, and no other row changes |
| `CommandEffects.AckByIdEffect` | src/service/device_command_ack_service.py:26-37 | the row named gets them, and no other row changes |
| `CommandEffects.TransmissionExamples` | src/integrations/chirpstack/service.py:493-514 | a sent command stays sent after OK and fails after TOO_LATE |
| `Dispatcher.CommandDispatcherWorker.ExpireOverdue` | command_dispatcher_worker/main.py:58-88 | only overdue rows expire, none older is left for a younger one, and exactly min(limit, overdue) of them, for every choice among equal creation times |
| `Dispatcher.CommandDispatcherWorker.DispatchPending` | command_dispatcher_worker/main.py:90-114 | every iteration makes a fresh oldest selection from the table as others have left it, at its own clock reading, and commits; a crash ends the pass and rolls that iteration back |
| `Dispatcher.CommandDispatcherWorker.ProcessOnce` | command_dispatcher_worker/main.py:54-114 | one pass is the sweep followed by the remaining iterations |
| `Dispatcher.PassIsBoundedAndFair` | command_dispatcher_worker/main.py:86-114 | whatever others commit in between, expired rows plus attempts never exceed the limit and every attempt was on an unexpired pending row no younger than any other at that moment |
| `Dispatcher.PassLeavesNothingOverdue` | command_dispatcher_worker/main.py:58-88 | with room left after the sweep, whatever others commit, no row there at the start is left unfinished and overdue by the sweep's clock |
| `Dispatcher.PassStopsForAReason` | command_dispatcher_worker/main.py:86-114 | a pass ends only with its limit used up, a crash, or no command left waiting |
| `Dispatcher.SameRowAgainExactly` | command_dispatcher_worker/main.py:90-129 | the next attempt is on the same row, none older having come up, if and only if it was refused retryably and is still pending and unexpired at the next selection |
| `Dispatcher.UndisturbedRetryExactly` | command_dispatcher_worker/main.py:90-129 | with nobody else acting and the clock not running backwards: if and only if it was refused retryably and is unexpired at the next reading |
| `Dispatcher.HeadOfLineBlocks` | command_dispatcher_worker/main.py:86-129 | a transport that refuses only the head retryably is offered nothing else in the whole pass while others leave the head alone; with nobody else acting the other rows stay untouched |
| `Dispatcher.OneUnreachableDeviceBlocksTheOther` | command_dispatcher_worker/main.py:86-129 | it occurs: a command for a reachable device is never offered behind one for an unreachable device |
| `EventDeduplication.StepKeepsInv` | src/integrations/chirpstack/service.py:68-151 | every step of every handler keeps the columns processed and error_message, the committed changes, the publications and the phases in agreement |
| `EventDeduplication.AtMostOneHandlerEnters` | src/integrations/chirpstack/service.py:68-110 | of all deliveries of one id at most one handler enters processing |
| `EventDeduplication.AtMostOneEffect` | src/integrations/chirpstack/service.py:68-151 | at most one set of effects is ever committed for an id |
| `EventDeduplication.PublishedAfterCommit` | src/integrations/chirpstack/service.py:110-151 | a location is published at most once and only after its commit |
| `EventDeduplication.FailureComesFromPublishing` | src/integrations/chirpstack/service.py:138-151 | a handler fails after its commit if and only if an action of the run was its publishing call and raised other than by Redis |
| `EventDeduplication.ReportComesFromCommit` | src/integrations/chirpstack/service.py:113-139 | a handler ends with a reported error beside committed changes if and only if an action of the run committed both together |
| `EventDeduplication.ErrorMeansNoEffectsExactly` | src/integrations/chirpstack/service.py:113-151 | a row with an error message stands beside committed changes if and only if the run contains its publishing call raising, or its handler committing changes with a reported error |
| `EventDeduplication.SilentRowsAreUnfinished` | src/integrations/chirpstack/service.py:83-151 | a row neither processed nor in error is exactly one whose handler has not finished |
| `EventDeduplication.PublishFailureMarksACommittedEvent` | src/integrations/chirpstack/service.py:138-151 | the first exception occurs: a stored location whose row ends unprocessed and in error |
| `EventDeduplication.ReportedFailureKeepsItsChanges` | src/integrations/chirpstack/service.py:496-514 | the second occurs: a transmission not sent commits its changes and an error on a processed row |
| `EventDeduplication.KnownIdNeverEnters` | src/integrations/chirpstack/service.py:72-110 | once an id is recorded, also after a failure, no handler of it that has not entered ever enters in any continuation, and its checks end in a skip |
| `EventHandling.PublishedExactly` | src/integrations/chirpstack/service.py:138-142 | a location is recorded as published if and only if the run contains its delivery after its commit |
| `EventHandling.FreshEventIsHandled` | src/integrations/chirpstack/service.py:83-139 | in any state a fresh event gets its own row, with the outcome and the changes of its work and nothing else |
| `EventHandling.StoredLocationIsPublished` | src/integrations/chirpstack/service.py:138-142 | a stored location is published |
| `EventHandling.FailedProcessingIsMarked` | src/integrations/chirpstack/service.py:143-151 | if processing raises the row is marked and no change is left |
| `RefreshSessions.UserService.EnforceActiveSessionLimit` | src/service/crud_user.py:133-159 | revokes exactly the sessions the eviction rule names, or refuses a limit below one |
| `RefreshSessions.UserService.CreateRefreshSession` | src/service/crud_user.py:110-131 | evicts and inserts together, or changes nothing |
| `RefreshSessions.UserService.RotateRefreshSession` | src/service/crud_user.py:161-230 | revokes, evicts, inserts and links together, falls back to reuse, or changes nothing |
| `RefreshSessions.UserService.RevokeRefreshSession` | src/service/crud_user.py:313-329 | revokes the live session of the token and no other |
| `RefreshSessions.UserService.DeactivateUser` | src/service/crud_user.py:429-449 | no session of the user is left unrevoked, earlier revocation times are kept, and no other session or user changes |
| `SessionFamilies.DeactivationIsFinal` | src/service/crud_user.py:429-460 | whatever follows a deactivation, reactivation included, no token of a session issued before it is ever rotated or reused |
| `SessionFamilies.EvictsJustEnough` | src/service/crud_user.py:133-159 | eviction touches only live sessions of the user and leaves min(live, limit - 1) of them |
| `SessionFamilies.EvictsTheOldest` | src/service/crud_user.py:133-159 | whoever is evicted is older by issue time and id than whoever stays |
| `SessionFamilies.FamiliesArePaths` | src/service/crud_user.py:110-230 | over every run successors are distinct, later, existing sessions of the same user, and replaced sessions are revoked |
| `SessionFamilies.AtMostOneLivePerFamily` | src/service/crud_user.py:161-230 | a family never loops and has at most one live session |
| `SessionFamilies.AtMostOneSuccessor` | src/service/crud_user.py:161-230 | over a whole run no session is replaced twice and none is minted twice |
| `SessionFamilies.RotationHandsOver` | src/service/crud_user.py:198-230 | after a rotation the old session is revoked and linked, and the new token finds the only new session, of the same user |
| `SessionFamilies.RetryAfterRotation` | src/service/crud_user.py:232-311 | presenting the old token again returns the session it was rotated into if and only if within grace, before its expiry and from a client whose agent and address do not contradict the stored ones |
| `SessionClients.ClientIsKept` | src/service/crud_user.py:110-131 | over every run a session keeps the address and the first 512 characters of the agent of the login or rotation that made it |
| `SessionClients.RetryIsDecidedByTheMaker` | src/service/crud_user.py:232-311 | a retry right after a rotation is refused if it names another address or agent than the maker of the old session, and is otherwise decided by the times |
| `SessionClients.StrangerIsRefused` | src/service/crud_user.py:263-311 | another agent at another address is refused within grace where the owner is not |
| `SessionClients.LoginExactly` | src/service/crud_user.py:110-131 | when a login succeeds, the row it adds, and that it ends no session of another user |
| `SessionClients.RotatesExactly` | src/service/crud_user.py:161-230 | a token is rotated if and only if a session holds it unrevoked and unexpired, its user is active, the limit is positive and the new token is new |
| `SessionClients.ReusesExactly` | src/service/crud_user.py:232-291 | in any state, told from the fields: when a token that is not current is answered with a given session |
| `SessionClients.LogoutExactly` | src/service/crud_user.py:313-329 | exactly the current session of the token is revoked |
| `SessionClients.CleanupExactly` | src/service/crud_user.py:331-356 | exactly the old revoked or expired sessions are deleted, and only links to them are cleared |
| `SessionFamilies.ReuseReturnsTheLiveSuccessor` | src/service/crud_user.py:232-291 | in every reachable state reuse changes nothing and returns a live later session of the same user |
| `SessionFamilies.CleanupSparesLiveSessions` | src/service/crud_user.py:331-356 | cleanup neither deletes nor changes a live session |
| `SessionFamilies.RunKeepsInv` | src/service/crud_user.py:110-356 | every run keeps links valid, tokens distinct and nothing dangling |
| `SessionFamilies.LimitIsNeverExceeded` | src/service/crud_user.py:133-159 | at no moment of any chronological run does a user have more live sessions than the limit |
| `GeofenceEvaluation.GeoFenceEvaluationService.CreateCommandsForGeofenceEvent` | src/service/device_command_service.py:84-121 | appends the commands the event asks for, skipping existing ones and failures |
| `GeofenceEvaluation.GeoFenceEvaluationService.EvaluateLocation` | src/service/geofence_evaluation_service.py:43-122 | states, events and commands after evaluating every fence in order, and what is reported for each |
| `GeofenceEvaluation.ExitsAreBalanced` | src/service/geofence_evaluation_service.py:304-325 | over every run an asset is outside exactly when its last event is an exit, and exits minus returns minus losses of GPS quality outside is 1 outside and 0 elsewhere |
| `GeofenceEvaluation.EventsFollowStatuses` | src/service/geofence_evaluation_service.py:43-122 | over every run state and events of a fence and asset are those of its own sequence of resolved statuses, whatever is evaluated in between |
| `GeofenceEvaluation.UnansweredExits` | src/service/geofence_evaluation_service.py:304-325 | for every sequence of statuses exits minus returns is the number of times poor GPS directly follows an outside status, plus one while outside |
| `GeofenceEvaluation.ExitsAreAnsweredExactly` | src/service/geofence_evaluation_service.py:304-325 | over every run exits equal returns if and only if the resolved statuses do not end outside and never go from outside to poor GPS |
| `GeofenceEvaluation.SilentReturn` | src/service/geofence_evaluation_service.py:304-325 | the exception occurs: outside, poor GPS, inside raises EXITED and GPS_UNCERTAIN and never RETURNED |
| `GeofenceEvaluation.RepeatedStatusIsSilent` | src/service/geofence_evaluation_service.py:250-258 | a repeated status changes nothing and raises nothing |
| `GeofenceEvaluation.SpecsEncode` | src/service/device_command_service.py:123-168 | every command an event asks for is accepted by the encoder |
| `GeofenceEvaluation.IntervalFollowsLastEvent` | src/service/device_command_service.py:84-168 | while the asset's devices can be commanded, the report interval a fence last commanded is the one its last event stands for, whatever happens to other fences and assets |
| `GeofenceEvaluation.OutsideReportsEveryFiveSeconds` | src/service/device_command_service.py:140-150 | outside its fence a commandable device was last told to report every five seconds |
| `FenceReports.StoredAndReportedExactly` | src/service/geofence_evaluation_service.py:63-122 | the level stored and reported for a fence is told by coverage, distance and accuracy, all four of them exactly |
| `FenceReports.UnmeasuredStatesStay` | src/service/geofence_evaluation_service.py:63-122 | the state of every other fence and asset stays |
| `FenceReports.RaisedExactly` | src/service/geofence_evaluation_service.py:250-325 | the event raised is the one of the change of level, for this fence, asset and device, or none |
| `FenceReports.OrdersAreGiven` | src/service/device_command_service.py:84-168 | for a device that can be commanded a new event adds exactly its orders, as the device decodes them, in order and each under its own number |
| `FenceReports.NobodyElseIsCommanded` | src/service/device_command_service.py:170-200 | a device that is not a ChirpStack device or lacks an identifier gets no command |
| `FenceReports.LevelsOfAFence` | src/service/geofence_evaluation_service.py:230-248 | at 500 m, 50 m and 10 m and with an accuracy of exactly 30 m: level, event and orders |
| `WireContract.DecodeAfterEncode` | src/integrations/chirpstack/downlink_encoder.py:36-124 | decoding an encoded command gives it back with its parameter normalised |
| `WireContract.EncodeAfterDecode` | src/integrations/chirpstack/downlink_encoder.py:62-213 | re-encoding accepted bytes reproduces them if and only if the parameter is not zero |
| `WireContract.ZeroIntervalIsOneWay` | src/integrations/chirpstack/downlink_encoder.py:126-188 | the exception occurs: a report interval of zero is decoded and cannot be encoded |
| `WireContract.DecodersAgree` | infra/chirpstack-simulator/payload.go:53-99 | the Go and the Python decoder accept the same bytes and read the same type, number and flags |
| `WireContract.AckRoundTrip` | src/integrations/chirpstack/payload_codec.py:140-193 | the backend reads back what the device wrote and refuses exactly number zero and unknown statuses |
| `WireContract.EncodeCommandAckPayload` | infra/chirpstack-simulator/payload.go:44-51 | fills a fresh slice with the five bytes of the acknowledgement |
| `WireContract.EncodeLocationPayload` | infra/chirpstack-simulator/payload.go:31-42 | fills a fresh slice with the fifteen bytes of the location |
| `WireContract.LocationSurvives` | src/integrations/chirpstack/payload_codec.py:52-104 | every position on Earth is accepted and arrives within half a unit of the seventh decimal |
| `WireContract.LocationReencodes` | src/integrations/chirpstack/payload_codec.py:52-104 | accepted bytes that claim a GPS fix are exactly what the encoder makes of their content |
| `WireContract.I32RoundTrip` | infra/chirpstack-simulator/payload.go:31-42 | packing and unpacking two's complement are inverse in both directions |
| `WireContract.BytesExactly` | src/integrations/chirpstack/downlink_encoder.py:36-213 | which commands can be sent and every byte that is sent |
| `WireContract.AckCodesExactly` | src/integrations/chirpstack/payload_codec.py:181-193 | the five acknowledgement codes, and no other |
| `WireContract.LocationExactly` | src/integrations/chirpstack/payload_codec.py:52-104 | which location payloads are accepted and what is read; without a fix the accuracy is 255 |
| `WireContract.BytesOfIntegers` | src/integrations/chirpstack/payload_codec.py:60-63 | integers are read most significant byte first in two's complement |
| `AckCorrelation.ReplyTellsAcceptance` | infra/chirpstack-simulator/device.go:296-328 | the backend accepts every reply of the device and reads executed exactly when its own decoder accepts the payload |
| `AckCorrelation.RowIsNamed` | src/service/device_command_ack_service.py:112-125 | over every joint run a device and number name exactly one row, whose number fits the contract |
| `AckCorrelation.AcksComeFromTheOwnerExactly` | src/service/device_command_ack_service.py:26-58 | over a whole joint run every acknowledgement that reached a row came from its own device if and only if none named the row directly from another device after its creation |
| `AckCorrelation.AckReachesItsCommand` | src/service/device_command_ack_service.py:39-58 | encode any command for any row, let the device answer, apply the answer: exactly that row becomes acked and no other changes |
| `AckCorrelation.ReplyNeverStrays` | src/service/device_command_ack_service.py:39-58 | a reply to arbitrary bytes touches at most the row whose number is in them, acked only if they are a command |
| `AckCorrelation.AckCodeDecidesStatus` | src/service/device_command_ack_service.py:60-100 | for every joint run and row: acknowledgement bytes with code 1 or 5 acknowledge it, 2 or 3 fail it, 4 expires it, and no other row changes |

## Left out

- FastAPI routers, schemas, migrations, settings, scripts, MQTT, Redis and gRPC clients and the websocket listener: input and output, or library behaviour.
- PostGIS: containment and distance of a point are inputs to the geofence evaluation.
- Floating-point rounding and datetime range overflow: durations are exact reals and integers.
- Timezone and type checks of the analytics inputs (temporal_bucketing.py:205, temporal_continuity.py:239): static types rule the rejected values out.
- The `finite` checks on configuration numbers: exact reals have no infinities.
- Rows hidden by foreign locks (`skip_locked`) and a crash between the remote enqueue and the commit: the dispatcher model has one worker that sees every row.
- Parsing of the event bodies of transmission and network acknowledgements, and what the library's trimming and upper-casing do to a text.
- The fallback that acknowledges by command UUID is one action of `CommandLifecycle`; the JSON path that reads the UUID is not modelled.
- The mapping of acknowledgement error codes to messages: messages are arbitrary parameters of the acknowledgement laws.
- Soft deletion of devices and `reactivate_device`, which uses a name it does not import (crud_device.py:348): outside the assignment runs.
- The `deleted` flag of sessions: no code modelled here sets it; users leave and come back as the set of active users.
- Geofence membership cleanup: the check reads rows from before the pending change, so the code keeps no invariant between states and memberships; the runs here keep every state row.
- The remaining columns of geofence state rows and events (distance, accuracy, location ids): copied, never read by the logic modelled.
- Coordinates that are infinite or not a number: exact reals have neither.
- The status uplink payload and its flag list: shallow next to the other codecs.
- Base64, SHA-256, JWT, bcrypt, LoRaWAN cryptography, provisioning, RBAC and the simulator's geometry: library code, or shallow next to the parts modelled.
