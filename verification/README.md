# What the store promises, proved

A Dafny model of the parts of the metering store whose mistakes would be silent: the
commit protocol of the cold tier and the tiering watermark it publishes, the registry of
pseudonymous subjects and their erasure, and the conversions and gates both rest on.

Concurrency is modelled as a state machine whose steps are the awaits and statements of
the program, and every promise is proved over every interleaving of those steps. What the
program does step by step, in loops or in place, is a method or a class proved against a
specification function; what the specification promises is proved beside it as lemmas.

| file | what it models |
|---|---|
| `Watermark.dfy` | instants, the archival grid, the next window, catching up |
| `SnapshotChain.dfy` | a summary property found by a bounded walk up the parents, possibly in a cycle |
| `Expiry.dfy` | snapshot expiry, and restating the boundary first |
| `ColdProtocol.dfy`, `ColdSafety.dfy` | the cold tier as a protocol of archivers, corrections, expiry and foreign commits, and what all its runs keep |
| `ColdStore.dfy` | the commit loop and its clean-up as they run, each pass a run of the protocol among the others |
| `Tiering.dfy` | hot and cold tier together: every accepted row is read once |
| `Registry.dfy`, `RegistrySafety.dfy`, `RegistryTheorems.dfy` | the registry as statements of concurrent transactions, and what all its runs keep |
| `RegistryProgress.dfy`, `RegistryDeadlock.dfy` | who waits for whom in the registry, row by row, and when a retention sweep deadlocks |
| `SubjectStore.dfy` | registration, erasure, the batched sweep and the lift as they run one after another |
| `SubjectReference.dfy`, `VersionScope.dfy`, `Durations.dfy` | identifiers and settings that are printed and read back |
| `Retention.dfy` | when a sweep may destroy a linkage (section 60 (6) MsbG) |
| `Evolution.dfy` | the schema gate against the meaning of rows, and aligning a batch by name |
| `FixedPoint.dfy` | decimals into the fixed-point value column |
| `Encoding.dfy`, `RecordBatch.dfy`, `EncodingTheorems.dfy` | deliveries into rows and rows into runs, for intervals and for register readings |
| `Arithmetic.dfy`, `Text.dfy`, `Results.dfy` | shared division, text and result facts |

Instants are nanoseconds since the epoch. An instant that leaves the representable range,
where the program panics, is the error `OutOfRange`.

## What the proofs found

* An earlier summary reused on retry takes the boundary back exactly when the boundary
  moved meanwhile (`FixedSummaryRetryRegresses`), and an ordinary run gets there
  (`OvertakingIsReachable`). The program re-derives the summary for this reason.
* A step with a fraction of a second archives one window and then refuses its own
  boundary (`SecondWindowNeedsWholeStep`; a step of 1.5 s in `FractionalStepStopsAfterOne`).
  The configuration asks for whole seconds.
* A registry that lacks a key another registry erased with re-links an erased identifier
  (`RollingRotationRelinks`); linking is safe exactly when no key outside the ring tagged
  the identifier (`LinkingIsSafeIffRingSawEveryTag`). `src/erasure.rs:517-530` calls putting
  a key in front the whole of rotation; where several instances run, the new key has to
  reach every one of them before any writes with it.
* A retention sweep and an erasure can deadlock. An erasure locks a person's rows oldest
  first, a sweep locks its batch in whatever order it is executed and takes no advisory
  lock (`src/erasure.rs:1588-1609`): if it has the row of 2021 and wants that of 2020, and
  the erasure has 2020 and wants 2021, neither goes on until the database aborts one
  (`SweepMeetsErasure`). With one sweep at a time this is possible exactly when the batch
  does not take every person's oldest row first (`SweepDeadlocksIff`); without sweeps it is
  impossible, as `src/erasure.rs:2226-2230` argues (`RegistrationsAndErasuresNeverDeadlock`).
  Two sweeps can also block each other (`CrossingSweepsDeadlock`). Taking the rows by epoch
  and token rules all of it out, for any number of sweeps (`OrderedSweepsNeverDeadlock`).
* The record an erasure returns carries the reason and instant of this call, while the
  audit row keeps the first ones: the two agree exactly when the reference was not audited
  before, or was for an equal reason and instant (`RecordTellsTheRowIff`); a plain repeat
  is reported anew (`RepeatIsReportedAnew`).
* Were the comparison of the next boundary with the current one not strict, the second of
  two archivers would land the last window again, and in no other case more than now
  (`EqualityLandsWindowTwice`); an ordinary run gets there (`SecondArchiverIsReachable`).
* `s-0_<token>` is accepted as a reference of year zero although the mapping table refuses
  it; it is the only such spelling (`TableAgreesExceptMinusZero`).
* A duration that is not a whole number of milliseconds, or has a fraction of a second and
  more milliseconds than 64 bits hold, does not read back (`FormatReadsBackIff`). No
  accepted text produces one.
* Two safe schema changes make a safe one exactly when no required column was lost on the
  way and every column that was dropped and came back is a promotion of what it was
  (`SafeStepsComposeIff`). Either condition fails by itself (`WidenedThenDroppedIsUnsafe`,
  `DroppedThenReturnedIsUnsafe`).
* What was read back is written again as the identical batch exactly when dropping the
  fraction of a microsecond keeps both ends of every interval apart and keeps its start in
  its month and on its day (`ReadIsWrittenAgainIff`). An interval whose two ends fall into
  one microsecond is written, and read back as one the encoder refuses.

One model with a flag for the kind of table stands for intervals and register readings.
The encoders differ in the end column and its check; the decoders also in that readings
check the unit before the identifier of the Messlokation, so for a row that is wrong in
both only the kind of refusal differs, and the model names the one of intervals.

## Model

| member | source | states |
|---|---|---|
| Watermark.AlignIsGridFloor | src/watermark.rs:243-252 | aligning is rounding down to a multiple of the step, also before the epoch, and fails only below the representable range |
| Watermark.AlignedIffOnGrid | src/watermark.rs:264-290 | a boundary passes the alignment check if and only if it is a multiple of the step |
| Watermark.ShortStepsAlignToSeconds | src/watermark.rs:243-252 | below two seconds, also for steps of zero or less, aligning is rounding down to the second |
| Watermark.NextWindowIsNextTile | src/watermark.rs:264-306 | the whole answer: out of range, misaligned, the one tile after the boundary, or nothing while the horizon is within a step |
| Watermark.NextWindowRefuses | src/watermark.rs:264-290 | a step that is not positive and a lag that is negative are refused, in this order and for nothing else; no window is ever empty |
| Watermark.SecondWindowNeedsWholeStep | src/watermark.rs:243-306 | from an accepted boundary the next boundary is accepted again if and only if the step is whole seconds |
| Watermark.FractionalStepStopsAfterOne | src/watermark.rs:264-306 | with a step of a second and a half the first window is handed out and the boundary after it is refused as misaligned |
| Watermark.CatchUpReachesHorizon | src/watermark.rs:264-306 | repeating the question ends, archives (end - start) / step contiguous tiles, never passes now - lag, and stops at exactly the aligned horizon |
| Watermark.AdvanceNeverGoesBack | src/watermark.rs:132-160 | a boundary may be published again where it stands, moves forwards, and is refused backwards |
| Watermark.WindowsAreNotEmpty | src/watermark.rs:182-200 | a window is made exactly when it contains an instant |
| SnapshotChain.ReadSummaryProperty | src/cold/iceberg.rs:1670-1683 | the loop answers what the bounded walk specifies |
| SnapshotChain.FindsWithinCount | src/cold/iceberg.rs:1670-1683 | pigeonhole: whoever finds a property by following parents does so in fewer steps than there are snapshots |
| SnapshotChain.BoundedWalkIsComplete | src/cold/iceberg.rs:1670-1683 | on any history, cyclic ones included, the bounded walk answers a value if and only if the unbounded one would |
| SnapshotChain.TableSaysWhatIsMet | src/cold/iceberg.rs:1670-1717 | on any history the boundary is what following parents meets first, the epoch where nothing was committed, and else a refusal; the step is what is met first, refused when not positive, or none |
| SnapshotChain.ExpiryNeverExposesOlderValue | src/cold/iceberg.rs:1670-1717 | removing any snapshots but the current one leaves the same value readable or none, never an older one |
| SnapshotChain.ExpiryOffPathKeepsValue | src/cold/iceberg.rs:269-284 | keeping the snapshots walked over keeps the value |
| SnapshotChain.CommitKeepsUnstatedProperty | src/cold/iceberg.rs:1670-1717 | a commit that does not state a property leaves what is read of it unchanged |
| Expiry.SortByAge | src/cold/iceberg.rs:249-250 | the snapshots once each, oldest first |
| Expiry.ProtectTrail | src/cold/iceberg.rs:269-284 | the walk protects exactly the snapshots from the current one to the nearest stated boundary |
| Expiry.ProtectNewest | src/cold/iceberg.rs:286-292 | the last max(retain_last, 1) of the age order join what is protected |
| Expiry.ChooseDoomed | src/cold/iceberg.rs:249-299 | chosen exactly when older than the cutoff, not among the newest and not on the way to the boundary, each once |
| Expiry.ExpiresAsAsked | src/cold/iceberg.rs:226-342 | the same for every snapshot and every history whose current snapshot states the boundary, in nanoseconds and without the expiry's own definitions |
| Expiry.ExpiryKeepsBoundary | src/cold/iceberg.rs:226-342 | expiry keeps the current snapshot, the newest, everything at or after the cutoff and the boundary; the step reads as before or not at all |
| Expiry.ExpiryIsIdempotent | src/cold/iceberg.rs:226-342 | the same expiry a second time removes nothing |
| Expiry.RestampKeepsProperties | src/cold/iceberg.rs:365-393 | restating puts one snapshot on top that moves neither boundary nor step nor files and changes no other, and is not needed a second time |
| Expiry.ColdTable.ReassertBoundary | src/cold/iceberg.rs:365-393 | acts exactly when the current snapshot states no boundary, fails exactly when no boundary is readable, and changes nothing else |
| Expiry.ColdTable.ExpireSnapshots | src/cold/iceberg.rs:226-342 | restates first; then nothing goes that is younger than `retain_for`, current, or with fewer than max(retain_last, 1) others as late, and whatever is older by a second and is none of these goes; counts what went, and keeps the boundary |
| ColdSafety.StepKeepsInv | src/cold/iceberg.rs:786-1017 | every step of every writer, of expiry and of foreign compaction keeps the protocol's invariant |
| ColdSafety.RunKeepsInv | src/cold/iceberg.rs:786-896 | over every run the boundary never decreases, what landed stays landed, and it stays readable: a scan of the files of the current snapshot gives exactly the rows that ever landed, and never fewer than before |
| ColdSafety.NobodyWaits | src/cold/iceberg.rs:786-1017 | in every state of the protocol whoever has begun, and has not come to its clean-up, has a step that is not giving up |
| ColdSafety.ArchivedWindowsTile | src/cold/iceberg.rs:1062-1114 | in every interleaving the windows that landed tile [epoch, boundary): no overlap, no gap, none twice |
| ColdSafety.RunsLandOnce | src/cold/iceberg.rs:786-896 | no writer lands twice and no data file is appended by two landings, whatever retries and ambiguous answers came before |
| ColdSafety.ReferencedFilesSurvive | src/cold/iceberg.rs:846-1017 | a file that any committed snapshot references is never deleted by a failing writer |
| ColdSafety.CorrectionRepublishesBoundary | src/cold/iceberg.rs:1064-1067 | a correction publishes exactly the boundary of the base it really lands on |
| ColdSafety.CorrectionKeepsStep | src/cold/iceberg.rs:801-811 | a correction leaves the archival step as it reads |
| ColdSafety.AdvanceStatesItsStep | src/cold/iceberg.rs:801-811 | an archiver that lands leaves the end of its window as the boundary and the deployment's step as the step |
| ColdSafety.ArchiverLandsIffWindowIsNext | src/cold/iceberg.rs:1068-1101 | an archiver goes through if and only if its window starts at the boundary, and is told so otherwise |
| ColdSafety.FixedSummaryRetryRegresses | src/cold/iceberg.rs:760-785 | a retry with the first summary moves the boundary backwards if and only if it moved meanwhile |
| ColdSafety.FixedSummaryRetryLosesWindow | src/cold/iceberg.rs:760-785 | whenever a window lands in between, such a retry takes back exactly that window |
| ColdSafety.OvertakingIsReachable | src/cold/iceberg.rs:760-785 | an ordinary run from the empty table reaches that situation |
| ColdSafety.EqualityLandsWindowTwice | src/cold/iceberg.rs:1076-1101 | with a comparison that permits equality, an archiver is let through in exactly one more case, that its window was the last to land, and a scan of the table then gives its rows a second time |
| ColdSafety.SecondArchiverIsReachable | src/cold/iceberg.rs:1076-1101 | an ordinary run of two archivers from the empty table reaches that case, with rows to duplicate |
| ColdStore.ColdStore.AppendWithSummary | src/cold/iceberg.rs:786-896 | the commit loop is a run of the protocol among others, and each answer means one thing: `WriteFailed` exactly when writing the files did, else what the last of at most four passes met, every earlier one having lost its race and reloaded; success names a landing with its boundary, every clear failure says nothing landed, and an unclear one deletes nothing |
| ColdStore.ColdStore.CommitLoop | src/cold/iceberg.rs:795-890 | the passes in order, each standing on a load later than the commit before it, and the answer of the last |
| ColdStore.WonRaceIsTheAnswer | src/cold/iceberg.rs:795-845 | a pass whose base accepts the summary and whose commit gets in ends the loop with the boundary it published |
| ColdStore.OnlyFourOvertakingsStopIt | src/cold/iceberg.rs:795-896 | with a catalogue and reloads that answer and summaries that are accepted, an append fails if and only if somebody else commits between load and commit four times over |
| ColdStore.OnlyTheseLeaveItOpen | src/cold/iceberg.rs:915-927 | besides the conflict, two kinds of failure leave it open whether the commit landed |
| ColdStore.ColdStore.AttemptOnce | src/cold/iceberg.rs:795-890 | one pass: the refusal of the base, the commit that got in, the catalogue's failure, the failed reload, or another pass on what is current then, each under its own conditions on the base, the fault and the table the commit met |
| ColdStore.ColdStore.Commit | src/cold/iceberg.rs:800-860 | a commit succeeds only on the current base and conflicts otherwise |
| ColdStore.ColdStore.Discard | src/cold/iceberg.rs:953-1017 | removes exactly the unreferenced files that can be deleted, nothing when the commit may have landed or the re-read failed |
| ColdStore.OthersLeaveAlone | src/cold/iceberg.rs:786-896 | what other writers do between two awaits never touches this writer's state or brings deleted files back |
| Tiering.VisibleExactlyOnce | src/watermark.rs:115-120 | an accepted row is once among the files of the current cold snapshot if it lies below the boundary, and once in hot otherwise |
| Tiering.EveryAcceptedRowIsReadOnce | src/cold/iceberg.rs:1543-1641 | in every reachable state of routed writes, commits, corrections, expiry, foreign rewriting and partition drops, also between commit and drop, a read of the current snapshot below the boundary and of hot from it on gives each accepted row exactly once and no other row |
| Tiering.DropTakesItsPartition | src/cold/iceberg.rs:1543-1641 | dropping a partition takes exactly its rows out of hot and none out of what is read |
| Tiering.WrittenIsVisible | src/watermark.rs:115-120 | a new row at or after the boundary, outside every window being archived, can be written and is read once from then on |
| RegistrySafety.UpsertKeeps | src/erasure.rs:1436-1459 | an audit upsert keeps every row's subject, reasons and tag, and fills an absent tombstone of that subject only |
| RegistrySafety.InsertKeepsInv | src/erasure.rs:966-991 | under the lock the insert never meets its conflict clause, and adds one linkage to a fresh reference |
| RegistrySafety.MoveTakesLocks | src/erasure.rs:1349-1405 | no statement takes an advisory or row lock that somebody holds, and rows are taken one at a time |
| RegistrySafety.StepKeepsInv | src/erasure.rs:929-1520 | every statement of every transaction keeps the registry's invariant |
| RegistrySafety.RunKeepsInv | src/erasure.rs:929-1747 | so does every interleaving |
| RegistryTheorems.ErasureDestroysEveryEpoch | src/erasure.rs:1380-1430 | when an erasure commits, no epoch of the identifier is linked, whichever way the request named it |
| RegistryTheorems.ErasedIdentifiersStayUnlinked | src/erasure.rs:929-991 | in every interleaving of register, erase, sweep and lift, an identifier recognised as erased has a live mapping in no epoch, provided each check knew every key it is tagged under |
| RegistryTheorems.ErasureHoldsUnderSharedKeys | src/erasure.rs:655-680 | from an empty registry: for any keys that every registering ring holds, an identifier suppressed under them is linked in no epoch |
| RegistryTheorems.FreshKeyJoins | src/erasure.rs:517-530 | a key that never wrote a tag may join the kept ones in any state |
| RegistryTheorems.RotationKeepsErased | src/erasure.rs:517-530 | an additive rotation as one run: when the new key is first written with only after every registering ring, those in flight included, holds it, no identifier suppressed under the old keys or the new is linked in any epoch |
| RegistryTheorems.LinkingIsSafeIffRingSawEveryTag | src/erasure.rs:953-991 | letting an identifier through and linking it keeps the promise if and only if no key outside the ring tagged it |
| RegistryTheorems.RollingRotationRelinks | src/erasure.rs:517-530 | a run in which an instance with the old ring links an identifier that the others recognise as erased |
| RegistryTheorems.ErasureSuppressesIff | src/erasure.rs:1349-1500 | after an erasure that knew the identifier it is suppressed if and only if something was linked, it was asked by identifier and on no list, it is on the list already, or it was asked by a reference whose linkage went meanwhile and whose row had no tombstone |
| RegistryTheorems.RepeatedRequestAddsNothing | src/erasure.rs:1470-1500 | a repeated pre-emptive request adds no row, even after keys were added in front |
| RegistryTheorems.EveryReferenceIsAccountedFor | src/erasure.rs:1414-1459 | over every run each reference ever issued is live or audited and never both; rows keep subject, reasons and first instant, and tag and key name stay together |
| RegistryTheorems.OrphansEmptyIffAllRecognised | src/erasure.rs:594-615 | the report is empty if and only if the ring recognises every live tombstone |
| RegistryTheorems.OrphansAreCounted | src/erasure.rs:594-615 | the report names exactly the keys outside the ring with live tombstones, each with their number, and the numbers add up to the tombstones the ring does not recognise |
| RegistryTheorems.EmptyReportChecksFully | src/erasure.rs:570-615 | when the report of lost keys is empty for a ring, the check of that ring misses no tombstone, as the safety of registration asks |
| RegistryProgress.NobodyDeadlocks | src/erasure.rs:2214-2246 | in every reachable state of registrations, erasures, lifts and sweeps, one sweep at a time and each taking every person's oldest row first: if some transaction is unfinished, one can take a step other than giving up |
| RegistryProgress.RegistrationsAndErasuresNeverDeadlock | src/erasure.rs:1345-1352 | the same for every run without sweeps, as the order of advisory lock before rows is meant to ensure |
| RegistryProgress.OrderedSweepsNeverDeadlock | src/erasure.rs:1583-1609 | no run deadlocks, with any number of sweeps at a time, if each takes its rows by epoch and token |
| RegistryDeadlock.SweepDeadlocksIff | src/erasure.rs:1583-1609 | for every state with no other sweep under way: some continuation without a further sweep ends with nobody able to go on if and only if the batch does not take every person's oldest row first |
| RegistryDeadlock.SweepMeetsErasure | src/erasure.rs:1383-1402 | from the empty registry, a run in which the erasure of a person with two due epochs and a sweep block each other |
| RegistryDeadlock.CrossingSweepsDeadlock | src/erasure.rs:1583-1609 | two sweeps over two persons' rows in opposite orders block each other, although each takes every person's oldest row first |
| SubjectStore.SubjectStore.RegisterInEpoch | src/erasure.rs:929-991 | the existing reference, a refusal exactly for an erased or blank identifier, or one fresh linkage |
| SubjectStore.SubjectStore.SelectByEpoch | src/erasure.rs:1383-1402 | every reference of the identifier, oldest epoch first |
| SubjectStore.SubjectStore.EraseLinkage | src/erasure.rs:1324-1520 | all epochs of the person go and are audited with the tombstone, the identifier ends suppressed, each destroyed linkage is reported once, oldest epoch first, a request that destroys nothing is reported as asked, new audit rows say why and under which key, and blank requests are refused by what is blank and change nothing |
| SubjectStore.SubjectStore.ExpireEpochsBefore | src/erasure.rs:1566-1668 | the batched sweep ends and equals one delete: exactly the epochs below the boundary go, each audited by one row that says so; subjects is their count, epochs their years ascending, batches the count over ten thousand rounded up; suppression answers are unchanged |
| SubjectStore.SubjectStore.SweepBatch | src/erasure.rs:1588-1655 | one transaction deletes and audits at most a batch, and another follows exactly after a full one |
| SubjectStore.SubjectStore.LiftSuppression | src/erasure.rs:1705-1747 | clears exactly the tombstones a key of the ring wrote for the identifier, marks those rows, and changes no other |
| SubjectStore.ErasureIsAsAsked | src/erasure.rs:1324-1520 | what a caller can check of an erasure, from the specification of its statements |
| SubjectStore.RecordTellsTheRowIff | src/erasure.rs:1427-1469 | the record an erasure returns for a reference agrees with its audit row on reason and instant if and only if the reference was not audited before or its row said the same |
| SubjectStore.RepeatIsReportedAnew | src/erasure.rs:1427-1469 | a repeated request for one reference leaves the row of the first and returns a record of its own |
| SubjectStore.ExpiredRowsTagNobody | src/erasure.rs:1618-1640 | expiry rows change no suppression answer under any ring |
| SubjectReference.AcceptedIffSpelled | src/erasure.rs:181-247 | a reference is accepted with a year and a token if and only if it is `s`, the printed year, `_` and a good token, or spells year zero `-0` |
| SubjectReference.TokensAreGoodIff | src/erasure.rs:225-245 | a token has 22 to 128 characters of `A-Z a-z 0-9 . _ -` and is no market identifier |
| SubjectReference.RefusalSaysWhy | src/erasure.rs:136-247 | each refusal names what is wrong with the text |
| SubjectReference.OtherYearsAreRefused | src/erasure.rs:207-222 | a year that is not printed as a 32-bit number is refused for it, but for `-0` |
| SubjectReference.TableAgreesExceptMinusZero | src/erasure.rs:200-222 | among the references that are accepted, the mapping table refuses exactly those that begin with `s-0_` |
| SubjectReference.MinusZeroIsAccepted | src/erasure.rs:207-222 | the spelling `-0` is accepted as year zero and refused by the table |
| SubjectReference.MintedIsAccepted | src/erasure.rs:157-164 | every minted reference is accepted, by the table too, with its own epoch |
| SubjectReference.MintTellsApart | src/erasure.rs:157-164 | two mints are one text only for one epoch and the same random octets |
| Retention.CalendarYearsSweepIff | src/erasure.rs:2095-2125 | an epoch is due if and only if epoch + years lies before the current local year, for every u32 |
| Retention.CalendarYearsNeverEarly | src/erasure.rs:2095-2125 | every instant of a swept year is older than the period |
| Retention.UnrepresentablePeriodsKeepEverything | src/erasure.rs:2095-2125 | a period no calendar holds gives both kinds the start of the year -9998, and nothing is due |
| Retention.RollingSweepsIffYearEnded | src/erasure.rs:2117-2123 | a rolling window takes an epoch if and only if its year had ended when the window began |
| Retention.RollingNeverEarly | src/erasure.rs:2117-2184 | every instant of a swept epoch is older than the window, for gas but for six hours |
| Retention.GasGoesAtMostSixHoursEarly | src/erasure.rs:2127-2184 | under a calendar period a gas value may go with the year it is balanced in, at most six hours into the next |
| Retention.DueStaysDue | src/erasure.rs:2095-2184 | a linkage that is due under a calendar period stays due |
| Retention.RollingDueStaysDueIff | src/erasure.rs:2117-2184 | one that is due under a rolling window stays due if and only if the start of the later window is an instant, as it always is for a window that is not negative |
| VersionScope.ParseAcceptsExactlyMade | src/version.rs:361-403 | parsing accepts exactly the texts that making produces, unchanged |
| VersionScope.MadeIff | src/version.rs:233-256 | a scope is made if and only if the operator has thirteen digits, the month is one and the year has four digits, and what is wrong is named in this order |
| VersionScope.MadeIsParsed | src/version.rs:233-315 | a made scope parses and gives back its operator and its period |
| VersionScope.ParsedIsMade | src/version.rs:361-403 | a parsed scope is what making produces from its parts |
| VersionScope.ScopesAgreeIff | src/version.rs:233-256 | two scopes are one text if and only if operator, year and month agree |
| VersionScope.CoversIffSameMonth | src/version.rs:338-345 | a scope covers an interval if and only if the interval is balanced in its month |
| VersionScope.DerivedScopeCovers | src/version.rs:285-345 | the scope derived for an interval covers it, and any other exactly if balanced in the same month |
| Durations.FormatReadsBackIff | src/settings.rs:1282-1345 | a duration reads back as printed if and only if it is whole milliseconds and whole seconds or within 64 bits of milliseconds |
| Durations.SecondsAreRead | src/settings.rs:1282-1317 | `n` seconds are read as n thousand million nanoseconds, for every n of 64 bits and no other |
| Durations.UnitsMeasureEachOther | src/settings.rs:1297-1310 | a second is read as 1000 ms, a minute as 60 s, an hour as 60 m, a day as 24 h, a week as 7 d, a year as 365 d |
| Durations.OtherUnitsAreRefused | src/settings.rs:1297-1317 | any other word is an unknown unit, and a number too large for its unit overflows |
| Durations.BlanksDoNotMatter | src/settings.rs:1283-1296 | blanks around the number and the unit change nothing |
| Durations.NoUnitIffNoLetter | src/settings.rs:1283-1287 | a text is refused for want of a unit if and only if it has no letter |
| Durations.AcceptedTextsRoundTrip | src/settings.rs:1282-1345 | for every accepted text, printing and parsing again gives the same duration |
| Durations.LargestExactUnit | src/settings.rs:1332-1344 | no unit larger than the printed one divides the seconds |
| Durations.ZeroIsPrintedIffBelowAMillisecond | src/settings.rs:1321-1345 | `0s` is printed if and only if the duration is shorter than a millisecond |
| Evolution.Compare | src/evolution.rs:217-270 | the two loops list exactly the differences; none if and only if the schemas agree by name, all safe if and only if the gate holds |
| Evolution.SafeMeansRowsSurvive | src/evolution.rs:217-295 | a safe comparison: stored rows read as declared rows, missing columns null, promoted values equal, no required column left out |
| Evolution.GateIsExact | src/evolution.rs:217-295 | the gate lets a change through if and only if every possible stored row survives it and every required column is written |
| Evolution.OnlyPromotionKeepsEveryCell | src/evolution.rs:278-300 | every type change that is not a promotion spoils some value the old type could hold |
| Evolution.OnlyNamesOfUtcAreInterchangeable | src/evolution.rs:278-300 | a timestamp's zone may change between the seven names of UTC and in no other way |
| Evolution.SafeStepsComposeIff | src/evolution.rs:217-300 | two safe steps compose if and only if the last schema declares every required column of the first, and every column absent in between is promotable from what it was |
| Evolution.WidenedThenDroppedIsUnsafe | src/evolution.rs:217-270 | two safe steps whose composition is unsafe, because a required column is made nullable and then dropped |
| Evolution.DroppedThenReturnedIsUnsafe | src/evolution.rs:217-300 | two safe steps whose composition is unsafe though nothing is required: a nullable column is dropped and comes back as another type |
| Evolution.IdenticalSchemasAlign | src/cold/iceberg.rs:1316-1365 | when the comparison finds nothing, aligning succeeds for any column order and puts every column under its own name |
| Evolution.AlignSucceedsIff | src/cold/iceberg.rs:1316-1365 | aligning succeeds if and only if there are as many columns, each column of the table has one of its name that can be cast to its type, and no cast puts a null where the table forbids one |
| Evolution.AlignRefusesBecause | src/cold/iceberg.rs:1316-1375 | each refusal names a column that is missing or cannot be cast, or a count or a null that is wrong |
| Evolution.AlignKeepsNames | src/cold/iceberg.rs:1316-1365 | whenever aligning succeeds each column is written under its own name and none is left behind |
| FixedPoint.ToScaledIsExact | src/encode/mod.rs:365-391 | success with k if and only if the decimal is k millionths and has fewer than nineteen digits, through normalisation and a rescale that may stop short |
| FixedPoint.StoresMillionths | src/encode/mod.rs:365-391 | in plain numbers: success with k if and only if the decimal is k millionths and k has fewer than nineteen digits |
| FixedPoint.RefusalTellsWhy | src/encode/mod.rs:365-391 | a multiple that is refused is refused as too large, with the exact limit |
| FixedPoint.TooManyPlacesIff | src/encode/mod.rs:365-391 | a decimal is refused for its places if and only if it is no whole number of millionths |
| FixedPoint.ScaledRoundTrip | src/encode/mod.rs:365-401 | writing and reading are inverse both ways |
| FixedPoint.SpellingDoesNotMatter | src/encode/mod.rs:365-391 | equal numbers are stored as one value, however they were spelled |
| Encoding.InstantRoundTripIff | src/encode/schema.rs:167-185 | an instant comes back unchanged if and only if it is whole microseconds |
| RecordBatch.RowColumns.Push | src/encode/mod.rs:532-616 | each value goes to its own column: the rows are the old rows and one of exactly these values |
| RecordBatch.ToRecordBatch | src/encode/mod.rs:787-916 | the encoding loops of both tables answer the specified rows, every column of them as delivered, or the first refusal |
| RecordBatch.FromRecordBatch | src/encode/mod.rs:1044-1310 | the decoding loops of both tables answer the specified series or the first refusal |
| EncodingTheorems.WrittenIsRead | src/encode/mod.rs:1013-1310 | reading a written batch of intervals or readings succeeds and returns every value once, in order, each with its own delivery's source, audit trail, version and channel, in maximal runs |
| EncodingTheorems.ReadableRowsAreRead | src/encode/mod.rs:1021-1186 | any batch whose rows are readable is read row by row, each value with its own row's delivery |
| EncodingTheorems.HeadIsReadIff | src/encode/mod.rs:1085-1186 | the head of a run is read if and only if its source, codes, unit, version and instant are readable, each as its column says; identifiers need no canonical spelling |
| EncodingTheorems.HeadIsRefusedFor | src/encode/mod.rs:1085-1186 | each refusal names what is wrong with the head |
| EncodingTheorems.ValueIsReadIff | src/encode/mod.rs:1160-1186 | when the value of a row is read, as what, and what each refusal means |
| EncodingTheorems.SourceReadsBack | src/encode/mod.rs:421-497 | a stored source and its discriminant read back as the source |
| EncodingTheorems.BatchIsWrittenIff | src/encode/mod.rs:787-916 | a batch is written if and only if every delivery has a unit its commodity admits and a tagged source, and, where it has values, its declared columns, and each value its scope, its ends in order, a channel and a storable number |
| EncodingTheorems.EveryColumnIsStored | src/encode/mod.rs:787-916 | one row for each value, in order, and every column of it, the balancing day included, holds what its delivery and its value say |
| EncodingTheorems.BatchIsRefusedFor | src/encode/mod.rs:787-916 | a batch is refused for a reason if and only if the first delivery that cannot be stored is wrong in that way |
| EncodingTheorems.OtherTableIsRefused | src/encode/mod.rs:1160-1173 | a batch whose first row belongs to the other kind of table is refused for it, unless its head already is |
| EncodingTheorems.ReadIsWrittenAgainIff | src/encode/mod.rs:787-1310 | for every batch that is written, writing what was read gives the identical batch if and only if every value survives truncation to the microsecond: its ends stay apart, and its start stays in its scope and on its balancing day |
| EncodingTheorems.WholeMicrosecondsSurvive | src/encode/schema.rs:167-185 | values whose ends are whole microseconds always survive it |

## Left out

- Widened archival windows, changing the step of a live table and moving the current snapshot back by hand: tiling does not hold there.
- Foreign commits are assumed to stand on a non-empty table and to keep the rows of the live files, however they rewrite them; nothing else is assumed of other tools. Data-file names and snapshot ids are assumed not to repeat.
- A row is assumed not to enter a hot window between its being read for archival and its commit; leases and partition maintenance are not part of this model.
- Routing a hot row by the boundary and writing it (`HotWrite`) are one step, so a boundary that moves over the row between the two is left out.
- ColdStore.ColdStore.AppendWithSummary: a refused summary and a failed reload return without cleaning up, as in the program, so only the safety of clean-up is claimed for them.
- Expiry.ProtectTrail: requires that the way up from the current snapshot ends, because on a cyclic history that states no boundary the program's walk would not; the other operations make sure of it first.
- ColdStore.ColdStore.Interfere: its body does nothing; callers may rely only on its contract, which allows any run of the others.
- RegistryTheorems.RollingRotationRelinks: keys are named by number; two keys whose eight-byte names collide are not part of this model.
- The registry's tags are an ideal injective function of key and identifier (RFC 2104 is not modelled), and a minted reference is new: neither issued nor audited before, nor named by a request under way.
- RegistryProgress.OrderedSweepsNeverDeadlock: one way only; the exact condition is proved for one sweep at a time (`SweepDeadlocksIff`), while several batches in several orders may block each other in cycles of any length.
- Row locks are those of the mapping table. A commit writes the audit rows in one step and a lift is one step, so waiting for an audit row is left out, as are the timeouts with which the database ends a deadlock.
- SubjectStore.SubjectStore.ExpireEpochsBefore: run on its own; a sweep racing registrations of epochs already due is covered only by the invariants of `RegistrySafety`.
- SubjectStore.SubjectStore.EraseLinkage: the caller-owned transaction forms and the counters are not modelled.
- The listing queries of the registry (registrations, epochs, erasures with a filter): reads only.
- `ScopedVersion` and `Version`: one comparison and one increment within a scope, easy next to the rest.
- VersionScope.DerivedScopeCovers: the balancing month is a given function; the calendar behind it is not part of this model.
- Retention.CalendarYearsSweepIff: epochs below -9998 and a calendar that does not order its years are left out.
- Evolution.GateIsExact: types the program cannot promote are opaque; decimal scales are not negative; named time zones are taken to mean different instants, so that a change of zone alone is refused holds by this definition.
- Evolution.AlignKeepsNames: casting is a given function, known only to leave a column of the right type alone.
- EncodingTheorems.WrittenIsRead: identifiers and codes are given with a spelling that reads back; JSON, ISO 8601 and RFC 3339 texts are not modelled.
- Sorting a correction for storage, bloom-filter sizing and Parquet properties.
- Interpolation of settings, comments in them, command line, observability, catalogue and serving code.
- Jitter, back-off, clocks and entropy are parameters or absent.
