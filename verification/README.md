# FreedomBox: a verified model of its algorithms and protocols

FreedomBox (the `plinth` service) manages apps on a Debian system.  Most of it drives apt, systemd
and Django; inside it are a few algorithms and protocols whose correctness is not visible from any
single function.  This project models those and proves what each of them is for.

| file | what it models |
|---|---|
| `AppSort.dfy` | the dependency sort of apps, which survives missing, self and circular dependencies |
| `OperationRuns.dfy`, `OperationQueue.dfy`, `OperationOrder.dfy` | the one-at-a-time operations manager as a state machine over interleaved steps; its queue, the fate of operations and the order of starting over whole runs |
| `Operations.dfy` | the manager's classes, each method proved to be one step of that state machine |
| `Calendar.dfy` | naive dates and times, and the monthly step of the backup schedule |
| `Retention.dfy`, `ScheduleRuns.dfy` | scheduled archives: recency, ranking and cleanup; ticks and whole runs of ticks |
| `Schedule.dfy` | the classes of schedule and repository, proved against these |
| `ScheduleLaws.dfy` | what the schedule promises in plain times and names: when a backup is taken, what it counts for, what is kept |
| `CommentEscape.dfy` | the escaping of archive comments and its undoing |
| `Packages.dfy` | package expressions, the closure of packages to keep, known versions |
| `SetupRerun.dfy`, `Setup.dfy` | when setup of an app is run again after dpkg was invoked |
| `SetupLaws.dfy` | what setup, uninstallation and notifications promise, in terms of dependency paths and of what apps list |
| `WikiList.dfy`, `Docbook.dfy` | the indentation parser of wiki lists; the section stack and tag stream of DocBook |
| `DocbookContent.dfy` | what the DocBook output contains, and where |
| `DbLock.dfy` | the re-entrant database lock whose acquiring may time out |
| `BackupServices.dfy` | stopping and restoring services around a backup or restore |
| `ActionArguments.dfy` | validation of the arguments of privileged actions |
| `Conffiles.dfy` | prediction of dpkg's configuration file prompts |
| `SharedDaemon.dfy` | systemd units shared by several apps |

Code that changes state is written as classes and methods with loops, each proved against a
function or predicate; what the code promises is then proved about those functions and about all
runs.

How the surroundings appear:

- Every method of the operations manager holds its lock, so it is one step.  The move of an
  operation to COMPLETED happens outside the lock, so it is a step of its own and other threads may
  act between it and the completion callback.
- A tick of the backup schedule reads the clock once, and that reading is the start time of the
  archive it creates.
- apt's work appears as the package cache it leaves behind, or as its failure; the backup handler
  and hooks as whether they raise, and services as whether they fail to stop or start; dpkg's and
  the disk's files as maps from path to hash.
- A lock acquire either succeeds at once or times out.  A thread that gets the lock after waiting
  enters at that later moment.

## What the proofs found

- **Lost wake-ups.** Between COMPLETED and the callback of an operation with
  `show_message=False`, a collection of results or a new operation under the same id makes
  line 219 of `plinth/operation.py` raise or delete the wrong entry.  `StepSettlesExactly` and
  `AlwaysSettledExactly` give the exact guard on the callback; `LostWakeUpExample` and
  `OrphanExample` are runs outside it.  A lost wake-up lasts until the next accepted new operation
  (`OnlyNewWakes`, `NewWakesFirst`); an operation whose entry was deleted never starts
  (`OrphanNeverStarts`).
- **Overtaking.** A new operation under the id of a finished, still listed one takes over its place
  in the ordered table.  If an operation waits behind that place, it is overtaken
  (`OvertakingExample`); exactly then the order of creation is broken (`StepKeepsOrderExactly`), and
  exactly then or by a lost wake-up the queue (`RefinesFifoQueueExactly`).  In runs in which nobody
  is overtaken, operations start in the order in which they were created, except for those whose
  entry was deleted (`StartsInCreationOrder`).
- **Monthly step.** For a day that the following month does not have, the next monthly backup
  is due in January of the next year; in year 9999 the step can raise `ValueError`
  (`NextMonthlyExists`).
- **Setup without installing.** A setup run with `allow_install=False` marks no package as known,
  so the next dpkg notification runs setup again if it was needed before (`SetupWithoutInstallRerunsExactly`,
  `SetupIsRerunExample`).
- **Leaderless apps.** An app without leader components always counts as enabled, so a unit it
  shares is not switched off by other apps (`LeaderlessUnitStaysOn`, `LeaderlessExample`); shared
  units follow their apps in all runs exactly when each of those apps has a leader component
  (`SharedUnitsFollowExactly`).
- **Failing services.** A service that fails to stop or to start leaves all apps locked, since the
  shutdown stands before the guarded part and the unlocking after the restarts
  (`WithServicesStopped`).

## Model

| member | source | states |
|---|---|---|
| `AppSort.PlaceableIsLeastFixpoint` | plinth/app.py:668-686 | An app can be placed iff it is in every set closed under "all my dependencies are in it", so placeable is the least fixpoint |
| `AppSort.OrderIsExact` | plinth/app.py:643-686 | An order with dependencies first, missing only apps that lack a dependency in turn, holds exactly the placeable apps |
| `AppSort.BlockedIsNotPlaceable` | plinth/app.py:677-682 | An app left out because of a dependency that is never placed cannot be placed at any depth, cycles included |
| `AppSort.VisitKeeps` | plinth/app.py:668-686 | The depth-first search keeps the order duplicate-free and after dependencies; adds only what the app reaches; an abandoned call stack loses only apps that lack a dependency for good |
| `AppSort.TakeKeeps` | plinth/app.py:677-684 | The same for an app just popped from the remaining ones |
| `AppSort.VisitFollowsListing` | plinth/app.py:673-686 | The dependencies that a visit places come in the order in which they are listed, but for those that an earlier listed one needs |
| `AppSort.Sorter.InsertApps` | plinth/app.py:668-686 | The recursion over its two lists takes that search, up to where the call stack is abandoned |
| `AppSort.Sorter.InsertInTurns` | plinth/app.py:651-659 | The loop visits the remaining apps in turn and goes on after an abandoned one with what it has placed |
| `AppSort.PlaceOne` | plinth/app.py:686 | Appending an app whose dependencies are all placed keeps the order and what may still be lost |
| `AppSort.GiveUp` | plinth/app.py:677-682 | When a dependency is neither remaining nor placed, every app popped but not placed along the call stack lacks a dependency that no later placement supplies |
| `AppSort.TurnsAreEssentialFirst` | plinth/app.py:648-650 | The stable sort by essentiality puts every essential app before every other one |
| `AppSort.TurnsFollowLoading` | plinth/app.py:648-650 | Every app has its turns as often as it is loaded, and turns follow the load order, essential apps first |
| `AppSort.EssentialAppsComeFirst` | plinth/app.py:648-659 | Every app placed before an essential app is a transitive dependency of some essential app |
| `AppSort.SortedIsDependencyOrder` | plinth/app.py:643-665 | What the visits place is exactly the placeable apps, each once, each after all its dependencies, each in a turn it is needed by |
| `AppSort.OrderFollowsLoading` | plinth/app.py:648-659 | An app placed before another one is needed by an app that does not come after that one in the load order, essential apps first |
| `AppSort.WithoutDependencies` | plinth/app.py:648-659 | Without any dependencies the order is the load order, essential apps first |
| `AppSort.AppRegistry.SortApps` | plinth/app.py:643-665 | Keeps exactly the placeable apps, each once, each after all its dependencies, and follows the load order with essential apps first but for apps that are needed earlier; the order is that of the depth-first search |
| `OperationRuns.StepKeepsInvariant` | plinth/operation.py:193-260 | Every step keeps: one table entry per id, a started operation whose callback has not run is the current one and no other, a running one is in the table |
| `OperationRuns.OneAtATime` | plinth/operation.py:223-234 | In every interleaving at most one operation runs, and started but not called back means current |
| `OperationRuns.NewKeepsInvariant` | plinth/operation.py:193-205 | Accepting an operation, with the place of a completed one taken over, keeps the invariant |
| `OperationRuns.CallbackKeepsInvariant` | plinth/operation.py:212-221 | The completion callback keeps the invariant even when its deletion raises KeyError or hits a successor |
| `OperationRuns.CallbackSettlesExactly` | plinth/operation.py:212-221 | The callback leaves nothing waiting unserved or unreachable iff it keeps its message, or deletes its own entry, or finds none with nobody waiting |
| `OperationRuns.StepSettlesExactly` | plinth/operation.py:193-260 | A step loses a wake-up or an operation iff it is a callback outside that guard |
| `OperationRuns.AlwaysSettledExactly` | plinth/operation.py:193-260 | Nothing is lost at any moment of a run iff all its steps are within the guard |
| `OperationRuns.ShownRunIsHarmless` | plinth/operation.py:217-219 | Runs in which all operations keep their messages never leave the guard |
| `OperationRuns.AtomicRunIsHarmless` | plinth/operation.py:69-74 | Runs in which completion and callback are one step never leave the guard |
| `OperationRuns.NoLostWakeUp` | plinth/operation.py:212-234 | In both kinds of runs every waiting operation is in the table and some operation is current |
| `OperationRuns.OnlyNewWakes` | plinth/operation.py:193-234 | With nothing current, a step makes something current iff it is an accepted new operation |
| `OperationRuns.NewWakesFirst` | plinth/operation.py:193-234 | That one starts the first of all that wait in the table, which may be an operation whose wake-up was lost |
| `OperationRuns.LostWakeUpExample` | plinth/operation.py:212-221 | A run in which results are collected before the callback: an operation in the table waits while nothing is current |
| `OperationRuns.OrphanExample` | plinth/operation.py:212-221 | A run in which a reused id makes the callback delete the successor, which then waits outside the table |
| `OperationQueue.RefinesFifoQueueExactly` | plinth/operation.py:193-234 | A step acts on the waiting operations as on a first-in first-out queue, a callback starting its head, iff the callback is within the guard and a new operation takes over no entry in front of a waiting one |
| `OperationQueue.FreshRefinesFifoQueueExactly` | plinth/operation.py:193-234 | With fresh ids, iff the step is within the guard |
| `OperationQueue.WaitingAheadDrops` | plinth/operation.py:212-234 | Over a run whose callbacks are within the guard and in which nobody is overtaken, the number of operations ahead of a waiting one falls by one with every callback until it starts |
| `OperationOrder.StepKeepsOrderExactly` | plinth/operation.py:193-260 | A step keeps what waits in the table in creation order and newer than every started operation iff it takes over no entry in front of a waiting one |
| `OperationOrder.AlwaysInOrderExactly` | plinth/operation.py:193-260 | That order holds at every moment of a run iff no step of it overtakes |
| `OperationOrder.StartsInCreationOrder` | plinth/operation.py:193-234 | In every run in which nobody is overtaken, an operation older than a started one has started, or its table entry is gone and it never starts in any continuation |
| `OperationOrder.FreshRunIsFair` | plinth/operation.py:196-204 | Nobody is overtaken in a run that reuses no listed id |
| `OperationOrder.OrphanNeverStarts` | plinth/operation.py:223-234 | In every run an operation that waits outside the table does so for good |
| `OperationOrder.OrderlyRunStartsInOrder` | plinth/operation.py:193-234 | If moreover every callback is within the guard, every operation older than a started one has started |
| `OperationOrder.OvertakingExample` | plinth/operation.py:196-204 | A run in which an id is reused in front of a waiting operation, and the later operation starts before the earlier one |
| `OperationQueue.StepKeepsAccounted` | plinth/operation.py:193-260 | Every step keeps each accepted operation in exactly one of: table, collected, dropped, replaced |
| `OperationQueue.StepKeepsFatesExactly` | plinth/operation.py:193-260 | Collected and replaced operations had completed, dropped ones had completed and kept no message; a step breaks that iff it is a callback that deletes the entry of another operation |
| `OperationQueue.EveryOperationAccounted` | plinth/operation.py:193-260 | Over every run each accepted operation is in exactly one of the four places, once |
| `OperationQueue.EveryFateDeserved` | plinth/operation.py:193-260 | Over every run whose callbacks delete no other entry, each is there deservedly |
| `OperationQueue.EveryOperationAccountedFromStart` | plinth/operation.py:193-260 | From the start: one of the four places in every run, deservedly where all operations keep their messages or completion and callback are one step |
| `Operations.OperationsManager.New` | plinth/operation.py:193-205 | Performs the step of the state machine; rejects iff an unfinished operation has the id |
| `Operations.OperationsManager.ScheduleNext` | plinth/operation.py:223-234 | Starts the first waiting operation in table order if none is current |
| `Operations.OperationsManager.TargetFinished` | plinth/operation.py:61-71 | Marks the operation completed and touches nothing else |
| `Operations.OperationsManager.OnOperationComplete` | plinth/operation.py:212-221 | Performs the callback step; fails iff there is an entry to delete and none under the id |
| `Operations.OperationsManager.CollectResults` | plinth/operation.py:244-260 | Returns exactly the finished operations of the app, in table order, and keeps exactly the others in order |
| `Operations.OperationsManager.Partition` | plinth/operation.py:246-255 | The loop splits the table into finished operations of the app and the rest, both in order |
| `Calendar.FieldOrderIsInstantOrder` | plinth/modules/backups/schedule.py:112 | Comparing dates field by field is comparing instants on the Gregorian time line |
| `Calendar.NextMonthlyExists` | plinth/modules/backups/schedule.py:106-111 | The next monthly date fails to exist iff the year is 9999 and the following month is in the next year or lacks the day |
| `Calendar.NextMonthlyIsAhead` | plinth/modules/backups/schedule.py:106-111 | The next monthly date is 28 to 31 days ahead if the following month has that day, December included, and else 92 to 366 |
| `Calendar.NextMonthlyInstant` | plinth/modules/backups/schedule.py:106-112 | In instants the step is at least 28 and at most 366 days |
| `ScheduleLaws.NextMonthlyIsMonthAfter` | plinth/modules/backups/schedule.py:106-111 | The next monthly date is the same day and time of the following month, or of January of the next year if that month lacks the day |
| `ScheduleLaws.SundaysAreWeekly` | plinth/modules/backups/schedule.py:125-126 | Sundays are a multiple of seven days from 7 January 2024 |
| `ScheduleLaws.DaysFollow` | plinth/modules/backups/schedule.py:98-103 | Days are numbered one after the other over ends of months and years |
| `CommentEscape.HalvedDoubled` | plinth/modules/backups/schedule.py:222 | Collapsing pairs undoes doubling of one character in any string |
| `CommentEscape.HalvedIgnoresOther` | plinth/modules/backups/privileged.py:304 | Collapsing pairs of one brace commutes with doubling the other |
| `CommentEscape.UnescapedSerialized` | plinth/modules/backups/privileged.py:299-304 | Undoing the escaping of a serialized comment gives back every string |
| `CommentEscape.SerializedOccurrences` | plinth/modules/backups/schedule.py:215-222 | A serialized comment has every brace twice and every other character once |
| `Retention.NewestFirstSorts` | plinth/modules/backups/repository.py:131-132 | The listing is newest first and holds the same archives, each as often |
| `Retention.NewestFirstIsStable` | plinth/modules/backups/repository.py:131-132 | The listing keeps the order of archives that started at the same instant |
| `Retention.StableOrderIsUnique` | plinth/modules/backups/repository.py:131-132 | That description of a stable sort fixes the listing |
| `Retention.FilterNewestFirst` | plinth/modules/backups/repository.py:131-132 | Sorting commutes with any selection of archives |
| `Retention.ListedOrder` | plinth/modules/backups/schedule.py:225-252 | The scheduled archives are listed newest first and are exactly the scheduled ones not dated in the future |
| `Retention.RecentIsMostRecent` | plinth/modules/backups/schedule.py:254-270 | The recent time of a period is the latest start of its archives, or the earliest time for none |
| `Retention.MostRecentIsUnique` | plinth/modules/backups/schedule.py:254-270 | That description fixes the time |
| `Retention.DoomedExactly` | plinth/modules/backups/schedule.py:299-321 | An archive is deleted by name iff no period ranks it within its limit |
| `Retention.SurvivesExactly` | plinth/modules/backups/schedule.py:297-323 | An archive survives cleanup iff it is not scheduled, or dated in the future, or ranks within the limit of one of its periods |
| `Retention.NewestOfPeriodSurvive` | plinth/modules/backups/schedule.py:297-323 | The newest archives of each period, up to its limit, all survive |
| `Retention.CleanupIsIdempotent` | plinth/modules/backups/schedule.py:297-323 | A second cleanup deletes nothing |
| `Retention.SurvivorsWithinLimits` | plinth/modules/backups/schedule.py:297-323 | At most the sum of the three limits of scheduled archives survive |
| `Retention.CleanupKeepsRecent` | plinth/modules/backups/schedule.py:254-323 | Cleanup leaves the recent time of every period with a limit of at least one as it was, for a lookup then or at any later time |
| `ScheduleRuns.TickKeepsSound` | plinth/modules/backups/schedule.py:148-207 | With a forward clock a tick keeps names unique and no scheduled archive in the future |
| `ScheduleRuns.TakenUpdatesRecent` | plinth/modules/backups/schedule.py:186-207 | A backup followed by its cleanup moves the recent time of its periods to now and leaves the others |
| `ScheduleRuns.TickKeepsGap` | plinth/modules/backups/schedule.py:77-90 | A tick that takes a backup comes at least two hours after the latest one |
| `ScheduleRuns.BackupsAreSpaced` | plinth/modules/backups/schedule.py:77-207 | Over every run any two successive backups are at least two hours apart, failures included |
| `ScheduleRuns.TakenIsInStep` | plinth/modules/backups/schedule.py:192-207 | A backup taken while a period is overdue counts for it, so afterwards none is left behind |
| `ScheduleRuns.TickKeepsInStep` | plinth/modules/backups/schedule.py:148-207 | After a tick no period is overdue by two hours or more |
| `ScheduleRuns.TickReachesOnTime` | plinth/modules/backups/schedule.py:148-207 | From any repository, a tick two hours or more after the latest backup leaves every enabled period in step and less than two hours past due |
| `ScheduleRuns.YoungFromLatest` | plinth/modules/backups/schedule.py:148-207 | So over every run the archives are young enough after each tick from two hours beyond the latest backup known at its start |
| `ScheduleRuns.NotTakenIsInTime` | plinth/modules/backups/schedule.py:192-203 | A tick that takes no backup shows that no enabled period is overdue by two hours |
| `ScheduleRuns.NeverOlderThan` | plinth/modules/backups/schedule.py:92-115 | Over every run with ticks at most D apart, from any repository, the latest daily backup is younger than 27 hours and D, weekly 7 days 3 hours and D, monthly 366 days 3 hours and D, at every moment from the first tick two hours after the start; from the very first tick if the period was in step |
| `ScheduleRuns.ScheduledHourIsUsed` | plinth/modules/backups/schedule.py:117-132 | Over every run with ticks at most an hour apart, the hour scheduled for a period has a tick that backs it up, unless some backup was taken in the two hours before that tick; for monthly backups an hour on the first of every month |
| `ScheduleRuns.FreshRepositoryIsInStep` | plinth/modules/backups/schedule.py:256-260 | A repository without scheduled archives meets the conditions to start a run |
| `ScheduleLaws.TakenExactly` | plinth/modules/backups/schedule.py:148-207 | A backup is taken iff the schedule is enabled, the latest backups of all names are two hours old, some name is due by its plain condition, and creating the archive succeeds; a disabled schedule takes none |
| `ScheduleLaws.MarkedExactly` | plinth/modules/backups/schedule.py:272-295 | The archive is marked with exactly the enabled names whose latest archive is more than 25 hours, 7 days and an hour, or an hour beyond a month old, or that are in their hour; in alphabetical order |
| `ScheduleLaws.TakenArchiveStays` | plinth/modules/backups/schedule.py:205-206 | The new archive survives the cleanup after it, and nothing else is new |
| `ScheduleLaws.NeverTooEarly` | plinth/modules/backups/schedule.py:92-132 | Over every run two successive archives of one name are more than its period apart, unless the later one is taken in the hour scheduled for the name |
| `ScheduleLaws.SurvivesByRank` | plinth/modules/backups/schedule.py:297-323 | A scheduled archive survives a cleanup iff for one of its names the number of archives of that name up to it, from the newest, is within that name's limit |
| `ScheduleLaws.OnlyNameWithinLimit` | plinth/modules/backups/schedule.py:297-323 | After a cleanup at most as many archives carry only one name as are to be kept for it |
| `ScheduleLaws.TakenKeepsWithinLimits` | plinth/modules/backups/schedule.py:205-206 | After a backup the archives are within the limits, in all and for each name alone |
| `ScheduleLaws.TickSpares` | plinth/modules/backups/schedule.py:186-207 | A tick deletes nothing unless it takes a backup, and never an archive that is not scheduled or is dated in the future |
| `Schedule.Repository.ListArchives` | plinth/modules/backups/repository.py:121-132 | The archives newest first, each as often as before, and those that started at the same instant in the order they had |
| `Schedule.BackupSchedule.ListScheduledArchives` | plinth/modules/backups/schedule.py:225-252 | The loop yields the scheduled archives not dated in the future, in order |
| `Schedule.BackupSchedule.GetRecentBackupTimes` | plinth/modules/backups/schedule.py:254-270 | The loops yield the most recent time of every period |
| `Schedule.BackupSchedule.IsBackupTooSoon` | plinth/modules/backups/schedule.py:78-90 | True iff some period's recent time is less than two hours ago |
| `Schedule.BackupSchedule.TooLongSinceLastBackup` | plinth/modules/backups/schedule.py:93-115 | Yields exactly the overdue periods, or fails where no next monthly date exists |
| `Schedule.BackupSchedule.TimeForPeriods` | plinth/modules/backups/schedule.py:117-132 | Yields exactly the periods scheduled for this hour |
| `Schedule.BackupSchedule.GetDisabledPeriods` | plinth/modules/backups/schedule.py:134-146 | Yields exactly the periods with limit zero |
| `Schedule.BackupSchedule.DuePeriods` | plinth/modules/backups/schedule.py:196-201 | Yields exactly the enabled periods that are overdue or scheduled for this hour, or fails where no next monthly date exists |
| `Schedule.BackupSchedule.CountArchive` | plinth/modules/backups/schedule.py:302-316 | One step of the ranking loop: the counts are those of the archives so far, and the archive is kept iff ranked within a limit |
| `Schedule.BackupSchedule.RunCleanup` | plinth/modules/backups/schedule.py:297-323 | The loop deletes exactly the archives that no period ranks within its limit |
| `Schedule.BackupSchedule.RunSchedule` | plinth/modules/backups/schedule.py:148-207 | One tick: whether a backup is taken, fails or is not due, and the archives afterwards |
| `Packages.ActualIsFirstInstallable` | plinth/package.py:67-100 | The actual package of an expression is the first of its possible packages with a candidate, missing iff none has one |
| `SetupLaws.FirstAlternativeWins` | plinth/package.py:93-100 | If a package of the first alternative can be installed, one of that alternative is taken |
| `SetupLaws.ListedArePossible` | plinth/package.py:165-171 | The possible packages of a component are exactly those it lists in some alternative |
| `Packages.KeepWithDependencies` | plinth/package.py:327-349 | The worklist terminates on every cyclic graph and holds exactly the packages reachable from its start along edges leaving installed packages |
| `Packages.FilterPackagesToKeep` | plinth/package.py:303-355 | Subtracts exactly those packages, keeping order and repeats |
| `Packages.Removable` | plinth/package.py:351-355 | A package is removable iff it was asked for and is not needed |
| `Packages.RemovableConcat` | plinth/package.py:354-355 | Filtering one list after the other is filtering both together, so order and repeats stay |
| `Packages.MarkedExactly` | plinth/package.py:583-603 | After marking, the known version of the given installed packages is the installed one and the others' is as before |
| `Packages.KnownStore.MarkKnown` | plinth/package.py:583-603 | The loop stores exactly that marking |
| `Packages.KnownStore.UnmarkKnown` | plinth/package.py:606-615 | The loop forgets exactly the given packages |
| `SetupRerun.UpToDateIsNotRerun` | plinth/setup.py:787-848 | No rerun for an app whose actual packages are known with their installed versions |
| `SetupRerun.NeedsRerunExactly` | plinth/setup.py:819-848 | A rerun is needed iff some package differs from its known version and neither it nor any before it is missing or not installed |
| `SetupRerun.UninstallSparesOthers` | plinth/package.py:303-355 | No package of another set-up app is among those an uninstallation removes and unmarks |
| `SetupLaws.PurgedExactly` | plinth/package.py:303-355 | Purged are exactly the listed packages at the end of no dependency path from freedombox or from a package listed by another set-up app |
| `SetupLaws.UninstallSparesPaths` | plinth/package.py:195-208 | An uninstallation purges no package at the end of such a path and leaves its known version alone, over all components and failures of apt |
| `SetupLaws.UninstallForgets` | plinth/setup.py:209-217 | What was purged is not known afterwards; the app stops being set up iff all of its uninstallation succeeds; other versions stay |
| `SetupRerun.UninstallKeepsUpToDate` | plinth/package.py:195-208 | Uninstalling another app, to the end or up to a failure of apt, keeps an app up to date if it upgrades none of its packages |
| `SetupRerun.ComponentsKeepUpToDate` | plinth/package.py:183-193 | Setup of any app, to the end or up to a failure, keeps an app up to date if it upgrades no packages of it but those that it makes known |
| `SetupRerun.StepKeepsSetUp` | plinth/setup.py:787-848 | dpkg work, setups, notifications and uninstallations of others that upgrade no package of an app without making it known keep it set up and up to date |
| `SetupRerun.NeverRerunInQuietRun` | plinth/setup.py:787-848 | Over every run of such steps no notification runs setup of the app again |
| `SetupRerun.SuccessfulSetupIsSetUp` | plinth/setup.py:58-76 | A successful setup run that installs packages leaves the app set up, up to date and not to be run again; components may share packages |
| `SetupLaws.SetupRecordsVersion` | plinth/setup.py:74-75 | Setup records the version of the app iff it succeeds, and no other version |
| `SetupLaws.NoInstallNeedsInstalled` | plinth/package.py:478-485 | Without permission to install, setup succeeds only with a listed package of every expression installed |
| `SetupLaws.ConflictsForgotten` | plinth/package.py:185-190 | Only a component that asks for it removes conflicting packages, and exactly the installed ones become unknown |
| `SetupRerun.SetupWithoutInstallLearnsNothing` | plinth/package.py:478-485 | A setup run that may not install, whatever conflicts it removes, makes no package known |
| `SetupRerun.SetupWithoutInstallRerunsExactly` | plinth/package.py:478-485 | After a setup run that may not install, and whose removal of conflicts leaves the app's own packages alone, a notification runs setup again iff the packages needed it before |
| `SetupRerun.SetupIsRerunExample` | plinth/package.py:478-485 | Setup without installing of an app that reruns on upgrade, with its package installed but not known, is run again by the next notification |
| `SetupLaws.NotificationLeavesAlone` | plinth/setup.py:787-813 | A notification leaves everything as it is for an app that is not set up, asks for no reruns or is up to date |
| `SetupLaws.NotificationRunsSetup` | plinth/setup.py:801-817 | Otherwise it runs setup if all packages are available and one differs from its known version before any that is not installed |
| `SetupLaws.UnsetStaysUnset` | plinth/setup.py:797-799 | Over every run without a setup asked for, an app that is not set up stays so, whatever is installed and reported |
| `Setup.Service.FindConflicts` | plinth/package.py:251-256 | The conflicting packages that are installed |
| `Setup.Service.Install` | plinth/package.py:469-502 | Without permission to install: success iff all packages are installed, nothing changes; with it: apt's result and the packages marked |
| `Setup.Service.SetupComponent` | plinth/package.py:183-193 | Removes conflicts, then installs; a failure keeps what was done before it |
| `Setup.Service.RunSetupOnApp` | plinth/setup.py:58-76 | Sets up the components in order and records the version only after all succeeded |
| `Setup.Service.RunUninstallOnApp` | plinth/setup.py:209-217 | Uninstalls the components from the last, purging in this order the listed packages that nothing else needs, and clears the version only after all succeeded |
| `Setup.Service.AppNeedsSetupRerun` | plinth/setup.py:819-848 | The scan returns whether a rerun is needed |
| `Setup.Service.PostInvokeOnApp` | plinth/setup.py:787-817 | Runs setup again iff the app is interested, set up, all its packages are available and one needs it |
| `WikiList.ParseList` | doc/scripts/wikiparser.py:928-968 | Terminates; the tree follows the indentation and its lines and the rest are the input; nothing is left when no indent is below the first |
| `WikiList.ParseIsUnique` | doc/scripts/wikiparser.py:928-968 | Any two trees that follow the indentation of the same data are equal, and so are their rests |
| `WikiList.NothingBelowNothingLeft` | doc/scripts/wikiparser.py:946-947 | No data remains when no indent is below the list's |
| `WikiList.NestKeepsGrowing` | doc/scripts/wikiparser.py:941-944 | A nested list appended to the last item is indented further, and less than the list before it in that item |
| `Docbook.RenderIsBalanced` | doc/scripts/wikiparser.py:51-531 | The tags of every element are balanced in every context |
| `DocbookContent.RenderTrace` | doc/scripts/wikiparser.py:51-531 | Every element places exactly its names, texts and children, in order and each inside the right names: lists, links, code and all others |
| `DocbookContent.ContextAfter` | doc/scripts/wikiparser.py:158-164 | A shared context says after an element that rendering is outside of paragraphs iff it did before or the element holds a paragraph outside emphasis |
| `Docbook.OpenSectionsExactly` | doc/scripts/wikiparser.py:1928-1935 | Open before an element are exactly the sections of earlier headings with no heading at their level or above since, with strictly increasing levels |
| `Docbook.OpenAfterHeading` | doc/scripts/wikiparser.py:1929-1935 | A heading closes exactly the open sections at its level and below |
| `Docbook.NextHeadingCloses` | doc/scripts/wikiparser.py:53-55 | A heading right after another one closes its section unless it is deeper; levels from 5 on are alike |
| `Docbook.CloseSections` | doc/scripts/wikiparser.py:1930-1932 | Popping the stack from its top writes one end tag for every section to close |
| `Docbook.StreamLeavesOpen` | doc/scripts/wikiparser.py:1928-1937 | Reading the output so far leaves exactly one section tag open for every open section |
| `Docbook.DocumentIsBalanced` | doc/scripts/wikiparser.py:1923-1942 | The whole output is balanced, so every section opened is closed once |
| `DocbookContent.DocumentText` | doc/scripts/wikiparser.py:1923-1942 | No text is lost, added or moved: the text of the document is that of its elements in reading order |
| `DocbookContent.DocumentPlaces` | doc/scripts/wikiparser.py:1923-1942 | Everything in the document stands where it is to stand: each element inside exactly the sections open after it, each section start inside those still open |
| `Docbook.GenerateInnerDocbook` | doc/scripts/wikiparser.py:1923-1942 | The loops with their stack write that output |
| `DbLock.DBLock.Enter` | plinth/db/__init__.py:22-24 | Acquires iff no block of another thread holds the lock; either way the thread is one block further in, and hold counts keep matching acquired blocks |
| `DbLock.DBLock.Exit` | plinth/db/__init__.py:26-32 | Leaves the thread's innermost block; its own hold count falls by one iff that block had acquired, and every other thread's stays |
| `DbLock.StepKeepsInvariant` | plinth/db/__init__.py:22-32 | Every thread's hold count is the number of its acquired blocks, and blocks that timed out lie below those |
| `DbLock.AtMostOneHolder` | plinth/db/__init__.py:22-32 | In every run at most one thread holds the lock, as often as it has acquired blocks |
| `DbLock.ExitFreesOwnHoldOnly` | plinth/db/__init__.py:26-32 | Leaving a block that timed out frees nothing; leaving one that acquired frees its own hold |
| `DbLock.OuterBlocksStay` | plinth/db/__init__.py:22-32 | While a thread stays inside a block its outer blocks stay as they are |
| `DbLock.BlockRestoresHolds` | plinth/db/__init__.py:22-32 | Whatever all threads do inside a block, its thread holds the lock at exit as often as at entry |
| `BackupServices.StartsMirrorStops` | plinth/modules/backups/api.py:356-382 | The starts are exactly the stops in reverse |
| `BackupServices.StoppedExactly` | plinth/modules/backups/api.py:370-371 | The stops of all handlers are exactly those of the listed resources that were active |
| `BackupServices.SomeHandlerFinds` | plinth/modules/backups/api.py:321-325 | Of several handlers for an active resource one finds it active |
| `BackupServices.NoneFailsExactly` | plinth/modules/backups/api.py:370-382 | Some handler meets a resource that fails iff some active listed resource does |
| `BackupServices.ServicesExactly` | plinth/modules/backups/api.py:365-368 | Handlers are created for exactly the services that some component lists |
| `BackupServices.ServicesConcat` | plinth/modules/backups/api.py:365-368 | They stand in the order of the components and of each component's list |
| `BackupServices.ServiceHandler.Stop` | plinth/modules/backups/api.py:321-348 | Remembers whether the resource was active and stops it only then; fails iff that stop fails |
| `BackupServices.ServiceHandler.Restart` | plinth/modules/backups/api.py:327-353 | Starts the resource iff it was active when stopped; fails iff that start fails |
| `BackupServices.ShutdownServices` | plinth/modules/backups/api.py:356-373 | One handler for every listing, stopped from the last to the first up to the first failure; without one no listed resource is active afterwards |
| `BackupServices.RestoreServices` | plinth/modules/backups/api.py:376-382 | Restarts in order exactly what was active before, up to the first failure |
| `BackupServices.LockdownApps` | plinth/modules/backups/api.py:224-232 | Sets the flag of every listed app |
| `BackupServices.FailuresExactly` | plinth/modules/backups/api.py:413-420 | The errors recorded are exactly those of the hooks that failed |
| `BackupServices.FailuresInOrder` | plinth/modules/backups/api.py:413-420 | They are recorded in the order of the components |
| `BackupServices.RunHooks` | plinth/modules/backups/api.py:385-420 | Runs the hooks of all components, recording failures |
| `BackupServices.RunOperation` | plinth/modules/backups/api.py:423-427 | Records the failures of the hooks before the handler and then, only if it did not raise, of those after it |
| `BackupServices.WithServicesStopped` | plinth/modules/backups/api.py:111-171 | If no active listed resource fails to stop or to start, every resource is active as before whether or not the handler raises, starts mirror the stops, and all listed apps are unlocked; apps stay locked iff one does fail |
| `ActionArguments.AssertValidType` | plinth/actions.py:559-622 | Accepts iff the value inhabits the annotation, recursively over unions, lists and dictionaries |
| `ActionArguments.BasicExactly` | plinth/actions.py:564-584 | A value has exactly the basic annotations of its kind; a bool is an int too, and a string a secret |
| `ActionArguments.UnionParts` | plinth/actions.py:586-596 | A union holds the values of its parts, however grouped |
| `ActionArguments.ListParts` | plinth/actions.py:598-607 | A list fits iff all of its parts do, and nothing but a list does |
| `ActionArguments.DictParts` | plinth/actions.py:609-620 | A dictionary fits iff all keys and values do, and nothing but a dictionary does |
| `ActionArguments.BindingCallFits` | plinth/actions.py:533-534 | A call that binds never has more values than parameters, so the count check rejects no valid call |
| `ActionArguments.BindsByNames` | plinth/actions.py:532-549 | A call binds iff keywords name parameters after the positional ones and every parameter without default is given by position or name |
| `ActionArguments.AssertValidKeywords` | plinth/actions.py:544-552 | Accepts iff every keyword names a parameter not bound by position and fits its type; a reported error is true |
| `ActionArguments.AssertValidArguments` | plinth/actions.py:518-556 | Accepts iff the request is well formed, the Python call binds and every value inhabits its annotation; an error that is reported is true of the request |
| `ActionArguments.ContainsExactly` | plinth/actions.py:325-326 | The search for a word finds it iff it stands somewhere in the name |
| `ActionArguments.CheckDeclaration` | plinth/actions.py:313-329 | Accepts iff no variable arguments, all parameters annotated, and every annotated name in which password, passphrase or secret stands is of secret type |
| `Conffiles.PromptListExactly` | plinth/privileged/packages.py:126-145 | The list holds a file iff it is changed on disk and between the versions, or new and in the way of a different file |
| `Conffiles.FilterMatchingHashes` | plinth/privileged/packages.py:259-272 | The files whose hash on disk differs, in order, with that hash |
| `Conffiles.HashesFromDownloadedFile` | plinth/privileged/packages.py:363-380 | The hashes of the package's files, without the skipped ones, each name once in order |
| `Conffiles.GetModifiedConffiles` | plinth/privileged/packages.py:180-214 | The mismatched files that differ between the versions, then the new ones in the way |
| `Conffiles.OldFilesPrompt` | plinth/privileged/packages.py:184-194 | Skipping unchanged old files changes nothing in the first part |
| `Conffiles.NewFilesPrompt` | plinth/privileged/packages.py:196-212 | Nor in the second part |
| `Conffiles.FilterConffiles` | plinth/privileged/packages.py:148-177 | With or without skipping, the pipeline returns the same list, which is the prompt condition of its documentation |
| `Conffiles.FilterConffilePackages` | plinth/privileged/packages.py:148-177 | With or without skipping, lists exactly the packages with some file that meets the prompt condition, each with its files |
| `Conffiles.PromptsLiterally` | plinth/privileged/packages.py:126-145 | A file is listed iff it is of both versions, changed or deleted on disk and different between them, or new with other content or no file in its place |
| `SharedDaemon.System.Enable` | plinth/app.py:201-204 | Enables all components, and so the shared units |
| `SharedDaemon.System.DisableShared` | plinth/daemon.py:187-199 | Disables the unit unless another enabled app uses it |
| `SharedDaemon.System.Disable` | plinth/app.py:206-209 | Disables all leaders and the units no other enabled app uses, whatever the order of components |
| `SharedDaemon.EnableKeeps` | plinth/app.py:201-204 | Enabling keeps units following apps and enables this app only |
| `SharedDaemon.DisableKeeps` | plinth/daemon.py:187-199 | Disabling keeps units following apps and disables this app only |
| `SharedDaemon.UnitsFollowInRun` | plinth/daemon.py:187-199 | After any calls a shared unit is enabled iff an enabled app uses it, and the last call decides whether an app is |
| `SharedDaemon.SharedUnitsFollowExactly` | plinth/daemon.py:187-199 | That holds after all sequences of calls iff every app that uses a shared unit has a leader component |
| `SharedDaemon.LeaderlessUnitStaysOn` | plinth/daemon.py:187-199 | A unit shared by an app without leader components stays on over all calls for other apps |
| `SharedDaemon.LeaderlessExample` | plinth/daemon.py:187-199 | An app is enabled and disabled again, and the unit it shares with an app without leader components stays on |

## Left out

- SetupRerun.SuccessfulSetupIsSetUp: assumes that apt's work for a component changes no version of the earlier components' packages other than those the component itself installs, removes conflicting packages it was asked to remove, and keeps the component's packages installable.
- SetupRerun.NeverRerunInQuietRun: a step that upgrades a package of the app without making the new version known, or makes one available or unavailable, ends the run.
- Setup.Service.RunSetupOnApp: an app's own additions to `setup`, the refresh of package lists and the attempt at a forced upgrade are left out; an upgrade can only appear as a step from outside.
- Setup.Service.RunUninstallOnApp: disabling the app first, and an app's own additions to `uninstall`, are left out.
- ScheduleRuns.NeverOlderThan: for the first two hours of a run that starts where a backup was taken while the period was overdue, as just after enabling a period, no bound holds.
- ScheduleRuns.BackupsAreSpaced: for a forward clock; archives dated in the future are ignored by design.
- Schedule.BackupSchedule.RunSchedule: entries of `periods` that are not hashable raise TypeError in the source; here periods are strings.  Preparing and compacting the repository is left out.
- BackupServices.WithServicesStopped: the snapshot branches, installation before a restore and `.socket` units are left out; the handler is taken not to change services itself.  An app that was locked before comes out unlocked, as in the source.
- ActionArguments.AssertValidArguments: where several errors are true of a request, does not fix which of them is reported.
- Conffiles.FilterConffilePackages: downloading packages, parsing dpkg's files and the version numbers in the result are left out.
- WikiList.ParseList: item contents are opaque, so stripping their indentation and parsing them is left out, and so is the list marker override; the data is a value, so the caller's list being shortened in place is not seen.
- Docbook.RenderIsBalanced: the `Include` element, attributes, escaping of text and URL resolution are left out.
- SharedDaemon.System: a plain daemon on a unit that is also shared, unit aliases, running state, and the enabled flags of other follower components are left out.
- Operations.OperationsManager: `get`, `filter`, `join`, notifications, and the target's result or exception are left out; the worker thread starts once and finishes once.
- Operation ids of notifications, progress messages and translations: no bearing on scheduling.
- An app without an `Info` component, and Python's recursion limit, in the dependency sort.
- Time zones, daylight saving, and the clock moving on within one tick.
- Collecting the apps to set up at startup, ordering them and retrying after failures (`plinth/setup.py`).
- Version comparison of packages (`plinth/version.py`), delegated to apt.
- Views, forms, templates and other user interface; BIND, drop-in and key-value wrappers: true round trips but easy ones.
