# DebridUp history, incidents and scheduling, modelled in Dafny

DebridUp checks debrid providers on a schedule and keeps several structures that must agree with its raw
check log: pre-aggregated rollup buckets, confirmed monitor states, incidents and their event logs, and the
figures shown on the dashboard and the overview. This project models those structures and the code that
maintains them, and proves that they agree.

| file | what it holds |
|---|---|
| `Rows.dfy` | selecting and counting rows |
| `Buckets.dfy` | epoch-anchored buckets, in Go's and in SQL's arithmetic |
| `OrderStatistics.dfy` | sorting and the nearest-rank percentile |
| `Schema.dfy` | the table rows |
| `Incidents.dfy` | the confirmation state machine and its meaning over whole histories |
| `HistoryTables.dfy`, `Invariants.dfy` | the history tables as a value, every transaction on them, and what each keeps |
| `Chronicle.dfy` | a monitor's incidents and outages told from its history of checks alone |
| `Rollups.dfy`, `Store.dfy` | the rollup cache, and the database as a class with one method per statement and per transaction |
| `Dashboard.dfy`, `WindowPercentiles.dfy`, `Snapshot.dfy` | windows, totals, series, overlay, window percentiles, and the snapshot of all providers |
| `EdgeCases.dfy` | inputs on which two figures of a snapshot say more than their names promise |
| `Overview.dfy`, `RecentLatency.dfy` | coverage and availability, and the p95 of the overview |
| `Coordinator.dfy` | the run coordinator and its interleavings |
| `Protocol.dfy` | coordinator, runs, clock and database together: the composed result |
| `Paging.dfy` | keyset paging of the check log |
| `Sessions.dfy`, `LoginLimiter.dfy` | the session mirror and the sign-in lockout |

How it is modelled:

- Classes carry the fields the source mutates (`Store.Store`, `Coordinator.RunCoordinator`,
  `Sessions.SessionStore`, `LoginLimiter.Limiter`). A transaction is one atomic method; inside it every SQL
  statement is a method of its own that requires what SQLite's foreign keys require of it and keeps all
  keys, so a caller that verifies never has a statement refused, and the keys hold after each of them.
  Table rows of one select come in no particular order where the query names none.
- Go's and SQLite's `%` truncate toward zero; `Buckets.TruncatedRemainder` defines that remainder.
- Percentiles are exact: the rank of k percent of n samples is `(k*n+99)/100`, the form the overview uses.
- Durations, clocks, outcomes and random ids are inputs. Thresholds are inputs of every call and may differ
  from call to call: no invariant needs them fixed, the results about histories need them to be at least 1,
  which saving a monitor validates (cmd/debridup/main.go:1217 and cmd/debridup/main.go:1283). Availability
  needs check times after the epoch, because a stored resolution time of 0 stands for an open incident.
- A claim's `now` may be stale; only the clock that stamps checks is required not to go back.
- Row ids are one more than the largest in use, so ids of deleted rows return.

Three places where the code is looser than a first reading:

- `overlayIncidentStates` also marks a bucket that contains an incident of no length (opened and resolved in
  the same second), which covers no second of the timeline; `Dashboard.OverlapIsMeeting` states exactly when,
  and `EdgeCases.InstantIncidentShown` gives two checks that bring it about.
- `ChecksToday` also counts a check stamped at or after `now` in the bucket being filled;
  `Dashboard.ChecksTodayExact` states that this is the only difference, and `EdgeCases.CheckAtNowCounted`
  records such a check.
- A failed sign-in takes its time before it hashes the password, so it may reach the limiter late; five late
  ones can shorten a lock in force. `LoginLimiter.LateFailureShortensIff` states exactly when, and
  `LoginLimiter.LateFailuresShorten` gives such times.

## Model

| member | source | states |
|---|---|---|
| Buckets.BucketContains | cmd/debridup/rollup.go:21-36 | a timestamp, before or after the epoch, lies in the aligned bucket it is snapped to |
| Buckets.BucketUnique | cmd/debridup/rollup.go:21-36 | that bucket is the only aligned interval of its width containing the timestamp |
| Buckets.SqlBucketIsGoBucket | cmd/debridup/rollup.go:131-143 | the truncating SQL bucket expression of the rebuild equals the Go helper for every integer |
| Buckets.MidnightIsABoundary | cmd/debridup/dashboard.go:314-318 | UTC midnight is a boundary of all three stored widths |
| OrderStatistics.NearestRankExact | cmd/debridup/dashboard.go:96-104 | the percentile is v exactly when v is a sample, at least the rank of samples are at most v, and fewer lie below it |
| OrderStatistics.NearestRankMonotone | cmd/debridup/dashboard.go:96-104 | a higher percentile is no smaller, and the result is one of the samples |
| Rollups.AgreementIsUnique | cmd/debridup/rollup.go:43-45 | the raw checks leave only one rollup table in agreement with them, however it was built |
| Rollups.SummaryOrdered | cmd/debridup/rollup.go:88-98 | a stored bucket has p50 <= p95 <= slowest |
| Rollups.RecordedRows | cmd/debridup/rollup.go:46-114 | unknown and public checks move no row; any other moves total, healthy, eligible and slowest of the buckets it lies in by what its state says |
| Store.Store.Tally | cmd/debridup/rollup.go:52-80 | the scan of a refresh skips unknown outcomes and counts all others in total, healthy, eligible, slowest and latencies |
| Store.Store.RefreshRollupBucket | cmd/debridup/rollup.go:46-104 | the row becomes the direct summary of its bucket, or goes when the bucket has no completed check; other rows stay; the keys hold |
| Store.Store.RefreshRollupsFor | cmd/debridup/rollup.go:107-114 | a cache agreeing before an authenticated check agrees after it, for every monitor, width and bucket |
| Store.Store.RebuildRollups | cmd/debridup/rollup.go:118-149 | from any prior rows of the selected monitors the rebuild ends in agreement, and on an agreeing cache it changes nothing |
| Store.Store.InsertGroups | cmd/debridup/rollup.go:127-146 | the grouped insert adds exactly the non-empty buckets of its width with the counters the query selects, meets no stored key and touches no other row |
| Store.GroupCountersExact | cmd/debridup/rollup.go:130-143 | the counters grouped in SQL equal the direct computation of the Go bucket; the slowest check does exactly when the one selected is not negative |
| Store.GroupRowIsSummary | cmd/debridup/rollup.go:127-146 | for durations that are not negative the grouped row lacks nothing but its percentiles |
| Store.Store.FillRollupPercentiles | cmd/debridup/rollup.go:153-186 | filling the rows without percentiles brings the whole cache into agreement |
| Incidents.TrailingRunIsMaximal | cmd/debridup/main.go:941-949 | the trailing run is the longest suffix of equal outcomes |
| Incidents.CountersAreTrailingRuns | cmd/debridup/main.go:915-950 | failure and recovery counters are the lengths of the trailing runs, and the failure start is the time of the run's first check |
| Incidents.DownIffConfirmed | cmd/debridup/main.go:912-967 | for thresholds that may change at every check, a monitor is down exactly when its latest confirmed failure is later than its latest confirmed recovery |
| Incidents.DownStateIsLastFailure | cmd/debridup/main.go:950-967 | while down, the confirmed state is that of the last failing check |
| Incidents.ActionsFollowHistory | cmd/debridup/main.go:926-967 | exactly when an incident opens, changes or resolves, told from the history; it opens dated to the first failure of the confirming run, and `state_since` starts with the first check and moves only then |
| Chronicle.RecordFollowsHistory | cmd/debridup/main.go:889-1035 | one recorded check adds its row and, told from the history alone, opens an incident dated to the first failure of the confirming run, resolves or changes the open one, or leaves incidents and logs alone; other monitors' rows stay |
| Chronicle.IncidentTold | cmd/debridup/main.go:941-967 | the p-th incident of a history is dated to the first failure of the run its p-th opening check confirms, and ended by the first confirmed recovery after it |
| Chronicle.OpeningsComplete | cmd/debridup/main.go:950-957 | incidents open at exactly the checks that confirm a failure of a monitor that is up |
| Chronicle.CoveredIffOutage | cmd/debridup/main.go:914-967 | the stored incidents cover exactly the seconds from a confirmed failure's first check to the next confirmed recovery |
| Invariants.OpenIncidentFound | cmd/debridup/main.go:1010-1028 | while a monitor is down the lookup of its open incident finds the only one, with the confirmed state as its latest state |
| Invariants.RecordKeepsValid | cmd/debridup/main.go:889-979 | recording any check, with any thresholds, keeps the references, exactly one open incident while down and none while up, and the replay of every event log |
| Invariants.ReplayIffWellFormed | cmd/debridup/main.go:1001-1035 | a log replays exactly when it is one opening, chained changes and at most a final recovery, and then yields its first state, last state and end |
| Invariants.PruneKeepsValid | cmd/debridup/database.go:270-320 | pruning keeps references, open incidents and the story of every event log |
| Invariants.ResetKeepsValid | cmd/debridup/main.go:1434-1447 | resetting or deleting a monitor keeps all invariants of the tables |
| Invariants.RecordKeepsChronological | cmd/debridup/main.go:912-967 | checks recorded in time order keep a monitor's incidents in succession: each opens no earlier than the one before was resolved |
| Store.Store.StateFor | cmd/debridup/main.go:992-1000 | a monitor without a state row gets a healthy one, stored at once |
| Store.Store.OpenIncident | cmd/debridup/main.go:1001-1009 | exactly one incident with the given opening and detection times is added under a fresh id, with its opening event |
| Store.Store.ResolveIncident | cmd/debridup/main.go:1010-1022 | the newest open incident is resolved, keeping all else, and its event added; reports whether there was one |
| Store.Store.ChangeIncident | cmd/debridup/main.go:1023-1035 | the newest open incident takes the new state, keeping all else, with an event naming the previous one; reports whether there was one |
| Store.Store.Confirm | cmd/debridup/main.go:912-967 | the branches on one check compute the state machine's step and its incident statements; the lookups never fail |
| Store.Store.RecordResult | cmd/debridup/main.go:889-979 | exactly the given row is appended under a larger id; an authenticated, completed check moves the rows of its own three buckets by one and no other; the cache agrees and every invariant holds; a check of a deleted monitor is refused without effect |
| Store.Store.PruneHistory | cmd/debridup/database.go:270-320 | exactly the checks before the cutoff go, an event keeps its reference exactly while its check is stored, nothing else changes, and the cache agrees again, straddling buckets included |
| Store.PrunedBucket | cmd/debridup/database.go:284-311 | a cutoff empties the buckets before its own and leaves the later ones alone |
| Store.ClearingIsNeeded | cmd/debridup/database.go:277-283 | deleting expired checks outright would pass the foreign key exactly when no event names one |
| Store.OwnChecksOnly | cmd/debridup/main.go:1434-1441 | after a reset removed a monitor's events, no remaining event names one of its checks, because events name checks of their own monitor |
| Invariants.ResetSeparates | cmd/debridup/main.go:1434-1447 | a reset of one monitor keeps every check, state row, incident and event log of all others and leaves none of its own |
| Invariants.PruneIsExact | cmd/debridup/database.go:270-283 | pruning keeps exactly the checks from the cutoff on and exactly the references to them |
| Store.Store.ResetHistory | cmd/debridup/main.go:1406-1448 | nothing of the monitor stays and everything of the others does, log by log; or everything goes; an unknown monitor is reported and nothing changes |
| Store.Store.DeleteMonitor | cmd/debridup/main.go:1337-1380 | the monitor goes with everything stored for it and everything of the others stays, log by log; an unknown monitor is reported and nothing changes |
| Dashboard.WindowShape | cmd/debridup/dashboard.go:110-121 | the window is aligned, spans its number of buckets and ends with the bucket holding the second before now |
| Dashboard.RangesSpanDays | cmd/debridup/dashboard.go:84-92 | the three ranges span one, seven and thirty days |
| Dashboard.PointsAreTheRows | cmd/debridup/dashboard.go:236-250 | every stored row of the window is read once, in order, and nothing else |
| Dashboard.Aggregate | cmd/debridup/dashboard.go:307-319 | the loop sums totals and healthy checks, takes the slowest, and goes on counting today's checks from the providers before |
| Dashboard.TotalsExact | cmd/debridup/dashboard.go:307-323 | totals, healthy checks and slowest from the rollups equal those of the raw completed checks of the window |
| Dashboard.MidnightStartsToday | cmd/debridup/dashboard.go:183-184 | midnight is the start of the UTC day that holds now |
| Dashboard.ChecksTodayExact | cmd/debridup/dashboard.go:295-318 | over all providers ChecksToday is the raw count from midnight to the end of the filling bucket, and the count before now exactly when no completed check lies in between |
| Dashboard.ChecksTodaySameForEveryRange | cmd/debridup/dashboard.go:295-318 | when all checks precede now, 24h, 7d and 30d report the same ChecksToday, for any list of monitors |
| Dashboard.SeriesFromRollups | cmd/debridup/dashboard.go:368-391 | degenerate input gives no points, otherwise one slot per bucket, from the stored row or empty |
| Dashboard.SlotShowsRow | cmd/debridup/dashboard.go:376-389 | a slot shows the stored row of its bucket, or an unknown point |
| Dashboard.DenseSeries | cmd/debridup/dashboard.go:368-391 | the series has exactly the range's number of points, one width apart, last < now <= last + width, and sums to the raw checks |
| Dashboard.OverlayIncidentStates | cmd/debridup/dashboard.go:397-411 | in place, a point becomes an outage exactly when an incident overlaps its bucket; no measurement changes |
| Dashboard.OverlapIsMeeting | cmd/debridup/dashboard.go:402-408 | the overlap test is a shared second, or an incident of no length inside the bucket |
| WindowPercentiles.WeightedPercentile | cmd/debridup/dashboard.go:420-453 | the estimate is the weighted sample of the rank, None exactly without samples |
| WindowPercentiles.SeekWeight | cmd/debridup/dashboard.go:441-453 | the walk always finds the sample of the target weight, so the return after the loop is never reached |
| WindowPercentiles.EstimateWithinShares | cmd/debridup/dashboard.go:413-453 | over any aligned window with N raw checks, N/4 are at or below the median estimate and over N/4 at or above; for p95, 0.9025 N and over 0.0025 N |
| WindowPercentiles.ProviderFiguresOrdered | cmd/debridup/dashboard.go:320-326 | a provider with checks has P50 <= P95 <= slowest |
| Snapshot.FilterLosesNothing | cmd/debridup/dashboard.go:259-264 | the incident query drops no incident, opened before now, that overlaps a bucket of the window |
| Snapshot.Timeline | cmd/debridup/dashboard.go:303-305 | each slot has the counts and the nearest-rank p50 and p95 of the raw checks of its bucket, and is an outage exactly when a stored incident of the monitor, opened before now, overlaps it, else fine exactly when it has checks |
| Snapshot.ProviderSnapshot | cmd/debridup/dashboard.go:295-326 | one provider's counts, estimates and timeline from the stored rows are exact, or within their shares, against the raw checks |
| Snapshot.DashboardSnapshot | cmd/debridup/dashboard.go:158-326 | the provider list and ChecksToday of a response: one exact provider per monitor, and the raw count over all of them |
| EdgeCases.InstantIncident | cmd/debridup/main.go:941-967 | a failing and a healthy check in one second, with thresholds 1, leave an incident resolved in the second it opened |
| EdgeCases.InstantIncidentShown | cmd/debridup/dashboard.go:397-411 | such an incident covers no second and still shows as an outage, unless its second starts the bucket |
| EdgeCases.CheckAtNowCounted | cmd/debridup/dashboard.go:314-318 | a completed check recorded at now, inside a bucket, makes ChecksToday exceed the count before now |
| Overview.Coverage | cmd/debridup/main.go:1608-1632 | bucket sums of one table state plus the raw partial bucket of a later one; over one state, the raw total and eligible counts at or after any cutoff, which differ by exactly the refused credentials |
| Overview.DowntimeIsSeconds | cmd/debridup/main.go:1719-1733 | for incidents that do not overlap, the summed downtime is the number of covered seconds and the cap is idle |
| Overview.ConfirmedAvailability | cmd/debridup/main.go:1711-1736 | no figure without an observed window, full for an empty one, otherwise the capped downtime, which for disjoint incidents is the covered seconds |
| Overview.ListedCoverAll | cmd/debridup/main.go:1658-1704 | the incidents the overview filters out cover no second of the observed window |
| Overview.OverviewAvailability | cmd/debridup/main.go:1598-1606 | first check, window, listed incidents and figure together: availability is the observed seconds no incident of the monitor covers |
| RecentLatency.P95 | cmd/debridup/main.go:1634-1656 | no figure exactly without a healthy check, failure exactly when too few samples are left for the second query, otherwise the sample of the rank the count asked for, though the table may change between the queries |
| RecentLatency.SameStateSameSample | cmd/debridup/main.go:1634-1656 | over one table state the second query always finds its sample, which is the 95th percentile, even if the queries settle ties differently |
| RecentLatency.NewestTaken | cmd/debridup/main.go:1638-1641 | what the two queries are assumed to take always exists: the newest rows of the log |
| RecentLatency.WholeWindowExact | cmd/debridup/main.go:1634-1656 | up to a thousand healthy checks, the figure is the percentile of all of them, whatever order ties come in |
| Coordinator.RunCoordinator.Claim | cmd/debridup/scheduler.go:52-78 | the new state and result are those of the scheduled-claim step |
| Coordinator.RunCoordinator.ClaimManual | cmd/debridup/scheduler.go:80-94 | the new state and result are those of the manual-claim step |
| Coordinator.RunCoordinator.Release | cmd/debridup/scheduler.go:108-117 | a release frees a slot only if the monitor is in flight |
| Coordinator.BoundedAndConserved | cmd/debridup/scheduler.go:52-117 | over every interleaving, active is the number of monitors in flight, at most the limit, and claims minus effective releases; skipped overlaps are counted exactly |
| Coordinator.PendingUntilConsumed | cmd/debridup/scheduler.go:56-100 | an immediate request waits exactly until an accepted scheduled claim or a deletion |
| Coordinator.InFlightUntilReleased | cmd/debridup/scheduler.go:63-117 | a monitor is in flight exactly while an accepted claim is unreleased |
| Coordinator.ManualAcceptedIff | cmd/debridup/scheduler.go:80-94 | a manual run starts exactly when no run of the monitor is in progress and a slot is free |
| Coordinator.ManualAnswer | cmd/debridup/scheduler.go:80-94 | a manual run is told overlap exactly when a run of the monitor is unreleased, and capacity exactly when none is and the limit is reached |
| Coordinator.ScheduledAcceptedIff | cmd/debridup/scheduler.go:52-78 | a scheduled run also needs a waiting request, or an interval to have passed since the latest stamp, told from the earlier critical sections alone |
| Coordinator.ScheduledAnswer | cmd/debridup/scheduler.go:52-78 | a scheduled claim is told not due exactly without a waiting request or passed interval, then overlap and capacity as a manual run |
| Coordinator.WaitingIsServed | cmd/debridup/scheduler.go:56-77 | a waiting request lets the next claim that finds room through and is then used up; without room it keeps waiting |
| Coordinator.LastRunIsLastStamp | cmd/debridup/scheduler.go:57-75 | the stored last run is the time of the latest accepted claim or skipped overlap since the monitor was forgotten |
| Coordinator.ScheduledRunsAreSpaced | cmd/debridup/scheduler.go:57-62 | without a waiting request, an accepted scheduled claim comes at least one interval after that time |
| Protocol.StepKeepsInv | cmd/debridup/scheduler.go:149-182 | every step of runs, requests, resets, deletions, pruning and restarts keeps exclusion, time order and the table invariants |
| Protocol.OneRunPerMonitor | cmd/debridup/scheduler.go:63-76 | in every reachable state at most one run checks a monitor |
| Protocol.RecordedInOrder | cmd/debridup/scheduler.go:166-182 | in every reachable state a monitor's recorded checks are in time order and its stored state is what they lead to |
| Protocol.DownIffHistoryConfirms | cmd/debridup/main.go:912-967 | in every reachable state a monitor is down exactly when its history since the last reset confirms it |
| Protocol.IncidentsNeverOverlap | cmd/debridup/main.go:914-967 | in every reachable state no second belongs to two incidents of a monitor |
| Protocol.IncidentsFollowHistory | cmd/debridup/main.go:889-1035 | in every reachable state a monitor's incidents are exactly those its history gives rise to |
| Protocol.EveryIncidentIsTold | cmd/debridup/main.go:941-967 | in every reachable state every incident is dated to the first failure of a run that confirmed it while the monitor was up |
| Protocol.EveryOpeningHasItsIncident | cmd/debridup/main.go:950-957 | in every reachable state no confirmed failure of an up monitor is without its incident |
| Protocol.AvailabilityExact | cmd/debridup/main.go:1711-1736 | in every reachable state the downtime summed for a monitor is the number of observed seconds some incident covers, which is the number its recorded checks have it down, and the cap never applies |
| Paging.ListAllChecks | cmd/debridup/dashboard.go:652-729 | bad limits and cursors are refused; otherwise the first rows after the cursor, and the last returned row as the next cursor if more follow |
| Paging.PageMember | cmd/debridup/dashboard.go:681-706 | a page holds exactly the rows after its cursor that the next page will not be asked for, newest first |
| Paging.UnchangedTableListedOnce | cmd/debridup/dashboard.go:681-729 | over an unchanged table, following the cursors with any page sizes ends and lists every row once, newest first |
| Paging.StayingRowListedOnce | cmd/debridup/dashboard.go:652-729 | with any inserts and deletes between pages, and any page sizes, a row that stays is on exactly one page |
| Sessions.SessionStore.Load | cmd/debridup/session.go:45-70 | exactly the expired rows are deleted and the rest becomes the mirror |
| Sessions.SessionStore.PruneMemory | cmd/debridup/session.go:103-112 | the memory half drops exactly the expired sessions |
| Sessions.SessionStore.PruneRows | cmd/debridup/session.go:103-113 | the table half deletes exactly the expired rows, or nothing when it fails |
| Sessions.MirrorAgrees | cmd/debridup/session.go:72-113 | between any two halves, even after failed table deletes, every unexpired session in memory is in the table with its expiry |
| Sessions.RevokedStaysRevoked | cmd/debridup/session.go:95-100 | once revocation begins the session is never valid again in the process |
| Sessions.IssuedStaysValid | cmd/debridup/session.go:72-93 | an issued session nobody revokes stays valid until it expires |
| Sessions.RestartRevivesIffRowSurvived | cmd/debridup/session.go:45-113 | at a restart any time after a revocation began, the session is valid exactly when its row was there, has not expired, and no delete of it succeeded |
| LoginLimiter.Limiter.LockedFor | cmd/debridup/session.go:149-164 | the remaining wait while a lock is in force, else 0; only the client's own record can go, and only when no lock is in force and its window has passed |
| LoginLimiter.Limiter.RecordFailure | cmd/debridup/session.go:166-188 | the new records after a failure: a stale one starts over, the fifth failure locks |
| LoginLimiter.Limiter.ForgetStale | cmd/debridup/session.go:214-222 | a record stays exactly while its lock has not ended or its failure window is running |
| LoginLimiter.LockPersists | cmd/debridup/session.go:149-222 | with times that do not go back, no operation but the client's own success drops or shortens a lock in force |
| LoginLimiter.FailureShortensIff | cmd/debridup/session.go:166-188 | for any record and any time, a failure shortens the lock in force exactly when the window has passed, or it is the fifth and its lockout ends earlier |
| LoginLimiter.LateFailureShortensIff | cmd/debridup/session.go:166-188 | with times in order so far, a failure that arrives late shortens the lock exactly when it is the fifth and its lockout ends earlier |
| LoginLimiter.LateFailuresShorten | cmd/debridup/session.go:166-188 | five failures stamped over a minute before the lock do shorten it |
| LoginLimiter.UnthreatenedLockPersists | cmd/debridup/session.go:149-222 | in any order of times, a lock persists through operations that meet none of the failing conditions |
| LoginLimiter.LocksAreBounded | cmd/debridup/session.go:178-186 | no lock reaches more than fifteen minutes ahead |
| LoginLimiter.FifthFailureLocks | cmd/debridup/session.go:166-188 | four failures do not lock a new client, the fifth inside the window locks it for a minute |
| LoginLimiter.CountIsHeld | cmd/debridup/session.go:149-222 | with times in order, a client's record holds its failures of the running window, whatever is asked, forgotten or recorded for others in between |
| LoginLimiter.FifthRunningFailureLocks | cmd/debridup/session.go:166-188 | a failure locks its client for at least the base time when four are running, and sets no lock otherwise |
| LoginLimiter.FiveFailuresInWindowLock | cmd/debridup/session.go:149-222 | five failures inside one window lock the client after the fifth, with any waits asked, records forgotten and other clients in between |
| LoginLimiter.LateFailureStartsOver | cmd/debridup/session.go:166-176 | a failure more than the window after the first running one counts as the first again |
| LoginLimiter.RepeatedLockoutsDouble | cmd/debridup/session.go:178-184 | each further lockout doubles, up to the cap |

## Left out

- HTTP handling, JSON, cookies and static files: plumbing around library code.
- Provider requests, connectivity probes, notifications and cryptography: a check result is an arbitrary input.
- SQLite itself, busy errors and the other migrations: a transaction is one atomic step, and a run may end without recording.
- `notification_outbox`: it is written outside the transaction; its foreign key to incidents is not modelled.
- Incident summaries, HTTP status and error texts of checks, monitor names and secrets: carried along, never read by the modelled code.
- The `OverallState` fold of a snapshot depends on provider order, and display states are settled by one branch.
- The report and the incident and check listings other than the paged log: plain selections.
- 64-bit wrap-around of times and counters, and floating-point rounding: integers are unbounded, availability is a fraction of seconds, percentiles are exact.
- Cursor text: a cursor is the pair of numbers it encodes, and the incident column of a log row is not modelled.
- Sub-second times in the dashboard window: now is a number of whole seconds.
- The overview runs its queries outside a transaction: coverage and p95 are stated for a table that changes between their two queries; no relation between the figures of one response is claimed.
- Hash slots of the sign-in limiter: a library semaphore.
- Sessions.MirrorAgrees: new ids are assumed unused and only issued ids can be revoked, which the random 256-bit ids and the cookie signature provide.
