# ServerStatus: verified core

ServerStatus is a monitoring dashboard: agents on the monitored servers report traffic counters, host state and the
results of monitoring tasks; the dashboard accounts for traffic per billing cycle, keeps monitor history, decides
alerts and dispatches tasks. This project models the parts of it where an off-by-one or a lost update would go
unnoticed for weeks, and proves what they keep over whole runs:

- `HistoryStore` (with `ByteText`): monitor history under the keys `monitor_history:{monitor}:{nanos}` in a store that
  iterates in byte order. The range queries with their early exits return exactly the naive filter's answer, and the
  paged clean-up is the one-pass filter, with saves coming in between its transactions.
- `Traffic`, `Calendar` (with `CalendarForm`), `BillingCycle`, `CycleReset`: quota accounting against a ghost count of the
  bytes really sent, the calendar arithmetic of the billing cycle, and the once-per-cycle reset.
- `MonthlyStatus`, `StatusRing`, `PingFlush`: the aggregates of the service sentinel.
- `Dispatch`: the wrap-around task dispatcher. `Migration`: the resumable batch migration under crashes.
- `Sampling`, `AlertSentinel` and `AlertChecks`, `Throttle`, `AuthCache`, `ServerIndex`, `IOStream`: down-sampling, the
  capped alert history and the checks that run beside edits, the notification throttle, the sharded TTL cache of agent
  secrets, the server indexes, the chunked stream.
- `Sequences`, `Sorting`, `Means`, `Arithmetic`, `Clock`, `Wrappers`: what these share.

State that the program updates in place is a class here, its loops are loops, and each method is proved against a
function or a ghost ledger whose own properties are the lemmas. Time is a parameter that does not run backwards;
delays and means are real numbers; a section under one lock is one step, except where the lock is released.

## What the code does not do

Where a property that the design suggests is false of the code, the model keeps the code and states exactly when the
property holds:

- A query misses records if its start lies before 9 September 2001 and its text sorts after that of 10^18
  (`ReverseScanExact`, `ForwardScanExact`); the forward query also returns later records when its range ends before that
  day and a 19-digit text lies between the texts of its bounds.
- The query behind the older monitor-history call keeps the oldest records when there are more than its limit
  (`GetByServerAndMonitor`, `OldestIsNewestExactly`).
- A record's key names its monitor and time but not the server: of two servers' records of one monitor at the same
  nanosecond only the later save stays (`KeysClashExactly`, `SavesLoseNothingExactly`).
- A stored count from an earlier cycle that is written late and comes back by a reload or a synchronisation overcounts
  by up to a whole cycle (`LateWriteOvercounts`); it is safe exactly when it is of the current cycle or no more than has
  been counted in it. The reset on the first of the month keeps the baseline, so that bytes from before it are counted
  after it (`ZeroingOvercounts`); it is safe exactly without a baseline that a reading can exceed (`RecountSafeExactly`).
- The spike limit stops false readings only above it (`MisreadSafeExactly`), and not those below the counter's
  (`FalseZeroOvercounts`).
- The synchronisation of counts with a relational store loses the bytes counted since the last save
  (`SyncKeepsCountExactly`).
- Regrouping a server between the start of a cycle and its first checked report loses that cycle's reset
  (`RegroupLosesResetExactly`).
- Month rules anchored on the 29th to the 31st drift unless all months that they come to have the day
  (`MonthRuleKeepsDayExactly`), year rules anchored on 29 February unless all their years are leap years
  (`YearRuleKeepsDateExactly`); a zero interval never ends (`LoopEndsExactly`).
- A report that comes in between the midnight refresh and the midnight shift is not in the finished day's slot
  (`FinishedDaysExactly`). At start-up, records of the current day are added to yesterday's slot, and those made on the
  stroke of midnight to the day before theirs (`LoadedSlotsExactly`); the delay that a loaded slot shows is the plain
  mean of its records' means, whatever their counts (`PlainMeanExactly`).
- Truncating the ring of recent results keeps its last slots, which are the newest results only right after the ring
  has wrapped around (`TruncationKeepsNewestExactly`); the comment at the truncation says that the newest are kept.
- The dispatcher walks for ever when its cursor lies past the end of the server list, unless the task is for one server
  and there is one (`WalkEndsExactly`). A task with a Cover value other than 0 and 1, which the member API stores as it
  is given, and a server list that shrinks bring it there (`ShrunkListHangs`); tasks with Cover 0 or 1 alone never do
  (`TasksForAllRun`).
- Migrated history rows expire by their row id and not by their age (`MigratedRowsExpireById`), and without resumption a
  migration stops after one batch and reports success (`FinishedIsCompleteExactly`).
- A rule over more than ten samples never fires (`CappedRunExactly`). A check that is running during an edit
  writes back what it copied before: a failing state then brings a recovery that no incident precedes
  (`EditAlternatesExactly`).
- The three-hour repeat delay of notifications does not hold when attempts are more than ten minutes apart
  (`RepeatDelayHoldsExactly`).
- The authentication cache accepts a removed secret for up to its time to live (`CheckAfterRemoval`): nothing in the
  repository calls the functions that would invalidate it.
- Giving a server a secret that another one has, or an id that is in use (the fallback id 1), breaks the indexes
  (`EditServer`, `AddServer`). A batch request with a server that is not listed, or is deleted twice, fails half-way
  (`BatchUpdateServerGroup`, `BatchDeleteServer`), and the server lock stays taken.

## Model

| member | source | states |
|---|---|---|
| ByteText.TextOrderIsNumeric | db/model_ops.go:127 | between decimal texts of one width, byte order is numeric order and texts determine numbers |
| ByteText.TextOrderIsPadded | db/model_ops.go:127 | a text comes before that of a shorter number exactly if its number is below that number with zeros appended |
| ByteText.DigitsWidth | db/model_ops.go:127 | a decimal text has k digits exactly when the number lies between the powers of ten |
| ByteText.ZeroByteSuccessor | db/model_ops.go:407-412 | a key followed by a zero byte is the immediate successor of the key: what is below it is the key or below the key |
| ByteText.PrefixContiguous | db/model_ops.go:328-331 | the keys with a prefix are contiguous in byte order |
| ByteText.ParseIntRoundTrip | db/model_ops.go:401 | parsing undoes formatting on every 64-bit integer |
| HistoryStore.MonitorPrefixSeparates | db/model_ops.go:309-331 | a monitor's prefix matches a key exactly if the key is that monitor's: 1 is kept apart from 12 |
| HistoryStore.WideTextOrder | db/model_ops.go:311-312 | texts of 19-digit nanosecond times are ordered, and equal, as the times |
| HistoryStore.MonitorHistoryOps.SaveMonitorHistory | db/model_ops.go:126-133 | a save writes the record under its own key and changes nothing else |
| HistoryStore.KeysClashExactly | db/model_ops.go:127 | two records share a key if and only if they have the same monitor and time, whatever their servers |
| HistoryStore.SaveKeepsRecords | db/model_ops.go:126-133 | saving keeps the store well formed and replaces only a record of the same monitor and time |
| HistoryStore.SavesLoseNothingExactly | db/model_ops.go:126-133 | over any sequence of saves and any store, every stored and saved record is there afterwards if and only if no two different ones have the same monitor and time |
| HistoryStore.MonitorHistoryOps.GetRangeReverseLimit | db/model_ops.go:304-370 | the answer is the newest of the matching records in text range, newest first, at most limit (1000 when not positive) |
| HistoryStore.EarlyExitMissesNothing | db/model_ops.go:328-341 | both early exits of the reverse scan are sound: no match lies at or below the key it stops at |
| HistoryStore.NewestCount | db/model_ops.go:357-359 | the reverse query returns min(limit, N) records |
| HistoryStore.NewestIsUnique | db/model_ops.go:304-370 | the newest matches, newest first, are one sequence only, so the query's answer is fixed in contents, number and order |
| HistoryStore.ReverseScanExact | db/model_ops.go:309-351 | the scan sees every record with start <= t < end of every store if and only if the range ends by 10^18 ns or the start's text does not sort after it |
| HistoryStore.NewestAnswer | db/model_ops.go:304-370 | what the reverse query gives, in terms of the stored records alone: records of that server and monitor with start <= t < end, newest first, and all of them but those older than as many as the limit allows |
| HistoryStore.MonitorHistoryOps.GetMonitorHistoriesByMonitorID | db/model_ops.go:137-181 | the forward query returns exactly the monitor's records in the text range, oldest first |
| HistoryStore.ForwardExitMissesNothing | db/model_ops.go:137-181 | the forward scan stops only where no record of the range can follow |
| HistoryStore.ForwardScanExact | db/model_ops.go:137-181 | for every range, the text range is the closed time range for every store if and only if the start's text is ordered or, for a range that ends before 10^18 ns, no 19-digit text lies between the bounds padded to 19 digits |
| HistoryStore.MonitorHistoryOps.GetByServerAndMonitor | db/model_ops.go:240-298 | the query that scans from the monitor's first key returns the oldest limit records with start < t < end, sorted newest first |
| HistoryStore.OldestAnswer | db/model_ops.go:240-298 | what that query gives, in terms of the stored records alone: records of that server and monitor with start < t < end, and all of them but those newer than as many as the limit allows |
| HistoryStore.ForwardStep | db/model_ops.go:254-283 | each key extends what the forward scan has seen: every match below the position, oldest first |
| HistoryStore.OldestIsNewestExactly | db/model_ops.go:240-370 | the two limited queries agree on the same matches if and only if there are no more of them than the limit |
| HistoryStore.MonitorHistoryOps.ScanPage | db/model_ops.go:387-417 | one page lists, once each, only expired keys, and every one from the cursor up to where the next page starts |
| HistoryStore.MonitorHistoryOps.DeleteBatches | db/model_ops.go:422-444 | the batches delete exactly the listed keys, count them, and leave saves that came in between alone |
| HistoryStore.MonitorHistoryOps.CleanupOldMonitorHistories | db/model_ops.go:373-453 | with any newer saves between scan and delete, the store is the one-pass filter of the original plus those saves, the count is exact, and the loop ends |
| HistoryStore.PageShrinksRest | db/model_ops.go:407-412 | the key + 0 cursor leaves fewer keys to scan |
| HistoryStore.SavedKeyExpires | db/model_ops.go:399-405 | a saved record's key is expired exactly if its time is at or before the cutoff |
| HistoryStore.RemoveExpiredKeepsNewer | db/model_ops.go:373-453 | what clean-up stands for: the records after the cutoff stay, all others go, and foreign keys are untouched |
| Traffic.Uint64SaturatingAdd | pkg/utils/utils.go:94-99 | the sum, or the greatest uint64 where the sum does not fit |
| Traffic.PlausibleTrafficDelta | model/traffic.go:83-104 | the limit lies between 10 GiB and 10 TiB |
| Traffic.PlausibleDeltaMonotone | model/traffic.go:83-104 | a longer silence never makes less traffic plausible |
| Traffic.PlausibleExactly | model/traffic.go:83-104 | an increase is plausible if and only if it is at most 10 GiB, or at most 10 TiB and 50 GiB for each whole second, of which there is at least one |
| Traffic.TrafficCounter.ApplyTrafficDirection | model/traffic.go:106-153 | the baseline moves to the reading, only a plausible increase over an existing baseline is counted, saturating, and each flag is set exactly in its case |
| Traffic.Server.ApplyTrafficReport | model/traffic.go:51-81 | a first report only sets baselines, other reports count both directions, and the shown totals become the cumulative counts |
| Traffic.Server.HandleHostReport | service/rpc/server.go:676-722 | a reboot is a boot time that went back or forward by over an hour; it drops the baselines and takes the stored counts where they can be read |
| Traffic.Server.ResetCycle | service/rpc/server.go:951-956 | counts and baselines of both directions are cleared |
| Traffic.Server.ZeroCounts | service/singleton/singleton.go:1100-1125 | the monthly reset clears the counts and keeps the baselines |
| Traffic.Server.SyncFromDB | service/singleton/singleton.go:1219-1255 | stored counts, where they can be read, replace the counts in memory, and the baselines stay |
| Traffic.RunAddsUp | model/traffic.go:139-151 | over any run of reports, saturating step by step is saturating the total once |
| Traffic.RunCountsRises | model/traffic.go:106-153 | over any run of reports, with restarts, spikes and first readings, exactly the plausible rises from each reading to the next are counted, up to the cap, and the last reading is the baseline |
| Traffic.SmoothRunTelescopes | model/traffic.go:128-151 | without restarts or rejections the accepted increases sum to last reading minus baseline |
| Traffic.SmoothRunCounts | model/traffic.go:106-153 | without restarts or rejections the count rises by last reading minus baseline, capped at 2^64-1, however the reports are split |
| Traffic.CountsOnFrom | model/traffic.go:128-142 | after a reading below the baseline, a rejected spike or a first reading, the count rises by the last reading minus that one |
| Traffic.CountsOnAfter | service/rpc/server.go:709-721 | after a first report, a reboot, a cycle reset, or with a non-zero snapshot without its flag: which reading counting goes on from, and the exact count |
| Traffic.SyncKeepsCountExactly | service/singleton/singleton.go:1219-1255 | with a synchronisation between such reports, the count ends as without it if and only if the store holds the memory count, or both reach the cap |
| Traffic.AcceptedIsSent | model/traffic.go:128-151 | what a reading of the counter adds never exceeds what was sent since the last report, across restarts, wraps and a false reading before it |
| Traffic.StepKeepsAccounted | model/traffic.go:106-153 | every safe step (reading, false reading, restart, reboot, save, late write, load, reload, synchronisation, cycle and monthly reset) keeps the count within the bytes sent in the cycle |
| Traffic.RecountSafeExactly | service/singleton/singleton.go:1100-1125 | for any counts in memory, in the store, on display, on their way to the store and read from it: after a reload or a synchronisation no safe run ever overcounts, whatever was sent, if and only if the count that comes back is of the current cycle or no more than has been counted in it; after the monthly reset, if and only if there is no baseline that a reading can exceed |
| Traffic.MisreadSafeExactly | model/traffic.go:139-151 | after a false reading not below the counter's no safe run ever overcounts, whatever was sent, if and only if there is no baseline, or the reading does not exceed it, or it is rejected as a spike, or the count is at the cap |
| Traffic.NeverOvercounts | service/rpc/server.go:683-721 | over whole runs of safe steps, the count never exceeds the bytes sent since the cycle began |
| Traffic.NewServerAccounted | model/traffic.go:106-127 | a new server meets the invariant that runs keep |
| Traffic.LateWriteOvercounts | service/rpc/server.go:683-721 | a save that lands after the reset and is read and reloaded brings back all of the last cycle's bytes |
| Traffic.ZeroingOvercounts | service/singleton/singleton.go:1100-1125 | bytes sent between the last report and the monthly reset are counted in the new month |
| Traffic.FalseZeroOvercounts | model/traffic.go:134-151 | a false reading of zero between two true ones has all bytes counted twice |
| Calendar.MonthOfIs | model/rule.go:321-326 | every day lies in one month only |
| Calendar.AddDateIncreases | model/rule.go:314-338 | adding years, months or days with day overflow strictly increases; adding nothing stays |
| Calendar.DayOfAddDate | model/rule.go:314-338 | adding a date moves the day and keeps the time of day |
| Calendar.AddDaysExact | model/rule.go:327-338 | adding days adds exactly that many days |
| Calendar.DayKeptExactly | model/rule.go:321-326 | the day of the month survives a move by months exactly when the month reached is long enough, and otherwise falls in the month after it |
| Calendar.YearsKeepDate | model/rule.go:315-320 | whole years later every date but 29 February has come around |
| CalendarForm.MonthStartIs | model/rule.go:314-326 | every month starts on the day that the closed form gives: 365 days a year, the leap days, and the days of the months before it |
| BillingCycle.GetTransferDurationStart | model/rule.go:305-346 | the start of the current window: the anchor moved on by the whole cycles behind now, or the fallbacks |
| BillingCycle.GetTransferDurationEnd | model/rule.go:349-391 | the end of the same window |
| BillingCycle.StepToCurrent | model/rule.go:314-338 | the loop ends with the current start and one step after it |
| BillingCycle.StepIncreases | model/rule.go:314-338 | every step moves on; a zero interval does not move |
| BillingCycle.CurrentIsUnique | model/rule.go:317-320 | only one number of whole cycles lies behind a time |
| BillingCycle.HourWindow | model/rule.go:339-342 | start <= now < end, a whole number of intervals from the anchor's second |
| BillingCycle.CalendarWindow | model/rule.go:314-338 | the start is an iterate of the step from the anchor, start <= now <= end, and now is the start only at the anchor |
| BillingCycle.SameWindow | model/rule.go:314-338 | times inside one calendar window agree on its start |
| BillingCycle.SameHourWindow | model/rule.go:339-342 | times inside one hour window agree on its start |
| BillingCycle.DayWindow | model/rule.go:327-338 | week and day windows in closed form: the last whole number of weeks or days of 24 hours after the anchor, and one more |
| BillingCycle.WindowHoldsNow | model/rule.go:305-346 | start <= now <= end once the anchor has passed; an hour rule's window is as long as its interval; without an anchor it is the last hour |
| BillingCycle.WindowsTile | model/rule.go:349-391 | the end of a window is the start of the next one |
| BillingCycle.LoopEndsExactly | model/rule.go:316-338 | the stepping loops end if and only if the interval is not zero or the anchor has not passed |
| BillingCycle.MonthRuleKeepsDayExactly | model/rule.go:321-326 | a month rule keeps its anchor's day for ever if and only if each of the first 4800 months that it comes to has that day |
| BillingCycle.MonthDayKeptExactly | model/rule.go:321-326 | month rules keep the anchor's day for every anchor and interval if and only if the day is at most 28 |
| BillingCycle.LongDayDrifts | model/rule.go:321-326 | a January anchor on the 29th, 30th or 31st drifts in one step |
| BillingCycle.YearRuleKeepsDateExactly | model/rule.go:315-320 | a year rule keeps its anchor's date for ever if and only if it is not 29 February or each of the first 400 years that the rule comes to is a leap year |
| BillingCycle.YearDateKeptExactly | model/rule.go:315-320 | year rules keep the anchor's date for every interval if and only if it is not 29 February |
| BillingCycle.LeapDayDrifts | model/rule.go:315-320 | a yearly cycle anchored on 29 February is on 1 March from its second start on, for ever |
| CycleReset.TrafficService.CheckAndResetCycleTraffic | service/rpc/server.go:829-957 | the throttle, the first observation, and the reset of both directions, for this server only |
| CycleReset.TrafficService.RegroupServer | cmd/dashboard/controller/member_api.go:1253-1298 | a regrouped server is a copy with its counts but without reset time and baselines |
| CycleReset.ResetsInDistinctCycles | service/rpc/server.go:925-957 | over any monotone run of reports two resets never fall in the same cycle |
| CycleReset.ResetFallsInside | service/rpc/server.go:925-957 | a reset falls after the start of its cycle, never on it, and leaves its own time as the reset time |
| CycleReset.FirstObservationInitialises | service/rpc/server.go:899-923 | over any run, the first observation does not reset, and every reset falls in a later cycle than it |
| CycleReset.RunKeepsCheckedCycle | service/rpc/server.go:829-957 | after any run the reset time is not before the start of the last checked cycle, and the last check is under 30 seconds old |
| CycleReset.SameStart | model/rule.go:305-346 | later times in one window see the same start |
| CycleReset.ResetDone | service/rpc/server.go:829-957 | after any report at least 30 s past the start of its cycle, the reset for that cycle has been done |
| CycleReset.RegroupLosesResetExactly | cmd/dashboard/controller/member_api.go:1253-1298 | a server due for a reset is reset in a cycle if and only if it is not regrouped before the cycle's first checked report |
| MonthlyStatus.ServiceItem.LoadMonitorHistory | service/singleton/servicesentinel.go:351-374 | after loading, each slot shows the sums of the records that fall into it and the plain mean of their means, beside what its day's records report; the totals are the slot sums |
| MonthlyStatus.ServiceItem.AddRecord | service/singleton/servicesentinel.go:357-373 | one record changes its slot's counts and mean, and the totals, and nothing else |
| MonthlyStatus.ServiceItem.HandleReport | service/singleton/servicesentinel.go:644-651 | one report is counted once in today, with the exact running mean |
| MonthlyStatus.ServiceItem.LoadStats | service/singleton/servicesentinel.go:449-457 | today's slot shows today's counts, the totals stay the slot sums, and no subtraction underflows |
| MonthlyStatus.ServiceItem.ShiftDay | service/singleton/servicesentinel.go:139-158 | every slot moves one day back, the totals lose the oldest day, and today starts empty |
| MonthlyStatus.ServiceItem.RefreshMonthlyServiceStatus | service/singleton/servicesentinel.go:131-159 | the midnight job is a refresh, the reports that come in between, and a shift |
| MonthlyStatus.WindowAfterShift | service/singleton/servicesentinel.go:139-150 | the thirty-day window drops its first day, and the sums drop with it |
| MonthlyStatus.WindowAfterLoad | service/singleton/servicesentinel.go:449-457 | refreshing replaces the last slot, and the sums change by the difference |
| MonthlyStatus.FinishedDaysExactly | service/singleton/servicesentinel.go:131-159 | over any run, all days that finish during it show exactly their reports if and only if no report comes between a midnight refresh and its shift |
| MonthlyStatus.EveryReportInItsDay | service/singleton/servicesentinel.go:644-651 | over any run of reports, refreshes and shifts, every day's tally is the number of successes, the number of failures and the sum of the delays of the results reported on it |
| MonthlyStatus.FinishedDaysShowTheirReports | service/singleton/servicesentinel.go:131-159 | where every shift follows a refresh, a finished day's slot shows the day's successes, its failures and their mean delay |
| MonthlyStatus.RefreshShowsToday | service/singleton/servicesentinel.go:449-457 | after a refresh today's slot shows the results reported since midnight |
| MonthlyStatus.ServiceItem.TotalsAreSums | service/singleton/servicesentinel.go:436-469 | TotalUp and TotalDown are the sums of the slots |
| MonthlyStatus.PastIsKept | service/singleton/servicesentinel.go:139-150 | a finished day never changes |
| MonthlyStatus.DayIndexExact | service/singleton/servicesentinel.go:357 | a stored record lands in its own day's slot if and only if the day is over and the record is not from the stroke of its midnight; the other two landings are given |
| MonthlyStatus.LoadedSlotsExactly | service/singleton/servicesentinel.go:351-374 | over whole record lists, every past day's slot takes exactly the records of its day if and only if no record is of today or from the stroke of a midnight of the last days |
| MonthlyStatus.SlotShows | service/singleton/servicesentinel.go:365-373 | all records of a slot count towards its Up and Down, and only those that tell a delay towards its delay |
| MonthlyStatus.LoadedCountsAreTheDays | service/singleton/servicesentinel.go:351-374 | where every slot takes its own day's records, the loaded Up and Down are those that the day's records report |
| MonthlyStatus.PlainMeanExactly | service/singleton/servicesentinel.go:361-366 | a slot's plain mean of its records' means is the mean of the reports behind them, for all delays, if and only if all the records have equally many successes |
| MonthlyStatus.LoadedToday | service/singleton/servicesentinel.go:351-374 | without records of tomorrow, today's slot starts in step with today's counts |
| StatusRing.CurrentStatus.HandleServiceReport | service/singleton/servicesentinel.go:653-705 | a result is sampled when over 30 s have passed, the index stays in range, and the current counts and mean are those of the ring |
| StatusRing.SampledExactly | service/singleton/servicesentinel.go:653-677 | a report is sampled if and only if it comes after the first report and more than 30 seconds after the last sample |
| StatusRing.CurrentStatus.CountRing | service/singleton/servicesentinel.go:686-705 | the counts over the filled slots and the exact mean of the successes |
| Means.CountsArePositions | service/singleton/servicesentinel.go:686-705 | Up counts the positions of successes, Down those of failures, and every result is one of them |
| Means.MeanOverSuccesses | service/singleton/servicesentinel.go:692-705 | the mean delay is taken over the successes, and is 0 without any |
| Means.DelaysAddUp | service/singleton/servicesentinel.go:692-705 | the sum of delays takes a success with its delay and a failure with none, and adds up over parts |
| StatusRing.CurrentStatus.LimitDataSize | service/singleton/servicesentinel.go:974-985 | truncation keeps the last six slots and leaves the index in range |
| StatusRing.WriteKeepsLatest | service/singleton/servicesentinel.go:677-683 | a write keeps the ring's latest samples the latest accepted ones |
| StatusRing.FullRingIsLatest | service/singleton/servicesentinel.go:662-705 | as many samples as slots after a truncation, the ring read from its oldest slot is exactly the latest ones, and its counts are theirs |
| StatusRing.UnbrokenIsRingOf | service/singleton/servicesentinel.go:662-683 | a ring that was never truncated is the ring of the samples written to it |
| StatusRing.TruncationKeepsNewestExactly | service/singleton/servicesentinel.go:976-984 | after n samples, truncation keeps the newest ones, whatever they are, if and only if the ring has just wrapped around |
| StatusRing.TruncationCanLoseAll | service/singleton/servicesentinel.go:976-984 | a ring that has not reached its last six slots loses everything |
| PingFlush.AddResult | service/singleton/servicesentinel.go:114-122 | the running figures are the counts of the pending results and the exact mean of their successes |
| PingFlush.AddAndFlush | service/singleton/servicesentinel.go:546-558 | a full batch is flushed with its counts and its mean limited to the maximum, and the figures start over |
| PingFlush.FlushIsCapped | service/singleton/servicesentinel.go:546-558 | a flush carries its batch's counts and the lower one of the mean of its successes and the maximum |
| PingFlush.PingTable.HandlePing | service/singleton/servicesentinel.go:536-617 | per monitor and reporter: flush exactly when the batch is full; what was received, what has left and what is pending stay balanced for every source |
| PingFlush.PingTable.Evict | service/singleton/servicesentinel.go:945-957 | eviction drops only the evicted sources' pending results, and every source stays balanced |
| PingFlush.PingTable.EveryResultOnce | service/singleton/servicesentinel.go:114-129 | at any time, for every source: flushed and dropped batches followed by what is pending are the results received, in order, and the stored Up and Down plus the dropped and pending ones add up to those received |
| Dispatch.Dispatcher.Visit | cmd/dashboard/rpc/rpc.go:107-176 | the task goes to a connected, covered server; a failed send drops its stream |
| Dispatch.Dispatcher.WalkList | cmd/dashboard/rpc/rpc.go:98-178 | the loop takes the turns of the walk: whatever its turns keep holds when it stops |
| Dispatch.Dispatcher.DispatchOne | cmd/dashboard/rpc/rpc.go:86-179 | one task of any Cover, whenever its walk can end: all wanted positions in cyclic order, or the first; where the cursor and the streams end up |
| Dispatch.Dispatcher.DispatchTask | cmd/dashboard/rpc/rpc.go:85-181 | across any tasks, list changes, reconnects and failures, as long as every walk can end: each task for all goes once to every connected server that its skip list leaves (Cover 0) or names (Cover 1) and to no other, any other task to the first |
| Dispatch.TasksForAllRun | cmd/dashboard/rpc/rpc.go:143-166 | with Cover 0 or 1 every walk ends and the cursor is 0 between tasks |
| Dispatch.OnceAround | cmd/dashboard/rpc/rpc.go:98-105 | once around from any cursor visits every wanted position exactly once |
| Dispatch.VisitedMeaning | cmd/dashboard/rpc/rpc.go:98-177 | what the visited positions are, without repetition |
| Dispatch.OneServerIsNext | cmd/dashboard/rpc/rpc.go:98-178 | a task for one server goes to the first connected position at the cursor or after it, or else before it, and the cursor moves behind it; if there is none, nothing happens |
| Dispatch.WalkEndsExactly | cmd/dashboard/rpc/rpc.go:88-178 | for any task, the walk ends if and only if the list is empty, or the cursor does not lie past its end, or the task is for one server and some server will do |
| Dispatch.ShrunkListHangs | cmd/dashboard/controller/member_api.go:863 | a task stored with another Cover value, a list that shrinks and a task for all keep the dispatcher walking for ever |
| Migration.RowKeysDiffer | db/migration.go:1139 | rows with different ids never share a key |
| Migration.MonitorPrefixMatchesRow | db/migration.go:1139 | a monitor's prefix matches a migrated row's key if and only if the row is that monitor's |
| Migration.RowsInTimeOrder | db/migration.go:1139 | migrated keys of one monitor are ordered by the rows' times, if their texts are equally wide, and then by id |
| Migration.WrittenRow | db/migration.go:1138-1143 | every row that has been written is there under its key with its JSON |
| Migration.WriteRow | db/migration.go:1139-1143 | replaying a written row changes nothing; the next row extends the written prefix |
| Migration.MigrationRun.PutRow | db/migration.go:1138-1153 | one row reaches the store, or the program crashes before it |
| Migration.MigrationRun.UpdateProgress | db/migration.go:217-235 | every progressInterval rows the progress is saved; the saved cursor never runs ahead of the rows written, nor of the count saved with it |
| Migration.MigrationRun.Close | db/migration.go:133-141 | closing saves the progress as it is, also when a batch has failed and the count is ahead of the cursor |
| Migration.MigrationRun.MigrateBatch | db/migration.go:1075-1167 | one batch migrates its rows unless the table's database fails or a crash comes, keeping the invariant at every write |
| Migration.MigrationRun.Migrate | db/migration.go:1028-1222 | one start resumes behind the saved cursor and, without a failure or a crash, migrates everything that an uninterrupted pass does |
| Migration.MigrationRun.MigrateThroughCrashes | db/migration.go:1028-1222 | whatever the schedule of crashes, failures and resumes, the store ends as one uninterrupted pass leaves it |
| Migration.MigratedRowsExpireById | db/migration.go:1139 | clean-up judges a migrated row by its id and not by its age |
| Migration.FinishedIsCompleteExactly | db/migration.go:1180-1210 | a finished pass has migrated the whole table if and only if it may resume, has no batch limit, or needs one batch only |
| Sorting.SortSlice | cmd/dashboard/controller/api_v1.go:560-562 | the result is a sorted permutation |
| Sampling.PicksIncrease | cmd/dashboard/controller/api_v1.go:597-605 | rounded positions strictly increase |
| Sampling.PicksInRange | cmd/dashboard/controller/api_v1.go:597-605 | rounded positions are in range, from the first record to the last |
| Sampling.PickIsNearest | cmd/dashboard/controller/api_v1.go:597-604 | the i-th position is the whole number nearest to i * (n - 1) / (limit - 1), the higher one of two |
| Sampling.ShareMeaning | cmd/dashboard/controller/api_v1.go:586-607 | a group gives as many records as it may and has, each at most once, its first always and its last with two or more |
| Sampling.ShareTakesNearest | cmd/dashboard/controller/api_v1.go:586-607 | the i-th record of a share is the one at that position |
| Sampling.SampleMonitorHistoryGroup | cmd/dashboard/controller/api_v1.go:586-607 | the loop computes a group's share |
| Sampling.GroupByMonitor | cmd/dashboard/controller/api_v1.go:537-547 | each group is its monitor's records in order, and the monitors are in order of first appearance |
| Sampling.GroupIsExact | cmd/dashboard/controller/api_v1.go:537-547 | a group holds each of its monitor's records as often as the input, and no other record |
| Sampling.MonitorsDistinct | cmd/dashboard/controller/api_v1.go:543-546 | no monitor is listed twice |
| Sampling.MonitorsInOrder | cmd/dashboard/controller/api_v1.go:537-548 | of two monitors, the one listed first has a record before all of the other's |
| Sampling.LimitsShareOut | cmd/dashboard/controller/api_v1.go:569-577 | with fewer monitors than points, the limits use up all points and differ by one at most, earlier monitors having the higher ones |
| Sampling.SampleMonitorHistories | cmd/dashboard/controller/api_v1.go:532-584 | small inputs come back as they are; otherwise the shares of all monitors, newest first, the oldest dropped when there are too many monitors |
| Sampling.DownSamplingOnce | cmd/dashboard/controller/api_v1.go:532-584 | each input record at most once, and at most maxPoints when there are fewer monitors |
| Sampling.DownSamplingKeepsEnds | cmd/dashboard/controller/api_v1.go:569-578 | every monitor's first record is given, and its last when it is allotted two or more |
| Sampling.DownSamplingKeepsNewest | cmd/dashboard/controller/api_v1.go:552-567 | with more monitors than points, each monitor's first record is given or not newer than any that is |
| AlertSentinel.Check | model/alertrule.go:141-175 | a single regular rule fails exactly when over 70% of its last Duration samples are faults |
| AlertSentinel.FailsExactly | model/alertrule.go:141-175 | a rule fails if and only if there are as many samples as it looks at, and more than seven tenths of those positions are faults |
| AlertSentinel.CheckSample | service/singleton/alertsentinel.go:412-420 | one sample: append, cap at ten, decide, announce |
| AlertSentinel.Decide | service/singleton/alertsentinel.go:468-543 | what a verdict announces and the state it leaves, in both trigger modes |
| AlertChecks.Sentinel.CopyState | service/singleton/alertsentinel.go:260-323 | under the lock, every server's samples and state, and the alert, are copied |
| AlertChecks.Sentinel.CheckServer | service/singleton/alertsentinel.go:412-543 | without the lock, one server is judged on the copies; what it announces, and no other server is touched |
| AlertChecks.Sentinel.WriteBackState | service/singleton/alertsentinel.go:545-570 | under the lock again, judged samples are trimmed and stored, and every copied state is stored, whatever happened in between |
| AlertChecks.Sentinel.OnRefreshOrAddAlert | service/singleton/alertsentinel.go:210-229 | an edit forgets all samples and states of the alert and leaves a running check its copies |
| AlertChecks.RoundsAreRun | service/singleton/alertsentinel.go:252-570 | whole checks without an edit in between announce what the run of verdicts on the kept history does |
| AlertChecks.EditStartsOver | service/singleton/alertsentinel.go:210-229 | after an edit with no check under way, nothing from before it is left |
| AlertChecks.InFlightSurvivesEdit | service/singleton/alertsentinel.go:545-570 | what a check has copied or judged at an edit comes back when it writes back, under the new rule |
| AlertSentinel.KeepsTheLatest | service/singleton/alertsentinel.go:550-560 | the kept history is the last Duration samples, or the last ten |
| AlertSentinel.SeesTheSame | service/singleton/alertsentinel.go:412-420 | up to ten, the rule sees of the kept history what it would see of all samples |
| AlertSentinel.CappedRunExactly | service/singleton/alertsentinel.go:412-570 | for all sample streams the capped run announces what a reference keeping all samples announces, if and only if Duration is at most 10 |
| AlertSentinel.OnetimeAlternates | service/singleton/alertsentinel.go:497-543 | in one-time mode the announcements of any run of verdicts strictly alternate |
| AlertSentinel.RecoveryFollowsIncident | service/singleton/alertsentinel.go:497-543 | in either mode a recovery directly follows an incident, and the last announcement tells the state |
| AlertSentinel.AnnouncedExactly | service/singleton/alertsentinel.go:468-543 | in either mode, what a run of verdicts announces, verdict by verdict: a recovery exactly where a failure ends, an incident at every failure, or in one-time mode where one begins; the state is that of the last verdict |
| AlertSentinel.EveryEndingResolved | service/singleton/alertsentinel.go:531-543 | in either mode there are as many recoveries as failures that end |
| AlertSentinel.AlwaysAnnouncesFailures | service/singleton/alertsentinel.go:497-543 | in always mode there are as many incidents as failing checks |
| AlertChecks.KeepsTurn | service/singleton/alertsentinel.go:497-543 | any steps without an edit keep incidents and recoveries alternating in one-time mode |
| AlertChecks.StaleFailureRecovers | service/singleton/alertsentinel.go:545-570 | a failing state that a check carries over an edit ends in a recovery with no incident before it |
| AlertChecks.EditAlternatesExactly | service/singleton/alertsentinel.go:210-229 | in one-time mode, announcements after an edit alternate, starting with an incident, whatever follows until the next edit, if and only if no check is under way at the edit with a failing state |
| Throttle.NotificationCache.SendNotification | service/singleton/notification.go:153-185 | one attempt: delivered when the label is new, forgotten or past its delay; other labels untouched |
| Throttle.NotificationCache.UnMuteNotification | service/singleton/notification.go:147-150 | an unmuted label starts over, other labels are untouched |
| Throttle.DeliveriesApart | service/singleton/notification.go:13-16 | for one label without an unmute, consecutive deliveries are over 15 minutes apart, and the first attempt is delivered |
| Throttle.DeliveredExactly | service/singleton/notification.go:153-185 | an attempt is delivered if and only if it is the first, or comes after the silence of the last delivery: three hours if that one came within the delay of the one before and ten minutes, and fifteen minutes otherwise |
| Throttle.SteadyAttempts | service/singleton/notification.go:159-176 | with attempts at most ten minutes apart, only three-hour delays follow the second delivery |
| Throttle.SteadyAttemptsBounded | service/singleton/notification.go:159-176 | then any span T has at most 2 + floor(T / 3h) deliveries |
| Throttle.SlowAttemptsDeliver | service/singleton/notification.go:159-176 | a schedule with a gap just over ten minutes delivers three times within 51 minutes |
| Throttle.RepeatDelayHoldsExactly | service/singleton/notification.go:159-176 | the span bound holds for all runs with a given largest gap if and only if the gap is at most ten minutes |
| AuthCache.ShardIsAlternatingSum | service/rpc/auth.go:59-65 | the 32-bit hash modulo 16 is the alternating sum of the key's bytes modulo 16 |
| AuthCache.GetShard | service/rpc/auth.go:59-65 | the loop computes the key's shard |
| AuthCache.OldestKey | service/rpc/auth.go:99-107 | the entry that expires first, whatever the iteration order |
| AuthCache.Insert | service/rpc/auth.go:92-117 | a full shard gives up one entry, the one that expires first, and stays within its size |
| AuthCache.VictimWasSetFirst | service/rpc/auth.go:97-112 | only a full shard gives one up, the secret whose last set is the longest ago |
| AuthCache.Cache.Get | service/rpc/auth.go:68-84 | a hit is the id of the secret's last set, made at most ttl ago and not invalidated or cleared since; a miss means there is none or it had to make room |
| AuthCache.Cache.Set | service/rpc/auth.go:87-118 | the set is the latest, only a full shard evicts, and no shard exceeds max(10, maxSize / 16) |
| AuthCache.Cache.ShardsAreBounded | service/rpc/auth.go:92-97 | no shard holds more than ten entries, or more than a sixteenth of the cache's size |
| AuthCache.Cache.Invalidate | service/rpc/auth.go:121-127 | the secret is forgotten, nothing else is |
| AuthCache.Cache.Clear | service/rpc/auth.go:130-136 | everything is forgotten |
| AuthCache.Cache.CleanupExpired | service/rpc/auth.go:139-163 | expired entries go, and no answer changes |
| AuthCache.RefinedAfterSet | service/rpc/auth.go:87-118 | a set, with what it evicts, keeps the shards a refinement of the flat map |
| AuthCache.RefinedAfterCleanup | service/rpc/auth.go:139-163 | a cleanup keeps the shards a refinement of the flat map |
| AuthCache.AuthService.Check | service/rpc/auth.go:187-224 | an id is accepted only if the secret belonged to that listed server within ttl; an agent with a valid secret is never refused; a secret without an owner is accepted if and only if its last set is at most ttl old and it has not made room; refusals and what the cache holds afterwards exactly |
| AuthCache.RemovalEndsOwnership | service/rpc/auth.go:208-218 | removing a server, or its secret, from the registry ends the ownership of that secret and of no other |
| AuthCache.CheckAfterRemoval | service/rpc/auth.go:187-224 | an agent whose server is removed after its first check is accepted again if and only if no more than ttl has passed |
| ServerIndex.ServerState.LoadServers | service/singleton/server.go:184-232 | after loading, the indexes agree if and only if no two servers share a secret |
| ServerIndex.ServerState.AddServer | cmd/dashboard/controller/member_api.go:810-819 | after an add, the indexes agree if and only if the secret is new and the id is not in use by a server with a secret or a listed tag |
| ServerIndex.ServerState.EditServer | cmd/dashboard/controller/member_api.go:717-809 | an empty secret keeps the old one; after an edit the indexes agree if and only if no other server has the new secret; a server that is not listed fails the request and changes nothing |
| ServerIndex.ServerState.BatchUpdateServerGroup | cmd/dashboard/controller/member_api.go:1251-1301 | the servers up to the first that is not listed move to the group, nothing else changes, and the indexes agree |
| ServerIndex.OnlyTagsMove | cmd/dashboard/controller/member_api.go:1253-1298 | moving servers to a group changes the tags of those servers and nothing else |
| ServerIndex.ServerState.OnServerDelete | cmd/dashboard/controller/member_api.go:1959-1976 | a listed server is gone from the list and from both indexes, any other fails the request, and the indexes agree |
| ServerIndex.ServerState.BatchDeleteServer | cmd/dashboard/controller/member_api.go:1947-1952 | the servers up to the first that is missing are gone, and the indexes agree; all are gone if and only if all were listed and none is repeated |
| ServerIndex.ServerState.UnlistTag | cmd/dashboard/controller/member_api.go:778-791 | the first occurrence of the id goes, and an emptied tag with it |
| ServerIndex.ServerState.ReSortServer | service/singleton/server.go:235-267 | the list holds all servers by falling display index and rising id, and the guests' list is it without the hidden ones |
| ServerIndex.SecretsAfterEditExactly | cmd/dashboard/controller/member_api.go:767-773 | rebinding a secret keeps SecretToID the inverse of the secrets if and only if no other server has it |
| ServerIndex.SecretsAfterAddExactly | cmd/dashboard/controller/member_api.go:815-816 | binding an added server's secret keeps SecretToID right if and only if it is unused and no other secret of that id is left behind |
| ServerIndex.TagsAfterAddExactly | cmd/dashboard/controller/member_api.go:816-817 | appending an id keeps the tag lists right if and only if it is not listed already |
| ServerIndex.TagsAfterMove | cmd/dashboard/controller/member_api.go:774-794 | moving a server to another tag keeps each tag listing its servers exactly once |
| ServerIndex.SecretsAfterLoadExactly | service/singleton/server.go:187-211 | after loading, SecretToID is the inverse of the secrets if and only if none is shared |
| ServerIndex.DisplayOrderIsUnique | service/singleton/server.go:251-256 | only one list is in display order, so the map's iteration order does not matter |
| ServerIndex.GuestListIsVisible | service/singleton/server.go:243-263 | the guests' list, sorted on its own, is the filtered sorted list |
| IOStream.IOStreamWrapper.Read | pkg/grpcx/io_stream_wrapper.go:34-58 | bytes move from the front of what is unread into the buffer, the rest of the buffer is untouched, and a read fails only when nothing is unread and the stream has ended or failed |
| IOStream.ReadTakes | pkg/grpcx/io_stream_wrapper.go:34-58 | a read takes as much as fits, of what was left over or else of one message, and leaves the rest of that |
| IOStream.IOStreamWrapper.Write | pkg/grpcx/io_stream_wrapper.go:60-79 | the chunks of the input are sent in order up to the first failing send, and the count is the length of the prefix sent |
| IOStream.IOStreamWrapper.Close | pkg/grpcx/io_stream_wrapper.go:81-88 | closing drops the buffered bytes once |
| IOStream.ChunksCarry | pkg/grpcx/io_stream_wrapper.go:60-79 | chunks concatenate to the input, none is empty, and all but the last are 64 KiB long |
| IOStream.ReadsConserve | pkg/grpcx/io_stream_wrapper.go:34-58 | for any buffer sizes, the bytes read followed by the unread ones are the bytes received |
| IOStream.ReadsDrain | pkg/grpcx/io_stream_wrapper.go:34-58 | non-empty buffers drain a stream of non-empty messages |
| IOStream.WriteThenRead | pkg/grpcx/io_stream_wrapper.go:34-79 | write then read is the identity on byte streams |

## Left out

- Keys and values: records are assumed to round-trip through JSON; Badger is a finite map with a byte-order iterator, and its errors are not modelled.
- GetRangeReverseLimit: the scan is stated over the text range, and ReverseScanExact says when that is the time range; stored records are taken to have 19-digit times.
- CleanupOldMonitorHistories: saves that arrive while it runs are taken to be newer than the cutoff; database errors that end it early are not modelled.
- GetAllMonitorHistoriesInRange: the same key scan over all monitors, without an exit.
- NeverOvercounts: one direction of one server; which readings are false is a parameter; the report that comes first after a restart of the dashboard is a FirstReport, or a Load and a Reload; a regrouping is a Reload of nothing.
- ZeroCounts: when the monthly reset runs (the first five minutes of a month in which no enabled alert has a transfer rule) is a parameter.
- CheckAndResetCycleTraffic: which alert and rule cover the server is a parameter; persisting, statistics and messages are left out; the window and the comparison use one reading of the clock.
- GetTransferDurationStart: times are nanoseconds from the start of year 0 in the proleptic Gregorian calendar with a fixed offset and no daylight saving; unit names other than the four count as hours, as in the code; a zero interval is required away where the code would loop for ever or divide by zero.
- ServiceItem, CurrentStatus and PingTable are one monitor's share of the sentinel's maps (PingTable: all of them); creating and deleting monitors, the saved fifteen-minute records, latency and state-change notifications, and the midnight zeroing of the current counts are left out.
- LoadMonitorHistory: records from the day after tomorrow on index past the array in the code and are required away; the query that selects the records is not modelled. What a day's records report takes each record's delay as the mean of its successes.
- Evict: which sources memory limiting chooses depends on activity and is a parameter.
- Means of float32 delays, the sampling step and the 70% threshold are exact real numbers.
- DispatchTask: a stream that disappears between the test and the send counts as sent; runs in which a walk does not end are those that ShrunkListHangs and WalkEndsExactly describe.
- Migrate: saves succeed and every row converts (retries and skipped rows are left out), there is no row limit and no cut-off by days, and the id mapping is not modelled; a crash comes before a write, never inside one.
- migrateTransfers and the other tables: their values are scanned into scratch variables and not into the records.
- SortSlice: an insertion sort stands for the library's sort; callers rely on nothing but a sorted permutation.
- Summaries (percentiles, loss) of monitor histories and the query limit beside down-sampling: plain value computations.
- AlertSentinel.Check: alerts with several rules, transfer rules and offline rules with their start-up protection; snapshots of the metrics are a parameter; Duration values beyond the int range.
- AlertChecks.Sentinel: one alert and one running check, as the sentinel's loop runs one at a time; periodic clean-up and deletion of alerts are left out.
- SendNotification: reading and writing the cache entry is one step; who receives the message and whether sending works is left out.
- AuthCache.AuthService.Check: the registry lookup and the cache entry use one reading of the clock, so the delay between the two is not counted towards the time to live.
- Cache.Set: an empty secret, which Check never passes on, is required away.
- ServerState: servers are values, so that a sorted list made before an edit does not see the edit, as the shared objects of the code do until the next sort; fields other than those that the indexes and the order read are left out, and so are the handlers' database writes and request errors.
- BatchUpdateServerGroup and BatchDeleteServer: that a request which fails half-way never releases the server lock.
- Read: reads after Close, which the code does not refuse.
- Goroutine pools, configuration, HTTP handlers and middleware, OAuth, DDNS, GeoIP, memory tuning and the front end: input and output, library calls or no clean invariant.
