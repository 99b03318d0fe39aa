# The metric pipeline, modelled and proved in Dafny

The monitoring server takes numeric and string reports from machines, keeps a short window of
each metric in shared memory, writes completed periods to a day table, packs each day into one
binary record, checks the windows against alarm limits once a minute, merges alarms into
database records, queues notifications for several sender processes, and shows the most recent
alarms. This project models that pipeline and proves what it promises, over every input and over
whole runs. Code that updates shared records in place is a class or an array method proved against
a function; the theorems are about those functions and about runs of them.

| files | part |
|---|---|
| `Basics`, `MapSum`, `StableOrder` | machine words, sums over maps, the order of a multimap |
| `StrCounter` | one attribute's string counters, without memory |
| `StrPoolState`, `StrPoolProofs`, `StrPoolEviction`, `StrPoolRuns`, `StrPoolHistory`, `StrPoolSweep`, `StrPoolWitness`, `StrPool` | the shared pool of string counters: state, invariant, runs, the class |
| `ReportClock`, `ReportWindow`, `ReportRuns`, `ReportTotals`, `ReportReader`, `ReportLimits`, `ReaderLimits`, `ReportShm` | the three-slot window, the database writer, recycling, the alarm reader, and the periods for which each is exact |
| `DayBytes`, `DayRecord`, `DayRows`, `DayCodec`, `DayMachines`, `DayPipeline` | the day record, its totals, several machines in one report, and the way from reports to decoded slots |
| `ViewBindings`, `ViewSum`, `ViewPipeline`, `ViewRuns`, `ViewPass` | bindings of views, the value of a view, and its passes and restarts |
| `AlarmInfo`, `MachineAlarms`, `MachinePass`, `MachineReports`, `MachineRecycler` | alarms of machines, told by the reports, and the recycling of silent nodes |
| `AlarmMerge`, `AlarmHistory`, `AlarmTable`, `AlarmPipeline` | merging alarms into records, what a record says about the run, and the way from reports to a record |
| `NotifyQueue`, `NotifyShm`, `NotifyPipeline` | the notification array, its producer and its consumers, and the way from a merged alarm to a sent notification |
| `RecentList`, `RecentLinks`, `RecentShm` | the list of recent alarms and its pages |
| `StrPacket`, `StrPacketIO` | the packet of string reports |
| `CfgText`, `CfgScan`, `CfgPrint` | the settings text of a plugin on a machine |

Times are seconds counted from a local midnight, so the day of a time is its quotient by 86400.
Shared hash tables are finite maps; whether the table still offers a free node is a parameter. Each
operation is one atomic step. SQL is a table of records whose statements succeed; where a query
leaves the choice open (ties in an `order by ... limit 1`), every answer is allowed.

## Where the code does less than it intends

Each is stated as an exact condition or with a concrete run.

- The eviction walk of the string pool stops at node 0 (`slog_monitor_server/udp_sock.cpp:1728`), while
  every other walk takes node 0 as valid. A report keeps the pool well formed exactly when the evicting
  chain does not hold node 0 and the new value stays positive as an int (`StrPoolRuns.SafeExactly`);
  `StrPoolHistory.AlwaysWellFormed` covers all runs of such reports and of sweeps, and `StrPoolWitness.NodeZeroBreaks`
  gives a run of harmless reports after which the next one fails.
- A string longer than the node's buffer is stored cut, so it never matches itself and is stored again
  (`StrCounter.LongStringStoredTwice`); `StrCounter.DistinctExactly` says when a report keeps the stored
  strings distinct, on every chain, evicting or not.
- `GetDayOfMin` (`lib/mtagent_api_open/supper_log.h:1811-1825`) tests the remainder of the quotient, not
  of the minute. Slot numbers follow the clock exactly for period 1 and for periods whose square is
  at least 1440; of the selectable periods these are 1, 60, 120 and 180 minutes, not 5, 10, 15 and 30.
  Rows are unique per slot over all runs if and only if the period is such a one, and the window is
  exact over all runs if and only if the period is also at most 480 minutes
  (`ReportLimits.OneRowIffSteady`, `ReportLimits.WindowExactIffSteady`).
- In the first minute of a day that already has a report, yesterday's last minute is lost to the alarm reader
  (`ReportReader.FirstMinuteLoses` gives the run: 0 is read where 5 was reported).
- In the last minute before a full day of silence the alarm reader shows yesterday's value
  (`ReportReader.DayOldShowsYesterday`: 7 is read for an empty minute). This needs recycling to have stopped: a
  recycling pass in the last 23 hours 49 minutes, one of which is due every five minutes, excludes it
  (`ReportReader.RecyclingExcludesDayOld`). Everywhere else the reader of a one-minute attribute is exact
  (`ReportReader.ReaderSeesMinuteBefore`).
- The alarm checker compares its minute of the day (`slog_check_warn/slog_check_warn.cpp:545`, 162-171) with
  a node's slot number, which counts the attribute's own periods (`slog_monitor_server/udp_sock.cpp:1864`). So
  on the day of the last report, and for every steady period, the reader finds the slot numbered minute - 1
  (`ReaderLimits.ReaderTakesMinuteForSlot`). It is right over all runs, and minimum alarms tell the truth, if and
  only if the period is one minute (`ReaderLimits.ReaderExactIffOneMinute`, `MachinePass.MinimumTrueIffOneMinute`).
  For every longer period one report of 5 is read as 0 in the next period (`ReaderLimits.LonePeriodLost`) and
  raises an alarm for a minimum of 5 (`MachinePass.FalseMinimum`). The later results about alarms and views
  concern one-minute attributes.
- A pass, a restart of the checker and another pass within one minute count every report twice into a view
  (`ViewRuns.RestartCountsTwice`); this and a view touched almost a day before are the only cases in which a view
  does not start from zero (`ViewRuns.RunStartsFromZero`).
- The previous value of a view is the last pass's value plus the machines' own previous values
  (`slog_check_warn/slog_check_warn.cpp:200-204`, 216-225), so in steady running it counts the same reports twice
  (`ViewPipeline.PreviousCountsTwice`), and a view's wave alarm compares with the double.
- The flags 1 to 4 of a machine are tested bit by bit (`slog_check_warn/slog_check_warn.cpp:305-307`), so 3, which
  asks for basic attributes to be masked, masks every alarm (`MachineAlarms.MaskedAsAskedExactly`).
- The configuration loop looks up a report node by the owner's id even for a view
  (`slog_check_warn/slog_check_warn.cpp:490-491`): a view with a minimum raises its alarm in every pass in which no
  machine of the same id reports the attribute, whatever the view shows (`MachineReports.ViewMinimumExactly`).
- A missing node always raises a minimum alarm, so with minimum 0 it raises one although 0 is not
  below 0 (`MachineAlarms.OneMinimumExactly`, `MachineAlarms.RecyclingUnseenExactly`).
- A compressed one-minute record that names slot 1440 passes the reader's index test and is written behind its
  array; every other record, well formed or not, is read inside it (`DayRecord.DecodeDefinedExactly`).
- The two forms of a day record are not interchangeable when a second machine's record is combined into a
  report of minima or latest values (`DayRecord.FormsAgreeExactly`).
- The totals checked after a record was read are those of the report so far, so with several machines the check
  of a further one passes exactly when the earlier ones had nothing in its slots (`DayMachines.CheckOfFurtherExactly`).
- While rows are positive and no sum overflows, the integrity check of a day record fires exactly for days
  with two rows in one slot (`DayRows.CheckExactly`); with one row per slot it passes whatever overflows.
- A status change of an alarm that has left the recent list brings it back to the front, and a
  second change within one second is not seen (`RecentList.StaysHeadExactly`). An alarm raised while the
  configuration process was down is put behind the older ones at its restart (`RecentList.RestartDisorders`,
  `RecentList.RestartDemotes`).
- A settings list comes back unchanged exactly when names and values are not empty and have no blank ends, no
  name holds a space or a semicolon and no value a semicolon (`CfgText.RoundTripExactly`). The form checks
  values for spaces and semicolons but not names, and custom settings may have empty names or values
  (`CfgPrint.FormRoundTrip`).

## Model

| member | source | states |
|---|---|---|
| StableOrder.SortOrderAscending | slog_monitor_server/udp_sock.cpp:1726-1732 | iterating the multimap is ascending by value and stable |
| StableOrder.SortOrderPermutes | slog_monitor_server/udp_sock.cpp:1726-1736 | the iteration meets every collected node exactly once |
| StrCounter.EvictionKeepsLargest | slog_monitor_server/udp_sock.cpp:1722-1760 | eviction is a partition of the chain into the K smallest and the rest, the rest ascending, nothing retained below anything evicted |
| StrCounter.NeverOverstates | slog_monitor_server/udp_sock.cpp:1695-1794 | over a day of fitting reports stored strings are distinct, every value is at most the string's true total, and the chain never exceeds K+M |
| StrCounter.ExactWhenFewStrings | slog_monitor_server/udp_sock.cpp:1695-1794 | with at most K+M distinct strings and a pool that never refuses, the counters are the exact per-string sums |
| StrCounter.LongStringStoredTwice | slog_monitor_server/udp_sock.cpp:1773-1776 | a string longer than the buffer is stored a second time on its second report |
| StrCounter.DistinctExactly | slog_monitor_server/udp_sock.cpp:1697-1794 | for any chain, full or not, and with or without room: when a report keeps the stored strings distinct, both directions |
| StrPoolProofs.NodeUseCounts | slog_monitor_server/udp_sock.cpp:1645-1648 | in a well-formed pool iNodeUse is the number of live slots |
| StrPoolProofs.ScanFindsFree | slog_monitor_server/udp_sock.cpp:1763-1794 | the circular scan finds a free slot exactly when iNodeUse is below the capacity |
| StrPoolProofs.ClearKeeps | slog_monitor_server/udp_sock.cpp:1631-1657 | the day reset keeps the pool well formed, empties one chain and leaves all others |
| StrPoolProofs.MergeKeeps | slog_monitor_server/udp_sock.cpp:1706-1714 | merging keeps the pool well formed and changes one counter of one attribute |
| StrPoolProofs.AppendKeeps | slog_monitor_server/udp_sock.cpp:1762-1795 | appending keeps the pool well formed, adds one counter to one attribute in the first free slot from the cursor on, and leaves the cursor behind it |
| StrPoolEviction.EvictKeeps | slog_monitor_server/udp_sock.cpp:1722-1760 | without node 0 on the chain, eviction keeps the pool well formed, leaves the survivors of the abstract eviction and every other chain |
| StrPoolRuns.StepRefines | slog_monitor_server/udp_sock.cpp:1659-1796 | a safe report changes the contents of the pool as the abstract counter changes its list |
| StrPoolRuns.SafeExactly | slog_monitor_server/udp_sock.cpp:1659-1796 | a report is defined and keeps the pool well formed if and only if it is safe |
| StrPoolHistory.AlwaysWellFormed | slog_monitor_server/udp_sock.cpp:1631-1796 | in every state reached by safe reports and sweeps chains are disjoint, acyclic, end in -1, have bStrCount live nodes, cover all live nodes, and iNodeUse is the sum of all counts |
| StrPoolHistory.HistoryRefines | slog_monitor_server/udp_sock.cpp:1631-1796 | over reports and sweeps in any order each attribute's chain is the abstract counter run over its reports of the current day, and an attribute missing from the table held nothing or its day is over |
| StrPoolHistory.StoredNeverExceeds | slog_monitor_server/udp_sock.cpp:1659-1796 | what the pool stores never exceeds the true totals of the day |
| StrPoolHistory.StoredIsExact | slog_monitor_server/udp_sock.cpp:1659-1796 | with few distinct strings and room the pool stores the exact totals of the day |
| StrPoolSweep.SweepKeeps | slog_monitor_server/udp_sock.cpp:1529-1538 | sweeping an attribute whose day is over keeps the pool well formed and every other attribute as it is |
| StrPoolSweep.SweepTable | slog_monitor_server/udp_sock.cpp:1536-1538 | exactly an attribute whose day is over leaves the table, the records of the others stay |
| StrPoolWitness.NodeZeroBreaks | slog_monitor_server/udp_sock.cpp:1728-1760 | a run of safe reports after which one more ordinary report is undefined or breaks the pool |
| StrPoolMemory.StrPool.CheckClear | slog_monitor_server/udp_sock.cpp:1631-1657 | the method leaves the specified pool and returns whether the day is over |
| StrPoolMemory.StrPool.FreeChain | slog_monitor_server/udp_sock.cpp:1649-1653 | the walk frees exactly the nodes of the chain |
| StrPoolMemory.StrPool.Search | slog_monitor_server/udp_sock.cpp:1695-1720 | the node holding the string, or the last node when there is none |
| StrPoolMemory.StrPool.Collect | slog_monitor_server/udp_sock.cpp:1726-1732 | the multimap's contents in its order |
| StrPoolMemory.StrPool.FreeSmallest | slog_monitor_server/udp_sock.cpp:1734-1744 | exactly the first K collected nodes are freed |
| StrPoolMemory.StrPool.Thread | slog_monitor_server/udp_sock.cpp:1747-1759 | the remaining nodes are linked in ascending order |
| StrPoolMemory.StrPool.Evict | slog_monitor_server/udp_sock.cpp:1722-1760 | the method leaves the specified pool; it fails exactly when too few nodes were collected |
| StrPoolMemory.StrPool.FindFree | slog_monitor_server/udp_sock.cpp:1762-1770 | the first free slot from the cursor on, around the array, or none after a full circle |
| StrPoolMemory.StrPool.Append | slog_monitor_server/udp_sock.cpp:1762-1795 | the method leaves the specified pool |
| StrPoolMemory.StrPool.AddReport | slog_monitor_server/udp_sock.cpp:1659-1796 | the method leaves the specified pool, which is valid exactly when the report was safe |
| ReportClock.OneMinuteSlot | lib/mtagent_api_open/supper_log.h:1811-1825 | with one-minute periods a whole minute counts to the slot before |
| ReportClock.SlotMonotone | lib/mtagent_api_open/supper_log.h:1811-1825 | within a day the slots of steady periods follow the clock |
| ReportClock.SlotGap | slog_monitor_server/udp_sock.cpp:713-716 | more than two periods later on the same day is at least two slots later |
| ReportClock.SlotAtMidnight | slog_monitor_server/udp_sock.cpp:713-745 | within two periods a change of day takes the slot number down, so midnight is never taken for the next slot |
| ReportClock.SlotLength | slog_monitor_server/udp_sock.cpp:1597-1599 | one slot lasts at most one period |
| ReportClock.SteadyValidPeriods | lib/mtagent_api_open/supper_log.h:1827-1833 | the steady ones among the selectable periods |
| ReportClock.UnsteadySlot | lib/mtagent_api_open/supper_log.h:1811-1825 | for every other period, three times of one day whose slots run forward and back |
| ReportWindow.ReportExact | slog_monitor_server/udp_sock.cpp:713-796 | a report keeps the window equal to the aggregates of the reports in its three slots, whatever the distance to the last one |
| ReportRuns.WindowAlwaysExact | slog_monitor_server/udp_sock.cpp:675-800 | the same in every state of every run of reports, recycling and database passes |
| ReportRuns.RowsSound | slog_monitor_server/udp_sock.cpp:1585-1614 | every row inserted is positive and the aggregate of all reports of the slot before the one it was written in |
| ReportRuns.RowsAtMostOnce | slog_monitor_server/udp_sock.cpp:1585-1614 | at most one row for each slot of each day over any run |
| ReportRuns.PassWritesExactly | slog_monitor_server/udp_sock.cpp:1585-1614 | after any run, a database pass writes a row, the aggregate of the slot before, if and only if the last report is less than a period old, that aggregate is positive and the node is not marked as saved in this slot |
| ReportTotals.TotalCountsAll | slog_monitor_server/udp_sock.cpp:716-784 | a cumulative value is the sum of all reports ever received, for every period, and previous, last and current ascend |
| ReportTotals.TotalLastExact | slog_monitor_server/udp_sock.cpp:716-784 | current, last and previous value are the sums of all reports, of those before the current slot, and of those before the slot before it, across gaps and midnight |
| ReportTotals.TotalRowIsSum | slog_monitor_server/udp_sock.cpp:1585-1614 | a row of a cumulative attribute is everything reported before the slot it is written in |
| ReportReader.AdaptedIsMinuteBefore | slog_check_warn/slog_check_warn.cpp:143-183 | one-minute attributes: the adapted value is the aggregate of exactly the previous minute's reports outside the two named cases, and what it is there |
| ReportReader.AdaptedPreIsTwoBefore | slog_check_warn/slog_check_warn.cpp:143-183 | one-minute attributes: the adapted previous value is the aggregate of the minute before the last, and what it is in the three cases where it is not |
| ReportReader.DayOldIsSilent | slog_check_warn/slog_check_warn.cpp:158-181 | the day-old case needs 23 hours 59 minutes of silence |
| ReportReader.ReaderSeesMinuteBefore | slog_check_warn/slog_check_warn.cpp:143-183 | one-minute attributes: the adapted value of the node left by any run is the previous minute's aggregate, outside the first minute of a day with a report and, only without recycling, the day-old case |
| ReportReader.ReaderSeesTwoBefore | slog_check_warn/slog_check_warn.cpp:143-183 | one-minute attributes, any run: the adapted previous value is the aggregate of the minute before the last, but for the two cases in which it is 0 |
| ReportReader.AdaptedIsTotalBefore | slog_check_warn/slog_check_warn.cpp:143-156 | cumulative attributes, at any time: both values are sums of what was reported before the last report's slot and before the one before it; once sums wrap, exactly when the last value still is |
| ReportReader.ReaderSeesTotalBefore | slog_check_warn/slog_check_warn.cpp:143-156 | the same over any run whose reports fit a word |
| ReportReader.RecyclingExcludesDayOld | slog_monitor_server/monitor_server.cpp:284-327 | a recycling pass in the last 23 hours 49 minutes leaves no one-minute node for the day-old case |
| ReportReader.FirstMinuteLoses | slog_check_warn/slog_check_warn.cpp:143-183 | a run whose reader finds 0 where 5 was reported |
| ReportReader.DayOldShowsYesterday | slog_check_warn/slog_check_warn.cpp:158-181 | a run without recycling whose reader finds 7 for an empty minute |
| ReportRuns.SurvivesRecycling | slog_monitor_server/monitor_server.cpp:315-327 | a node present after a recycling pass was heard of within ten periods before it, or later |
| ReportReader.RecycledSaysNothing | slog_monitor_server/monitor_server.cpp:315-327 | when a one-minute node has been recycled the previous two minutes had no reports |
| ReportLimits.WindowExactIffSteady | slog_monitor_server/udp_sock.cpp:675-800 | for every period: the window is exact over all runs if and only if the period is steady and at most 480 minutes |
| ReportLimits.OneRowIffSteady | slog_monitor_server/udp_sock.cpp:1585-1614 | for every period: rows are unique per slot over all runs if and only if the period is steady |
| ReaderLimits.ReaderTakesMinuteForSlot | slog_check_warn/slog_check_warn.cpp:143-183 | for every steady period, on the day of the last report: the adapted value is the aggregate of the slot numbered minute of the day - 1 |
| ReaderLimits.LonePeriodLost | slog_check_warn/slog_check_warn.cpp:143-183 | for every period above one minute, a run of one report of 5 whose reader finds 0 in the next period |
| ReaderLimits.ReaderExactIffOneMinute | slog_check_warn/slog_check_warn.cpp:143-183 | for every period: outside the named cases the reader finds the aggregate of the period before over all runs if and only if the period is one minute |
| ReportShm.WarnAttrNode.constructor | slog_monitor_server/udp_sock.cpp:688-700 | a first report leaves the specified window, exact for its one report, cumulative or not |
| ReportShm.WarnAttrNode.AddReport | slog_monitor_server/udp_sock.cpp:701-799 | the fields after a report are the specified window, and a window exact for its reports, cumulative or not, stays so |
| ReportShm.WarnAttrNode.SaveToDb | slog_monitor_server/udp_sock.cpp:1583-1614 | the value inserted, or none, and the marks left behind; for an exact window the aggregate of the slot before |
| ReportShm.WarnAttrNode.AdaptReportValue | slog_check_warn/slog_check_warn.cpp:143-183 | the reader's two values; for an exact one-minute window the previous minute's aggregate, for an exact cumulative one the sums before the two slots |
| DayBytes.NetworkOrder32 | slog_monitor_server/udp_sock.cpp:141-144 | htonl undoes itself and stores the most significant byte first |
| DayRecord.NeverLongerThanPlain | slog_monitor_server/udp_sock.cpp:128-173 | the chosen form is never longer than the plain one and fits the buffer, and for which days it is not the shorter of the two |
| DayRecord.ParsePlain | cgi_fcgi/mt_slog_showview.cpp:1292-1302 | a plain record is recognised and gives its period and every slot |
| DayRecord.ParsePressed | cgi_fcgi/mt_slog_showview.cpp:1304-1318 | a compressed record is recognised and gives its period and every slot with a value |
| DayRecord.DecodeRecord | cgi_fcgi/mt_slog_showview.cpp:1284-1360 | any record is readable and is combined slot by slot into any report, with the least, greatest and total value of the slots it names |
| DayRecord.DecodeOldest | cgi_fcgi/mt_slog_showview.cpp:1320-1330 | 1440 words in host order are recognised as the oldest form and added up slot by slot, whatever the type |
| DayRecord.RoundTrip | cgi_fcgi/mt_slog_showview.cpp:1284-1360 | decoding into an empty report gives back the period, the slots, and their minimum, maximum and total |
| DayRecord.DecodeDefinedExactly | cgi_fcgi/mt_slog_showview.cpp:1338-1357 | for any bytes: reading stays inside the array exactly unless a compressed one-minute record names slot 1440 |
| DayRecord.FormsAgreeExactly | lib/mtagent_api_open/supper_log.h:374-397 | when the form of a second machine's record makes no difference, both directions |
| DayRows.SlotInRange | slog_monitor_server/udp_sock.cpp:618-620 | a row's slot is one of the day's slots |
| DayMachines.MachinesTogether | lib/mtagent_api_open/supper_log.h:374-397 | any machines' records read one after another leave in every slot their values' sum, maximum or last value, the maximum of cumulative counts, and the minimum of the values since the last 0 |
| DayMachines.MachinesAggregate | cgi_fcgi/mt_slog_showview.cpp:1224-1360 | every slot shows the aggregate of the machines' values other than 0; for minima and latest values while all records are compressed |
| DayMachines.CheckOfFurtherExactly | cgi_fcgi/mt_slog_showview.cpp:1338-1366 | for sums without overflow: the total recomputed for a further machine is its record's if and only if earlier machines had nothing in the slots it names |
| DayRows.GatherExactly | slog_monitor_server/udp_sock.cpp:591-636 | with positive rows in different slots every slot holds its row and the totals are those the decoder recomputes, whatever wraps |
| DayRows.GatherSums | slog_monitor_server/udp_sock.cpp:591-636 | without overflow every slot holds the sum of its rows |
| DayRows.GatherExtremes | slog_monitor_server/udp_sock.cpp:591-636 | without overflow the least and greatest value are those the slots held on the way |
| DayRows.CheckExactly | cgi_fcgi/mt_slog_showview.cpp:1361-1366 | without overflow the integrity check passes if and only if no slot has two rows |
| DayCodec.GatherRows | slog_monitor_server/udp_sock.cpp:591-636 | the array and totals after the loop are the specified ones |
| DayCodec.SwapAll | slog_monitor_server/udp_sock.cpp:134-141 | every slot in network order, in place |
| DayCodec.Compact | slog_monitor_server/udp_sock.cpp:143-153 | compaction in place yields exactly the non-zero slots in order: no unread slot is overwritten |
| DayCodec.Encode | slog_monitor_server/udp_sock.cpp:128-173 | the bytes stored are the record of the slots given |
| DayCodec.ReadHeader | cgi_fcgi/mt_slog_showview.cpp:1284-1330 | the format chosen, and where its entries lie |
| DayCodec.ReadRecord | cgi_fcgi/mt_slog_showview.cpp:1284-1360 | report and totals after the loop are the specified ones, for well-formed and malformed records |
| DayPipeline.DecodedIsReported | cgi_fcgi/mt_slog_showview.cpp:1284-1366 | from any run of reports to the decoded day: every slot is empty or the aggregate of the slot before, every row written that day stands in its slot, and the integrity check passes |
| ViewBindings.BindingsFollowRows | slog_config/slog_config.cpp:2826-2885 | after any rows that fit, binding arrays are free of duplicates and hold exactly the views whose latest row is in use, without the rows in use for an owner that has no view in use and finds no room in the hash table |
| ViewBindings.OverflowsExactly | slog_config/slog_config.cpp:2845-2857 | the arrays overflow if and only if some row brings an owner's 21st view |
| ViewBindings.BoundViews.Bind | slog_config/slog_config.cpp:2845-2857 | adds a view at most once; fails exactly where the source writes behind the array |
| ViewBindings.BoundViews.Unbind | slog_config/slog_config.cpp:2859-2875 | removes the view and closes the gap |
| ViewSum.BaseIsZeroUnless | slog_check_warn/slog_check_warn.cpp:185-214 | a view starts from zero unless it was accumulated within this minute or almost a day ago |
| ViewSum.ScanSums | slog_check_warn/slog_check_warn.cpp:622-643 | after a pass a view's two values are what they started from plus the adapted values of exactly the contributing nodes, each once; other views are untouched |
| ViewPipeline.ContributesByRows | slog_check_warn/slog_check_warn.cpp:370-393 | a node contributes exactly when machine and attribute are bound to the view by accepted rows in use |
| ViewPipeline.ViewShowsReports | slog_check_warn/slog_check_warn.cpp:185-228 | one-minute attributes: in a table of any nodes, a view that starts from zero ends with the sum of the previous minute's aggregates of its machines' reports |
| ViewPipeline.PreviousCountsTwice | slog_check_warn/slog_check_warn.cpp:185-228 | one-minute attributes: a view's previous value is its last value of the minute before plus the machines' minute before the last, twice that when the earlier pass showed it |
| ViewRuns.RunStartsFromZero | slog_check_warn/slog_check_warn.cpp:185-214 | over any run of passes and restarts, a pass that the once-a-minute guard lets through starts every view from zero, unless the view was touched almost a day before or in this minute before a restart |
| ViewRuns.RunsExactly | slog_check_warn/slog_check_warn.cpp:540-548 | over any run a pass goes through if and only if its minute of the day is not that of the last try, or 0 after a start; within a day of a try, exactly in another minute |
| ViewRuns.ViewsShowReports | slog_check_warn/slog_check_warn.cpp:540-650 | one-minute attributes, over any run of passes and restarts: the view holds the sum of the previous minute's aggregates of its machines' reports, outside those two cases |
| ViewRuns.RestartCountsTwice | slog_check_warn/slog_check_warn.cpp:540-548 | a pass, a restart and another pass within one minute leave twice that sum |
| ViewPass.GetReportViews | slog_check_warn/slog_check_warn.cpp:370-393 | the common views in the machine's order |
| ViewPass.ViewChecker.Prepare | slog_check_warn/slog_check_warn.cpp:185-214 | the configuration is prepared as specified, the others stay |
| ViewPass.ViewChecker.AddNode | slog_check_warn/slog_check_warn.cpp:622-643 | all views of one node are accumulated |
| ViewPass.ViewChecker.CheckNodes | slog_check_warn/slog_check_warn.cpp:565-650 | the configurations after the loop are those of the specified pass |
| ViewPass.ViewChecker.CheckAttrWarn | slog_check_warn/slog_check_warn.cpp:540-650 | a pass runs at most once a minute; configurations and remembered minute after it are as specified |
| MachineAlarms.OneMinimumExactly | slog_check_warn/slog_check_warn.cpp:295-325 | one minimum alarm for a value below the minimum and none otherwise, exactly unless a missing node meets minimum 0 |
| MachineAlarms.NodeAlarmsExactly | slog_check_warn/slog_check_warn.cpp:295-368 | exactly which alarms a node raises, with their limits, values, mask and time |
| MachineAlarms.ChangeIsDistance | slog_check_warn/slog_check_warn.cpp:345-347 | the change is the distance of the two words in percent of the previous one, undefined exactly where the product overflows |
| MachineAlarms.MaskedAsAskedExactly | slog_check_warn/slog_check_warn.cpp:304-311 | an alarm is masked as the machine's flag asks if and only if the flag is not the one for basic attributes, or the attribute is basic, or the configuration masks it anyway |
| MachineAlarms.RecyclingUnseenExactly | slog_monitor_server/monitor_server.cpp:315-327 | exactly when removing a recyclable node changes no machine alarm: minimum other than 0 and, in the day-old case, quiet values |
| MachinePass.PassMinima | slog_check_warn/slog_check_warn.cpp:476-538 | the node loop and the configuration loop together raise exactly one minimum alarm per low machine |
| MachinePass.NodePhaseDefinedExactly | slog_check_warn/slog_check_warn.cpp:345-347 | the node loop is defined exactly when no node's wave product overflows |
| MachinePass.ValueIsMinuteBefore | slog_check_warn/slog_check_warn.cpp:295-300 | one-minute attributes: the checked value is the previous minute's aggregate, recycled or not |
| MachinePass.MinimumOfTheReports | slog_check_warn/slog_check_warn.cpp:476-600 | one-minute attributes: over any run, one minimum alarm exactly when the previous minute's reports aggregate to less than the minimum |
| MachinePass.FalseMinimum | slog_check_warn/slog_check_warn.cpp:295-325 | for every period above one minute, a pass that raises a minimum alarm although the period before reached the minimum |
| MachinePass.MinimumTrueIffOneMinute | slog_check_warn/slog_check_warn.cpp:476-600 | for every period: over all runs and passes minimum alarms are raised exactly for low periods if and only if the period is one minute |
| MachineReports.AlarmsOfTheReports | slog_check_warn/slog_check_warn.cpp:295-600 | one-minute attributes, over any run: exactly which minimum, maximum and wave alarms a pass raises for a machine, told by the reports of the previous two minutes |
| MachineReports.UnknownIsSilent | slog_check_warn/slog_check_warn.cpp:476-582 | no machine alarm without a known machine and a configuration |
| MachineReports.ViewMinimumExactly | slog_check_warn/slog_check_warn.cpp:476-538 | the pass raises a view's minimum alarm if and only if no machine of the view's id has a node of the attribute |
| MachinePass.AlarmChecker.CheckMachine | slog_check_warn/slog_check_warn.cpp:295-368 | the alarms appended for one node |
| MachinePass.AlarmChecker.CheckNodes | slog_check_warn/slog_check_warn.cpp:565-582 | the alarms appended by the node loop |
| MachinePass.AlarmChecker.CheckConfigs | slog_check_warn/slog_check_warn.cpp:476-538 | the alarms appended for configurations without a node |
| MachineRecycler.RecyclingUnseen | slog_monitor_server/monitor_server.cpp:299-335 | after a recycling pass over the whole table every machine alarm is as before |
| MachineRecycler.KeptExactly | slog_monitor_server/monitor_server.cpp:299-335 | left are exactly the nodes of known attributes that are cumulative or were heard of within ten periods |
| MachineRecycler.PassIsEvent | slog_monitor_server/monitor_server.cpp:299-335 | for the node of a run the pass over the table is that run's recycling event |
| MachineRecycler.TrackedIsPlain | slog_monitor_server/monitor_server.cpp:284-327 | the node of any run in which recycling goes on is one that pass may remove unseen |
| MachineRecycler.ReportTable.Recycle | slog_monitor_server/monitor_server.cpp:299-335 | exactly the recyclable nodes are removed, in one iteration that removes as it goes |
| AlarmMerge.AllCounted | slog_check_warn/slog_check_warn.cpp:670-757 | per object, attribute and flag the records' warn_times add up to the alarms raised |
| AlarmMerge.OneOpenRecord | slog_check_warn/slog_check_warn.cpp:684-694 | at most one unfinished record of a key has an alarm within 24 hours |
| AlarmMerge.NeverReopened | slog_check_warn/slog_check_warn.cpp:684-735 | a finished or stale record is never counted into again |
| AlarmMerge.NotesAreOpen | slog_check_warn/slog_check_warn.cpp:701-757 | every notification was queued by an alarm that was not masked, for a record of its subject that was new, untouched, or dealt with since longer than the quiet period |
| AlarmMerge.OneNoteEach | slog_check_warn/slog_check_warn.cpp:701-757 | no more notifications than unmasked alarms per subject |
| AlarmMerge.NotedExactly | slog_check_warn/slog_check_warn.cpp:684-757 | per subject there is one notification for every unmasked alarm whose subject has no open record, or one that is untouched or dealt with since longer than the quiet period |
| AlarmMerge.HeardIsNoted | slog_check_warn/slog_check_warn.cpp:684-757 | every such alarm has queued its notification, with the record it was counted into and its own time |
| AlarmHistory.RecordTellsRun | slog_check_warn/slog_check_warn.cpp:684-757 | after any run a record counts exactly the alarms raised while it was its subject's open one, from the first to the last; it is masked if and only if the last was, and else untouched, dealt with or finished by what the operators did since |
| AlarmMerge.PassLeavesRecord | slog_check_warn/slog_check_warn.cpp:664-757 | after a pass every alarm it raised has an unfinished record counted just now |
| AlarmPipeline.LowMachineIsRecorded | slog_check_warn/slog_check_warn.cpp:476-757 | one-minute attributes, from reports to records: a pass raises the count of a machine's minimum alarm by one and leaves exactly one record of it counted just now when the previous minute was low, and leaves the count otherwise |
| AlarmMerge.AlwaysStaggered | slog_check_warn/slog_check_warn.cpp:670-757 | an older unfinished record was stale before a newer one of its subject began |
| AlarmTable.WarnTable.MergeAlarms | slog_check_warn/slog_check_warn.cpp:664-757 | the loop leaves table and queue of a valid run extended by one event per alarm |
| AlarmTable.WarnTable.Deal | cgi_fcgi/mt_slog_showview.cpp:3513-3521 | the operators' two moves extend the run and keep table and queue those of a run |
| NotifyQueue.ExactlyOneFate | slog_check_warn/slog_check_warn.cpp:432-475 | over any interleaving an accepted notification is exactly one of pending, sent and expired, once |
| NotifyQueue.AlwaysRight | slog_deal_warn/slog_deal_warn.cpp:489-526 | it is sent only by the process its id selects and before it expires, and given up or overwritten only after it expired |
| NotifyQueue.RefusedOnlyWhenFull | slog_check_warn/slog_check_warn.cpp:438-465 | the producer refuses if and only if every slot holds a notification that has not timed out |
| NotifyQueue.TakesFirstFree | slog_check_warn/slog_check_warn.cpp:432-475 | the first free slot from the cursor on is taken and the cursor left behind it |
| NotifyQueue.OverwritesFirstTimedOut | slog_check_warn/slog_check_warn.cpp:432-475 | without a free slot the first timed-out one from the cursor on is overwritten |
| NotifyQueue.LookExactly | slog_deal_warn/slog_deal_warn.cpp:489-526 | over any run, a look at a notification gives it up after its expiry, sends it if its record id selects the process, and else leaves it |
| NotifyQueue.SentInTime | slog_deal_warn/slog_deal_warn.cpp:482-527 | over any interleaving, a notification has been sent once its process has looked at every slot since it was accepted and no clock has passed its expiry |
| NotifyPipeline.OriginsAre | slog_check_warn/slog_check_warn.cpp:432-475 | every accepted notification carries the record id and time of one offer, and later tokens come from later offers |
| NotifyPipeline.SentIsHeard | slog_deal_warn/slog_deal_warn.cpp:482-527 | over any merging run and any interleaving: everything sent is the notification of an alarm to be heard, sent by the process its record id selects and before it expires |
| NotifyPipeline.NoteSentOnce | slog_deal_warn/slog_deal_warn.cpp:489-526 | the notification of one alarm is sent at most once, and not given up as well |
| NotifyPipeline.AcceptedOrFull | slog_check_warn/slog_check_warn.cpp:432-475 | every notification offered was accepted, or met an array full of notifications that had not timed out |
| NotifyPipeline.NoteIsSent | slog_deal_warn/slog_deal_warn.cpp:482-527 | the notification of an alarm, once accepted, is sent if its process has looked at every slot since and no clock has passed its expiry |
| NotifyShm.NotifyArray.Search | slog_check_warn/slog_check_warn.cpp:434-465 | the circular search finds the specified slot and cursor |
| NotifyShm.NotifyArray.Offer | slog_check_warn/slog_check_warn.cpp:432-475 | the array after the producer's step |
| NotifyShm.NotifyArray.Look | slog_deal_warn/slog_deal_warn.cpp:489-526 | the array after one round of a consumer's loop |
| NotifyShm.NotifyArray.Scan | slog_deal_warn/slog_deal_warn.cpp:482-527 | a whole scan is its rounds in order: it sends exactly what is due for the process, and leaves only what is others' and still good |
| NotifyShm.ScanSendsDue | slog_deal_warn/slog_deal_warn.cpp:482-527 | slot by slot what a scan sends, gives up and leaves |
| RecentList.ApplyKeeps | slog_config/slog_config.cpp:1467-1606 | every row keeps ids distinct and the length within the maximum |
| RecentList.LoadedIsHead | slog_config/slog_config.cpp:1442-1543 | the first full read, in the table's order, loads exactly the head of the table up to the maximum |
| RecentList.ReloadedIsHead | slog_config/slog_config.cpp:1442-1589 | a full read onto any head of the table leaves the head of the table, filled up to the maximum |
| RecentList.RestartDisorders | slog_config/slog_config.cpp:1506-1513 | a record new at a full read is put behind an older one |
| RecentList.RestartDemotes | slog_config/slog_config.cpp:1568-1577 | a listed record with a new alarm at a full read is put behind everything older |
| RecentList.StaysHeadExactly | slog_config/slog_config.cpp:1467-1606 | after a change the list is still the head of the table's order if and only if the change is noticed and no unlisted older record was touched without a new alarm |
| RecentList.AlwaysHead | slog_config/slog_config.cpp:1442-1606 | the list is the head of the table through every run of such changes |
| RecentList.ListsMostRecent | slog_config/slog_config.cpp:1442-1606 | if the table is read by descending alarm time and new or changed alarm times are the latest: through every such run the list is sorted, holds records of the table, and no record outside it has a later alarm than one in it |
| RecentList.PageIsTables | cgi_fcgi/mt_slog_showview.cpp:3295-3388 | a page served from memory holds the table's records from the page's first to its last, and when the database is asked |
| RecentLinks.UnlinkChain | lib/mtagent_api_open/supper_log.h:1697-1707 | deleting keeps both link directions on the order without the node |
| RecentLinks.LinkFirstChain | lib/mtagent_api_open/supper_log.h:1678-1682 | inserting first keeps both link directions |
| RecentLinks.LinkLastChain | lib/mtagent_api_open/supper_log.h:1691-1695 | inserting last keeps both link directions |
| RecentLinks.WalksAreReverses | lib/mtagent_api_open/supper_log.h:1665-1707 | the walks from both ends stop by themselves and are each other's reverse |
| RecentShm.RecentAlarms.Walks | slog_config/slog_config.cpp:1467-1606 | from a valid state both walks have bLastWarnCount nodes, and a node has an id exactly when linked |
| RecentShm.RecentAlarms.Detach | lib/mtagent_api_open/supper_log.h:1697-1707 | one node leaves the chain, the links of the others are repaired |
| RecentShm.RecentAlarms.InsertRow | slog_config/slog_config.cpp:1473-1543 | a new row enters as specified; a full list gives up its last entry |
| RecentShm.RecentAlarms.RefreshRow | slog_config/slog_config.cpp:1544-1589 | a known row is copied, and moved when its alarm time changed |
| RecentShm.RecentAlarms.ReadRow | slog_config/slog_config.cpp:1467-1606 | the linked list after a row is the specified sequence |
| RecentShm.RecentAlarms.ReadPage | cgi_fcgi/mt_slog_showview.cpp:3295-3388 | the page read by following links is the specified slice |
| StrPacket.FittingIsShort | cgi_fcgi/mt_slog_reportinfo.cpp:331-335 | what is sent is a prefix of the valid entries, stays below the packet limit, and ends only where the next entry would not |
| StrPacket.EntryPlace | cgi_fcgi/mt_slog_reportinfo.cpp:301-344 | to be sent are exactly the items with a string and a positive number of known attributes, each behind those before it in the request |
| StrPacket.ParsePacked | slog_monitor_server/udp_sock.cpp:2121-2146 | the server's loop reads back any packed entries and stops behind the last byte |
| StrPacket.RoundTrip | cgi_fcgi/mt_slog_reportinfo.cpp:301-350 | from any request to the server: the valid entries in order up to the first that did not fit, every byte consumed |
| StrPacketIO.SendBuffer.PackItems | cgi_fcgi/mt_slog_reportinfo.cpp:319-344 | the inner loop packs all valid strings, or stops at one that does not fit |
| StrPacketIO.SendBuffer.Pack | cgi_fcgi/mt_slog_reportinfo.cpp:301-350 | the buffer holds the encoding of exactly the entries that fit |
| StrPacketIO.Parse | slog_monitor_server/udp_sock.cpp:2121-2146 | the loop terminates with the specified result on any bytes: the entries and the end, an error reply for a length that leads out of the content at either end, or out of the model for another negative length and for a string that runs out of the content |
| CfgText.ScanPrint | cgi_fcgi/mt_slog_showview.cpp:2041-2087 | scanning a printed list whose names hold no space or semicolon and whose values no semicolon gives its settings trimmed, without empty ones |
| CfgText.ScanExactly | cgi_fcgi/mt_slog_showview.cpp:2041-2087 | any text is a row of names up to a space and values up to a semicolon, and scanning gives what these give |
| CfgText.TrimExactly | lib/mtagent_api_open/sv_str.cpp:484-523 | trimming leaves exactly what stands between runs of spaces, tabs and line ends |
| CfgText.RoundTripExactly | cgi_fcgi/mt_slog_showview.cpp:2041-2087 | of all lists, the same sequence of pairs comes back if and only if names and values are not empty and have no blank ends, names hold no space or semicolon, and values no semicolon |
| CfgPrint.FormRoundTrip | cgi_fcgi/mt_slog.cpp:4497-4548 | what any accepted form printed is read back unchanged if and only if its names hold no space or semicolon and nothing is empty or has blank ends; with such names only trimming and empty settings are lost |
| CfgPrint.ItemsExactly | cgi_fcgi/mt_slog.cpp:4502-4526 | a form is accepted if and only if the values of its chosen settings hold no space or semicolon, and then prints exactly the chosen ones in order |
| CfgPrint.CustomsExactly | cgi_fcgi/mt_slog.cpp:4528-4548 | custom settings are all printed in order or the first bad one turns the form down, and how |
| CfgPrint.Printer.Run | cgi_fcgi/mt_slog.cpp:4497-4548 | the stream holds the text of the accepted settings; when a form is turned down |
| CfgScan.StripInPlace | lib/mtagent_api_open/sv_str.cpp:434-523 | trimming in place leaves the trimmed string and touches nothing else |
| CfgScan.ReplaceInPlace | lib/mtagent_api_open/sv_str.cpp:525-532 | replacing in place leaves the replaced string and touches nothing else |
| CfgScan.Take | cgi_fcgi/mt_slog_showview.cpp:2072-2085 | one name and value are cut, trimmed and kept unless one is empty |
| CfgScan.ScanList | cgi_fcgi/mt_slog_showview.cpp:2041-2087 | the scanner that cuts up its own buffer yields the specified settings for any text |

## Left out

- Clock: daylight saving and the wrap of 32-bit times in 2106 are not modelled; a day has 86400 seconds.
- Shared memory: every operation is one atomic step; races inside a `memcpy` or between the two server processes are not modelled.
- Hash tables: finite maps or sequences of nodes; collisions, iteration order repairs and access checks are not modelled.
- ReportRuns.RowsSound: claims soundness and at most one row, not that every slot gets a row, because a slot whose last report is one period old is skipped on purpose.
- ReportRuns.WindowAlwaysExact: one type and period per run; a change of type or period in the middle of a slot has no aggregate to compare with.
- ReportTotals.TotalCountsAll: counts modulo 2^32, and the three values ascend only while the sum fits a word.
- Cumulative bootstrap: the cache that seeds cumulative attributes is not modelled.
- String pool: the early return on an index outside the array is not modelled, because a well-formed pool has none; the address lookup of the IP type and loading from the database are not modelled.
- Database writer: the pause between passes and automatic binding of machines to views are not modelled.
- DayCodec.ReadRecord: header bytes missing from a record of fewer than five bytes are read as zeros; no length test accepts such a record either way.
- Memory cache: today's values come from a cache whose contents are not part of this model.
- ViewPipeline.ViewShowsReports: for one-minute attributes; the previous value of a view is `ViewPipeline.PreviousCountsTwice`.
- ViewRuns.ViewsShowReports: configurations do not change during a run.
- NotifyPipeline.SentIsHeard: the producer's and the consumers' clocks are the times of their steps and need not agree.
- ViewBindings.BindingsFollowRows: rows that would bind a 21st view are undefined behaviour and end the statement; attribute rows behind a full hash table are not read at all and do not belong to the rows; the copies kept in the view itself are not modelled.
- View alarms and exception alarms: only the values they test are modelled, not the alarms; the one a view gets from the configuration loop is `MachineReports.ViewMinimumExactly`. In merging, any list of alarms is covered.
- Alarm settings: a machine and a view with the same id share one configuration entry; the model keeps the lookup as it is.
- MachinePass.PassMinima: a pass in which a wave product overflows (`MachinePass.NodePhaseDefinedExactly`) is undefined behaviour, and nothing is claimed of it.
- AlarmMerge.AllCounted: runs without SQL errors and without deleted records; warn_times is unbounded.
- DealWarnsInShm: the status update in the recent list matches ids by substring and is not modelled.
- NotifyQueue.ExactlyOneFate: a slot's check and its clearing are one step, and tokens number notifications although the source stores no such number; skipping or failing to deliver counts as sent.
- RecentShm.RecentAlarms.ReadRow: the hash table's answer for an id is a parameter.
- RecentList.AlwaysHead: the head of the order in which changed records move to the front; that this is the order of alarm times is `RecentList.ListsMostRecent`, for alarms raised in time order.
- StrPacketIO.Parse: a negative length with which the server goes on inside what it has read, whose headers it has byte-swapped in place, and a string that runs out of the content are not followed further; neither occurs in a packed buffer.
- CfgScan.ScanList: yields the pairs in order; the JSON object keeps the last value of a repeated name.
- CfgPrint.Printer.Run: reading the form and the database transaction are not modelled.
- Sockets, protobuf, encryption, FastCGI pages, mail and the other tables of the configuration process hold no further state machine and are not modelled.
