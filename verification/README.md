# Order-book monitor: bucketing, wall alerts and spoofing detection in Dafny

This project models the analysis core of a desktop monitor for one Binance
order book (`orderbook.py`). Every two to three seconds the monitor polls the
book and does four things:

- **Bucketing** (`group_orders`): it groups raw `(price, amount)` levels into
  buckets keyed by `round(price / interval) * interval`. Amounts that land in
  the same bucket are summed, and the buckets come out in ascending price order.
- **Wall alerts** (`detect_large_walls` / `check_and_notify`): it scans each
  side for the first level above the wall threshold that the notification
  memory `last_notified_walls` does not suppress. It records that level and
  reports it.
- **Spoofing detection** (`detect_cancellations` / `compare_orders`): it
  outer-joins the previous and current snapshot on price and reports every
  price whose amount fell by more than the cancellation threshold.
- **Poll cycle** (`OrderBookGUI.update_order_book_thread`, `toggle_updates`,
  `SettingsDialog.save_settings`): it keeps the run flag, the settings and the
  previous snapshot between cycles.

Modules, one per component:

- `levels.dfy` (`Levels`): the `Level` and `Book` values, sums and the
  price table of a side.
- `grouping.dfy` (`Grouping`): `GroupOrders`, an imperative method with the
  dictionary loop and the sort. It is specified by the predicate `IsGrouping`.
  The lemmas prove that `IsGrouping` fixes the result uniquely, conserves
  volume, is idempotent and puts every bucket on the interval grid.
- `walls.dfy` (`Walls`): the class `WallMemory`, holding the two maps of
  `last_notified_walls`. Its method `CheckAndNotify` has the `continue`/`break`
  loop and is proved against the function `FirstWall`.
- `cancellations.dfy` (`Cancellations`): `compare_orders` as pure functions
  over price tables.
- `poller.dfy` (`Poller`): the class `Monitor` for the module globals, the run
  flag, the wall memory and the polling thread's `previous_order_book`.
  `Cycle` is one loop iteration, `Run` a finite run of them.

Modelling choices:

- Prices, amounts and time are exact `real`s. The grouping interval is an
  integer, since its spin box is a `QSpinBox`.
- `round` is Python's round-half-to-even, applied to the exact quotient (`RoundHalfEven`).
- The wall memory is keyed by the bucket price itself, not by its
  `"%.2f"` string. Buckets are multiples of an interval of at least 10, so the
  two keyings coincide.
- The fetch is a parameter of `Cycle`: the raw levels, or `None` when
  `fetch_order_book` returned `None`. The time `now` is also a parameter.
  `Cycle` returns the request it issued (symbol and interval), so a run
  pairs each poll with the fetch it answers.

Behaviour kept exactly as the code has it:

- **Scan order.** The wall scan runs over the ascending output of
  `group_orders`, so on the bid side it starts at the lowest bid, not the best
  bid. `AscendingScanReportsLowestWall` states this.
- **Symbol switch.** `save_settings` does not clear the previous snapshot. The
  first cycle after a symbol switch therefore diffs the new symbol's book
  against the old symbol's. `SymbolSwitchDiffsAcrossSymbols` shows this.
- **Empty side.** `analyze_order_book` takes the amount column `bids[:, 1]`
  and `asks[:, 1]` (orderbook.py:150-151). On an empty side that indexing
  raises. The cycle then fails: no wall is scanned and the
  previous snapshot is kept.
- **Resume fetch.** On resume, `toggle_updates` calls `fetch_order_book()`
  with its defaults, which are `BTCUSDT` and interval 150. Python bound those
  defaults when the function was defined, so they ignore the active settings.
- **Division safety.** No zero-amount guard is needed for the 10% test: with
  a threshold of at least 0, every stored amount is positive
  (`RecordedWritesOnlyTheWall`).

## Model

| member | source | states |
|---|---|---|
| `Grouping.RoundHalfEven` | orderbook.py:62 | the result is an integer within one half of the argument, and a tie goes to the even integer (Python's `round`) |
| `Grouping.Bucket` | orderbook.py:62 | the bucket of a price lies within half an interval of that price |
| `Grouping.BucketIsMultiple` | orderbook.py:62 | every bucket price divided by the interval is a whole number |
| `Grouping.BucketIsFixed` | orderbook.py:62 | bucketing a bucket price returns it unchanged |
| `Grouping.Accumulate` | orderbook.py:58-66 | after the loop the dictionary's keys are exactly the buckets of the input, and each value is the summed amount of the input levels in that bucket |
| `Grouping.SortedItems` | orderbook.py:68 | the items come out strictly ascending by price, with exactly the dictionary's keys and their values |
| `Grouping.GroupOrders` | orderbook.py:57-68 | the result is strictly ascending, its prices are exactly the input's buckets, and each amount is that bucket's volume (`IsGrouping`) |
| `Grouping.GroupingIsUnique` | orderbook.py:57-68 | two results that satisfy `IsGrouping` for the same input and interval are equal, so the contract of `GroupOrders` fixes its output |
| `Grouping.GroupingEmptyIff` | orderbook.py:57-68 | the grouping is empty exactly when the input is empty |
| `Grouping.GroupingConservesVolume` | orderbook.py:59-66 | the grouped amounts sum to the raw amounts |
| `Grouping.GroupedPriceIsBucketOfInput` | orderbook.py:62-66 | every grouped price is the bucket of some input level, lies within half an interval of that level's price, and is a whole number of intervals |
| `Grouping.GroupingIsIdempotent` | orderbook.py:57-68 | grouping a grouped side again at the same interval returns that side |
| `Walls.Suppressed` | orderbook.py:181-184 | a level is skipped exactly when its price was notified less than a cooldown before now and its amount lies strictly between 90% and 110% of the notified amount |
| `Walls.WithinTenPercent` | orderbook.py:183 | for a positive notified amount, the relative change is below 10% exactly when the new amount lies strictly within 10% of it |
| `Walls.Notifies` | orderbook.py:179-184 | a level that notifies is above the wall threshold; a price never notified, or notified a cooldown or more ago, notifies exactly when it is above the threshold |
| `Walls.FirstWall` | orderbook.py:177-188 | the reported index is the first level, in input order, that is above the threshold and not suppressed; every level before it, or every level when none is reported, is either at or below the threshold or suppressed |
| `Walls.WallMemory.constructor` | orderbook.py:50 | both side memories start empty |
| `Walls.WallMemory.CheckAndNotify` | orderbook.py:176-188 | reports `FirstWall`'s level; that side's memory gains exactly that level's `(now, amount)`; the other side's memory is unchanged; memories stay positive |
| `Walls.WallMemory.DetectLargeWalls` | orderbook.py:173-191 | one scan per side at the same `now`, so at most one wall per side; each side's memory is updated by its own scan only |
| `Walls.RecordedWritesOnlyTheWall` | orderbook.py:179-186 | a scan keeps all old keys, and the only entry it writes or adds is the reported level's price, set to `(now, amount)` with an amount above the threshold; with a threshold of at least 0 every stored amount stays positive |
| `Walls.ReportedIsUnsuppressedWall` | orderbook.py:179-188 | a reported level occurs in the input, is above the threshold and is not suppressed; when nothing is reported, every level above the threshold is suppressed |
| `Walls.AscendingScanReportsLowestWall` | orderbook.py:177-188 | on a strictly ascending side, the reported wall has the lowest price among the levels that would notify |
| `Walls.EmptyMemoryReportsFirstAboveThreshold` | orderbook.py:179-188 | with an empty memory a wall is reported exactly when some level is above the threshold, and it is the first such level (of two walls, only the first is reported) |
| `Walls.RescanMovesPastRecordedWall` | orderbook.py:181-188 | with a positive cooldown, scanning the same strictly ascending side again at the same time reports nothing or a level after the recorded one |
| `Walls.SmallChangeWithinCooldownIsSuppressed` | orderbook.py:181-184 | a wall recorded at time T with amount A is suppressed at T + cooldown/2 when its amount is 1.05·A |
| `Walls.LargeChangeWithinCooldownNotifies` | orderbook.py:181-188 | the same wall is reported again at T + cooldown/2 when its amount is 1.5·A |
| `Walls.ExpiredCooldownNotifies` | orderbook.py:181-188 | once the cooldown has elapsed, a wall above the threshold is reported whatever its change |
| `Cancellations.OuterJoin` | orderbook.py:208-209 | the joined table has one row per price of either snapshot; a row holds each snapshot's amount where it has that price and 0 where it does not |
| `Cancellations.CompareOrders` | orderbook.py:204-215 | only prices of the two snapshots are reported, each with an amount above the threshold; a price in both is reported exactly when previous minus current exceeds the threshold, one only in the previous snapshot exactly when its whole amount does, one only in the current snapshot exactly when minus its amount does, each with that difference |
| `Cancellations.DetectCancellations` | orderbook.py:203-220 | on each side independently, a price is reported exactly when it occurs in that side of either snapshot and its amount, 0 where absent, dropped by more than the threshold, and it is reported with that drop; so every reported price comes from that side and exceeds the threshold |
| `Cancellations.ReportedExactlyWhenDropExceedsThreshold` | orderbook.py:204-215 | a price is reported exactly when it is in either snapshot and previous minus current, with a missing side counted as 0, exceeds the threshold; it is reported with that difference |
| `Cancellations.NewOrGrownLevelsNeverReported` | orderbook.py:208-212 | with a threshold of at least 0, a price only in the current snapshot, or one whose amount did not fall, is never reported |
| `Cancellations.CancelledAmountBounds` | orderbook.py:212-215 | every reported amount exceeds the threshold and is at most the previous amount at that price |
| `Cancellations.VanishedLevelReportedWhole` | orderbook.py:208-215 | a price gone from the current snapshot is reported with its whole previous amount when that exceeds the threshold |
| `Cancellations.VanishedBidReported` | orderbook.py:203-220 | for grouped snapshots, a previous bid level absent from the current bids is reported on the bid side with its whole amount, independently of the asks |
| `Cancellations.PartialCancellationExample` | orderbook.py:204-215 | previous {100: 50}, current {100: 10}, threshold 20 gives exactly {100: 40} |
| `Cancellations.FullCancellationExample` | orderbook.py:208-215 | previous {100: 50}, current empty, threshold 20 gives exactly {100: 50} |
| `Poller.Monitor.constructor` | orderbook.py:23-51 | start-up state: BTCUSDT, interval 150, wall threshold 300, cancellation threshold 80, cooldown 3600, running, no previous snapshot, empty wall memory |
| `Poller.Monitor.Analyze` | orderbook.py:470-483 | for a grouped book: each side's wall is the one its scan reports against the old memory, each memory records its own scan, the diff is made against the previous snapshot only when there is one, and the book becomes the previous snapshot; settings are unchanged |
| `Poller.Monitor.Cycle` | orderbook.py:462-490 | when paused, nothing is requested and nothing changes; when running, it requests the active symbol at the active interval; when the fetch fails or a side is empty, the cycle fails and the previous snapshot and wall memory are kept; otherwise both sides are grouped, walls are detected on both, cancellations are computed only if a previous snapshot exists, and the previous snapshot becomes the new book |
| `Poller.Monitor.Run` | orderbook.py:462-490 | for every poll: when running, it requests the active symbol and interval, completes exactly when the fetch returned both sides non-empty with that fetch grouped at the interval as its book, and fails otherwise; when paused it only idles. Each completed cycle reports each side's wall as scanned against that side's memory after the earlier cycles, and diffs against the book of the last earlier completed cycle only when there is one. Settings and the run flag are unchanged; the previous snapshot ends as the last completed book (or the original one), and each side's memory as every completed cycle's scan recorded in turn |
| `Poller.Monitor.ToggleUpdates` | orderbook.py:545-557 | flips the run flag and keeps the settings in range; on resume it asks for a state-summary fetch of BTCUSDT at interval 150 whatever the settings; the snapshot and settings are unchanged |
| `Poller.Monitor.SaveSettings` | orderbook.py:314-326 | overwrites the symbol, interval, thresholds and cooldown within the spin-box ranges, and keeps the run flag and the previous snapshot |
| `Poller.SymbolSwitchDiffsAcrossSymbols` | orderbook.py:314-326 | after a cycle that fetched BTCUSDT and a switch to ETHUSDT, the next cycle fetches ETHUSDT yet diffs its book against the BTCUSDT book |
| `Poller.PauseThenResume` | orderbook.py:545-552 | a cycle while paused is idle; after resuming, a cycle completes, and with no earlier completed cycle it does no cancellation diff |
| `Poller.FirstPollGrouping` | orderbook.py:57-68 | raw bids (100.02, 10) and (100.04, 5) at interval 10 group to exactly [(100, 15)] |
| `Poller.SecondPollGrouping` | orderbook.py:57-68 | raw bid (100.01, 2) at interval 10 groups to exactly [(100, 2)] |
| `Poller.BucketedCancellationExample` | orderbook.py:203-220 | diffing those two grouped bid sides with threshold 5 reports exactly 13 cancelled at 100 |

## Left out

- HTTP fetch, JSON parsing and `float(...)` conversion of the price and amount strings (`fetch_order_book`, orderbook.py:120-140). These are network I/O. A failed fetch, a missing side or an unparsable number is the `None` passed to `Cycle`.
- The statistics in `analyze_order_book` (spread, mid price, volume totals, log signal; orderbook.py:142-167). They only feed a log line. The model keeps only that it raises on an empty side and then scans walls on the ascending levels.
- Telegram and sound notifications and every message string (orderbook.py:187, 193-200, 216-217, 222-240). Alerts are returned as values. `send_current_state` after resuming is reduced to the fetch it requests.
- Threads, the lock, `threading.Event` and the random 2-3 s sleep. Each cycle is one atomic step, and toggles or settings changes happen between cycles.
- All PyQt code: the dialog layout, table rendering, colour shading, log toggling, and display sorting of bids in descending order. Also left out is `load_pair_settings` and the `default_settings` table that `save_settings` also writes, since only the dialog reads it.
- The dead module-level `update_pair`, `update_group_interval` and `update_order_book_thread` (orderbook.py:70-118). Nothing calls them.
- Floating-point rounding noise. Arithmetic is exact.
- Walls.WallMemory.CheckAndNotify: the memory key is the bucket price, not its `"%.2f"` rendering. Two prices that differ only beyond the second decimal would share one key in the program. This cannot happen for buckets on an integer interval grid.
