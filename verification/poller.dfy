/**
 The poll cycle of `OrderBookGUI.update_order_book_thread` and the controls
 around it, with I/O, sleeping and threads stripped away. A `Monitor` holds
 the settings the program keeps in module globals, the run flag, the wall
 memory and the previous snapshot the polling thread keeps. One call of
 `Cycle` is one iteration of the polling loop; the fetched raw levels are a
 parameter.
 */
module Poller {
  import opened Levels
  import opened Grouping
  import opened Walls
  import opened Cancellations

  /** `fetch_order_book`'s default symbol. */
  const DEFAULT_SYMBOL: string := "BTCUSDT"
  /** `GROUP_INTERVAL` when `fetch_order_book` was defined, the default of its `group_interval`. */
  const DEFAULT_INTERVAL: int := 150

  /** The symbol and grouping interval a fetch asks for. */
  datatype FetchRequest = FetchRequest(symbol: string, interval: int)

  /** What one iteration of the polling loop did. */
  datatype Outcome =
    | Idle
      // paused: nothing fetched
    | Failed
      // the fetch returned nothing or the analysis raised; `update_signal.emit(None)`
    | Completed(book: Book, bidWall: Option<Level>, askWall: Option<Level>, cancelled: Option<Cancelled>)

  /** The ranges the settings dialog's spin boxes allow. */
  predicate SettingsInRange(interval: int, wallThreshold: real, cancellationThreshold: real, cooldown: int)
  {
    && 10 <= interval <= 1000
    && 0.0 <= wallThreshold <= 1000000.0
    && 0.0 <= cancellationThreshold <= 1000000.0
    && 0 <= cooldown <= 86400
  }

  /** One poll: what the exchange returned (raw levels, or nothing on failure) and the time. */
  datatype Poll = Poll(fetched: Option<Book>, now: real)

  /** The fetch returned both sides, and neither is empty: the analysis can go ahead. */
  predicate Answered(poll: Poll)
  {
    poll.fetched.Some? && poll.fetched.value.bids != [] && poll.fetched.value.asks != []
  }

  /**
   What a cycle did with one poll: when running it requested the active
   symbol at the active interval and completed exactly when the poll was
   answered, with the answer grouped at that interval as its book; when
   paused it requested nothing and idled.
   */
  predicate Answers(running: bool, symbol: string, interval: int, poll: Poll, request: Option<FetchRequest>, outcome: Outcome)
  {
    && interval > 0
    && request == (if running then Some(FetchRequest(symbol, interval)) else None)
    && (outcome.Completed? <==> running && Answered(poll))
    && (outcome == Failed <==> running && !Answered(poll))
    && (outcome == Idle <==> !running)
    && (outcome.Completed? && poll.fetched.Some? ==>
          && IsGrouping(poll.fetched.value.bids, interval, outcome.book.bids)
          && IsGrouping(poll.fetched.value.asks, interval, outcome.book.asks))
  }

  /** The book of the last completed outcome, or `start` when none completed. */
  function LastBook(outcomes: seq<Outcome>, start: Option<Book>): Option<Book>
  {
    if outcomes == [] then start
    else match outcomes[|outcomes| - 1]
      case Completed(book, _, _, _) => Some(book)
      case _ => LastBook(outcomes[..|outcomes| - 1], start)
  }

  /** One side of a book. */
  function SideOf(book: Book, side: Side): seq<Level>
  {
    if side == Bids then book.bids else book.asks
  }

  /**
   One side's wall memory after the cycles in `outcomes`, starting from
   `start`: every completed cycle records its scan of that side at its
   poll's time, and the other cycles leave the memory alone.
   */
  function MemoryAfter(side: Side, polls: seq<Poll>, outcomes: seq<Outcome>, start: Memory, threshold: real, cooldown: int): (mem: Memory)
    requires |outcomes| <= |polls|
    requires PositiveMemory(start) && threshold >= 0.0
    ensures PositiveMemory(mem)
  {
    if outcomes == [] then start
    else
      var k := |outcomes| - 1;
      var before := MemoryAfter(side, polls, outcomes[..k], start, threshold, cooldown);
      match outcomes[k]
      case Completed(book, _, _, _) =>
        RecordedWritesOnlyTheWall(SideOf(book, side), before, threshold, cooldown, polls[k].now);
        Recorded(SideOf(book, side), before, threshold, cooldown, polls[k].now)
      case _ => before
  }

  /**
   What a completed cycle reported: each side's wall as scanned against that
   side's memory at the poll's time, and a cancellation diff against `last`,
   the book of the last earlier completed cycle, only when there is one.
   */
  predicate Analyzes(poll: Poll, outcome: Outcome, last: Option<Book>, bidMemory: Memory, askMemory: Memory,
                     wallThreshold: real, cancellationThreshold: real, cooldown: int)
    requires PositiveMemory(bidMemory) && PositiveMemory(askMemory)
  {
    outcome.Completed? ==>
      && outcome.bidWall == Reported(outcome.book.bids, bidMemory, wallThreshold, cooldown, poll.now)
      && outcome.askWall == Reported(outcome.book.asks, askMemory, wallThreshold, cooldown, poll.now)
      && outcome.cancelled == (if last.Some? then Some(DetectCancellations(last.value, outcome.book, cancellationThreshold)) else None)
  }

  /**
   A run's record so far: every cycle in `outcomes` answered its poll with
   the request in `requests`, and analyzed its book against the snapshot and
   wall memories the earlier cycles left, starting from `start`, `bids` and
   `asks`.
   */
  predicate Trace(polls: seq<Poll>, requests: seq<Option<FetchRequest>>, outcomes: seq<Outcome>,
                  running: bool, symbol: string, interval: int,
                  wallThreshold: real, cancellationThreshold: real, cooldown: int,
                  start: Option<Book>, bids: Memory, asks: Memory)
    requires |requests| == |outcomes| <= |polls|
    requires PositiveMemory(bids) && PositiveMemory(asks) && wallThreshold >= 0.0
    decreases |outcomes|
  {
    outcomes == [] ||
    var k := |outcomes| - 1;
    && Trace(polls, requests[..k], outcomes[..k], running, symbol, interval,
             wallThreshold, cancellationThreshold, cooldown, start, bids, asks)
    && Answers(running, symbol, interval, polls[k], requests[k], outcomes[k])
    && Analyzes(polls[k], outcomes[k], LastBook(outcomes[..k], start),
                MemoryAfter(Bids, polls, outcomes[..k], bids, wallThreshold, cooldown),
                MemoryAfter(Asks, polls, outcomes[..k], asks, wallThreshold, cooldown),
                wallThreshold, cancellationThreshold, cooldown)
  }

  /** What a run's record says about its cycle `j`. */
  lemma {:induction false} TraceAt(polls: seq<Poll>, requests: seq<Option<FetchRequest>>, outcomes: seq<Outcome>,
                                   running: bool, symbol: string, interval: int,
                                   wallThreshold: real, cancellationThreshold: real, cooldown: int,
                                   start: Option<Book>, bids: Memory, asks: Memory, j: nat)
    requires |requests| == |outcomes| <= |polls|
    requires PositiveMemory(bids) && PositiveMemory(asks) && wallThreshold >= 0.0
    requires Trace(polls, requests, outcomes, running, symbol, interval,
                   wallThreshold, cancellationThreshold, cooldown, start, bids, asks)
    requires j < |outcomes|
    ensures Answers(running, symbol, interval, polls[j], requests[j], outcomes[j])
    ensures Analyzes(polls[j], outcomes[j], LastBook(outcomes[..j], start),
                     MemoryAfter(Bids, polls, outcomes[..j], bids, wallThreshold, cooldown),
                     MemoryAfter(Asks, polls, outcomes[..j], asks, wallThreshold, cooldown),
                     wallThreshold, cancellationThreshold, cooldown)
  {
    var k := |outcomes| - 1;
    if j < k {
      TraceAt(polls, requests[..k], outcomes[..k], running, symbol, interval,
              wallThreshold, cancellationThreshold, cooldown, start, bids, asks, j);
      assert outcomes[..k][..j] == outcomes[..j];
    }
  }

  /** A run's record grows by one cycle that answered its poll and analyzed its book. */
  lemma TraceExtends(polls: seq<Poll>, requests: seq<Option<FetchRequest>>, outcomes: seq<Outcome>,
                     request: Option<FetchRequest>, outcome: Outcome,
                     running: bool, symbol: string, interval: int,
                     wallThreshold: real, cancellationThreshold: real, cooldown: int,
                     start: Option<Book>, bids: Memory, asks: Memory)
    requires |requests| == |outcomes| < |polls|
    requires PositiveMemory(bids) && PositiveMemory(asks) && wallThreshold >= 0.0
    requires Trace(polls, requests, outcomes, running, symbol, interval,
                   wallThreshold, cancellationThreshold, cooldown, start, bids, asks)
    requires Answers(running, symbol, interval, polls[|outcomes|], request, outcome)
    requires Analyzes(polls[|outcomes|], outcome, LastBook(outcomes, start),
                      MemoryAfter(Bids, polls, outcomes, bids, wallThreshold, cooldown),
                      MemoryAfter(Asks, polls, outcomes, asks, wallThreshold, cooldown),
                      wallThreshold, cancellationThreshold, cooldown)
    ensures Trace(polls, requests + [request], outcomes + [outcome], running, symbol, interval,
                  wallThreshold, cancellationThreshold, cooldown, start, bids, asks)
  {
    var requests', outcomes' := requests + [request], outcomes + [outcome];
    var k := |outcomes|;
    assert requests'[..k] == requests && outcomes'[..k] == outcomes;
    assert requests'[k] == request && outcomes'[k] == outcome;
  }

  /** One more cycle leaves the last completed book, or replaces it with its own. */
  lemma LastBookExtends(outcomes: seq<Outcome>, outcome: Outcome, start: Option<Book>)
    ensures LastBook(outcomes + [outcome], start) ==
      if outcome.Completed? then Some(outcome.book) else LastBook(outcomes, start)
  {
    assert (outcomes + [outcome])[..|outcomes|] == outcomes;
  }

  /** One more cycle leaves a side's memory, or records its scan of that side on top. */
  lemma MemoryAfterExtends(side: Side, polls: seq<Poll>, outcomes: seq<Outcome>, outcome: Outcome,
                           start: Memory, threshold: real, cooldown: int)
    requires |outcomes| < |polls|
    requires PositiveMemory(start) && threshold >= 0.0
    ensures MemoryAfter(side, polls, outcomes + [outcome], start, threshold, cooldown) ==
      if outcome.Completed?
      then Recorded(SideOf(outcome.book, side), MemoryAfter(side, polls, outcomes, start, threshold, cooldown),
                    threshold, cooldown, polls[|outcomes|].now)
      else MemoryAfter(side, polls, outcomes, start, threshold, cooldown)
  {
    assert (outcomes + [outcome])[..|outcomes|] == outcomes;
  }

  /** What a run's record says about each of its cycles. */
  lemma TraceAll(polls: seq<Poll>, requests: seq<Option<FetchRequest>>, outcomes: seq<Outcome>,
                 running: bool, symbol: string, interval: int,
                 wallThreshold: real, cancellationThreshold: real, cooldown: int,
                 start: Option<Book>, bids: Memory, asks: Memory)
    requires |requests| == |outcomes| == |polls|
    requires PositiveMemory(bids) && PositiveMemory(asks) && wallThreshold >= 0.0
    requires Trace(polls, requests, outcomes, running, symbol, interval,
                   wallThreshold, cancellationThreshold, cooldown, start, bids, asks)
    ensures forall j :: 0 <= j < |polls| ==>
      Answers(running, symbol, interval, polls[j], requests[j], outcomes[j])
    ensures forall j :: 0 <= j < |polls| ==>
      Analyzes(polls[j], outcomes[j], LastBook(outcomes[..j], start),
               MemoryAfter(Bids, polls, outcomes[..j], bids, wallThreshold, cooldown),
               MemoryAfter(Asks, polls, outcomes[..j], asks, wallThreshold, cooldown),
               wallThreshold, cancellationThreshold, cooldown)
  {
    forall j | 0 <= j < |polls|
      ensures Answers(running, symbol, interval, polls[j], requests[j], outcomes[j])
      ensures Analyzes(polls[j], outcomes[j], LastBook(outcomes[..j], start),
                       MemoryAfter(Bids, polls, outcomes[..j], bids, wallThreshold, cooldown),
                       MemoryAfter(Asks, polls, outcomes[..j], asks, wallThreshold, cooldown),
                       wallThreshold, cancellationThreshold, cooldown)
    {
      TraceAt(polls, requests, outcomes, running, symbol, interval,
              wallThreshold, cancellationThreshold, cooldown, start, bids, asks, j);
    }
  }

  class Monitor {
    var symbol: string
    var groupInterval: int
    var wallThreshold: real
    var cancellationThreshold: real
    var cooldown: int
    var running: bool
    var previous: Option<Book>
    const walls: WallMemory

    ghost predicate Valid()
      reads this, walls
    {
      SettingsInRange(groupInterval, wallThreshold, cancellationThreshold, cooldown) && walls.Valid()
    }

    /** The program's start-up state: the module globals' initial values, running, no snapshot yet. */
    constructor ()
      ensures Valid() && fresh(walls)
      ensures symbol == "BTCUSDT" && groupInterval == 150
      ensures wallThreshold == 300.0 && cancellationThreshold == 80.0 && cooldown == 3600
      ensures running && previous == None
      ensures walls.bids == map[] && walls.asks == map[]
    {
      symbol, groupInterval := "BTCUSDT", 150;
      wallThreshold, cancellationThreshold, cooldown := 300.0, 80.0, 3600;
      running, previous := true, None;
      walls := new WallMemory();
    }

    /**
     One iteration of the polling loop. When running it issues `request`, a
     fetch of the active `symbol` at the active `groupInterval`; `fetched` is
     the exchange's answer as raw levels (None when the fetch failed), and
     they are grouped at that interval (`Answers`). A completed cycle scans
     walls against the memory and diffs against the previous snapshot as
     `Analyzes` says, records its scans and keeps its book as the new
     snapshot; an idle or failed cycle changes neither.
     */
    method Cycle(fetched: Option<Book>, now: real) returns (request: Option<FetchRequest>, outcome: Outcome)
      requires Valid()
      modifies this, walls
      ensures Valid()
      ensures request == if old(running) then Some(FetchRequest(old(symbol), old(groupInterval))) else None
      ensures symbol == old(symbol) && groupInterval == old(groupInterval) && running == old(running)
      ensures wallThreshold == old(wallThreshold) && cancellationThreshold == old(cancellationThreshold)
      ensures cooldown == old(cooldown)
      ensures Answers(old(running), old(symbol), old(groupInterval), Poll(fetched, now), request, outcome)
      ensures Analyzes(Poll(fetched, now), outcome, old(previous), old(walls.bids), old(walls.asks),
                       wallThreshold, cancellationThreshold, cooldown)
      ensures previous == if outcome.Completed? then Some(outcome.book) else old(previous)
      ensures walls.bids == if outcome.Completed? then Recorded(outcome.book.bids, old(walls.bids), wallThreshold, cooldown, now) else old(walls.bids)
      ensures walls.asks == if outcome.Completed? then Recorded(outcome.book.asks, old(walls.asks), wallThreshold, cooldown, now) else old(walls.asks)
    {
      if !running {
        return None, Idle;
      }
      request := Some(FetchRequest(symbol, groupInterval));
      if fetched.None? {
        return request, Failed;
      }
      // fetch_order_book groups both sides at the current interval.
      var bids := GroupOrders(fetched.value.bids, groupInterval);
      var asks := GroupOrders(fetched.value.asks, groupInterval);
      GroupingEmptyIff(fetched.value.bids, groupInterval, bids);
      GroupingEmptyIff(fetched.value.asks, groupInterval, asks);
      // analyze_order_book takes the amount column `bids[:, 1]` / `asks[:, 1]`
      // of each side: on an empty side that indexing raises.
      if bids == [] || asks == [] {
        return request, Failed;
      }
      outcome := Analyze(Book(bids, asks), now);
    }

    /**
     The analysis of a grouped book with both sides non-empty: scan both
     sides for walls, diff against the previous snapshot when there is one,
     and keep the book as the new previous snapshot.
     */
    method Analyze(book: Book, now: real) returns (outcome: Outcome)
      requires Valid()
      modifies this, walls
      ensures Valid()
      ensures symbol == old(symbol) && groupInterval == old(groupInterval) && running == old(running)
      ensures wallThreshold == old(wallThreshold) && cancellationThreshold == old(cancellationThreshold)
      ensures cooldown == old(cooldown)
      ensures outcome.Completed? && outcome.book == book
      ensures outcome.bidWall == Reported(book.bids, old(walls.bids), wallThreshold, cooldown, now)
      ensures outcome.askWall == Reported(book.asks, old(walls.asks), wallThreshold, cooldown, now)
      ensures walls.bids == Recorded(book.bids, old(walls.bids), wallThreshold, cooldown, now)
      ensures walls.asks == Recorded(book.asks, old(walls.asks), wallThreshold, cooldown, now)
      ensures outcome.cancelled == (if old(previous).Some?
                                    then Some(DetectCancellations(old(previous).value, book, cancellationThreshold))
                                    else None)
      ensures previous == Some(book)
    {
      var bidWall, askWall := walls.DetectLargeWalls(book.bids, book.asks, wallThreshold, cooldown, now);
      var cancelled := None;
      if previous.Some? {
        cancelled := Some(DetectCancellations(previous.value, book, cancellationThreshold));
      }
      previous := Some(book);
      outcome := Completed(book, bidWall, askWall, cancelled);
    }

    /**
     The polling loop run for a finite number of iterations, poll `j`
     answering request `j`. A cycle completes exactly when the monitor runs
     and the fetch returned both sides non-empty, and then its book is that
     fetch grouped at the active interval. The previous snapshot ends as the
     book of the last completed cycle, or as it was when no cycle completed.
     */
    method Run(polls: seq<Poll>) returns (requests: seq<Option<FetchRequest>>, outcomes: seq<Outcome>)
      requires Valid()
      modifies this, walls
      ensures Valid()
      ensures |requests| == |polls| && |outcomes| == |polls|
      ensures symbol == old(symbol) && groupInterval == old(groupInterval) && running == old(running)
      ensures wallThreshold == old(wallThreshold) && cancellationThreshold == old(cancellationThreshold)
      ensures cooldown == old(cooldown)
      ensures forall j :: 0 <= j < |polls| ==>
        Answers(running, symbol, groupInterval, polls[j], requests[j], outcomes[j])
      ensures forall j :: 0 <= j < |polls| ==>
        Analyzes(polls[j], outcomes[j], LastBook(outcomes[..j], old(previous)),
                 MemoryAfter(Bids, polls, outcomes[..j], old(walls.bids), wallThreshold, cooldown),
                 MemoryAfter(Asks, polls, outcomes[..j], old(walls.asks), wallThreshold, cooldown),
                 wallThreshold, cancellationThreshold, cooldown)
      ensures previous == LastBook(outcomes, old(previous))
      ensures walls.bids == MemoryAfter(Bids, polls, outcomes, old(walls.bids), wallThreshold, cooldown)
      ensures walls.asks == MemoryAfter(Asks, polls, outcomes, old(walls.asks), wallThreshold, cooldown)
    {
      requests, outcomes := [], [];
      var i := 0;
      while i < |polls|
        invariant 0 <= i <= |polls| && |requests| == i && |outcomes| == i
        invariant Valid()
        invariant symbol == old(symbol) && groupInterval == old(groupInterval) && running == old(running)
        invariant wallThreshold == old(wallThreshold) && cancellationThreshold == old(cancellationThreshold)
        invariant cooldown == old(cooldown)
        invariant Trace(polls, requests, outcomes, running, symbol, groupInterval,
                        wallThreshold, cancellationThreshold, cooldown, old(previous), old(walls.bids), old(walls.asks))
        invariant previous == LastBook(outcomes, old(previous))
        invariant walls.bids == MemoryAfter(Bids, polls, outcomes, old(walls.bids), wallThreshold, cooldown)
        invariant walls.asks == MemoryAfter(Asks, polls, outcomes, old(walls.asks), wallThreshold, cooldown)
      {
        var request, outcome := Cycle(polls[i].fetched, polls[i].now);
        TraceExtends(polls, requests, outcomes, request, outcome, running, symbol, groupInterval,
                     wallThreshold, cancellationThreshold, cooldown, old(previous), old(walls.bids), old(walls.asks));
        LastBookExtends(outcomes, outcome, old(previous));
        MemoryAfterExtends(Bids, polls, outcomes, outcome, old(walls.bids), wallThreshold, cooldown);
        MemoryAfterExtends(Asks, polls, outcomes, outcome, old(walls.asks), wallThreshold, cooldown);
        var requests', outcomes' := requests + [request], outcomes + [outcome];
        requests, outcomes := requests', outcomes';
        i := i + 1;
      }
      TraceAll(polls, requests, outcomes, running, symbol, groupInterval,
               wallThreshold, cancellationThreshold, cooldown, old(previous), old(walls.bids), old(walls.asks));
    }

    /**
     `toggle_updates`: flip the run flag. On resuming it also fetches the
     book for a state summary, with `fetch_order_book`'s defaults rather than
     the active settings.
     */
    method ToggleUpdates() returns (summary: Option<FetchRequest>)
      requires Valid()
      modifies this
      ensures Valid()
      ensures running == !old(running)
      ensures summary == if running then Some(FetchRequest(DEFAULT_SYMBOL, DEFAULT_INTERVAL)) else None
      ensures symbol == old(symbol) && groupInterval == old(groupInterval) && previous == old(previous)
      ensures wallThreshold == old(wallThreshold) && cancellationThreshold == old(cancellationThreshold)
      ensures cooldown == old(cooldown)
    {
      if running {
        running := false;
        summary := None;
      } else {
        running := true;
        summary := Some(FetchRequest(DEFAULT_SYMBOL, DEFAULT_INTERVAL));
      }
    }

    /**
     `SettingsDialog.save_settings`: overwrite the settings. The previous
     snapshot and the wall memory are left as they are.
     */
    method SaveSettings(newSymbol: string, interval: int, wall: real, cancellation: real, newCooldown: int)
      requires Valid()
      requires SettingsInRange(interval, wall, cancellation, newCooldown)
      modifies this
      ensures Valid()
      ensures symbol == newSymbol && groupInterval == interval
      ensures wallThreshold == wall && cancellationThreshold == cancellation && cooldown == newCooldown
      ensures running == old(running) && previous == old(previous)
    {
      symbol, groupInterval := newSymbol, interval;
      wallThreshold, cancellationThreshold, cooldown := wall, cancellation, newCooldown;
    }
  }

  /**
   A symbol switch does not clear the previous snapshot: the first cycle on
   the new symbol fetches that symbol, yet diffs its book against the old
   symbol's.
   */
  method SymbolSwitchDiffsAcrossSymbols(first: Book, second: Book, now: real)
    returns (firstRequest: Option<FetchRequest>, before: Outcome, secondRequest: Option<FetchRequest>, after: Outcome)
    requires first.bids != [] && first.asks != [] && second.bids != [] && second.asks != []
    ensures firstRequest == Some(FetchRequest("BTCUSDT", 150))
    ensures secondRequest == Some(FetchRequest("ETHUSDT", 10))
    ensures before.Completed? && after.Completed?
    ensures after.cancelled == Some(DetectCancellations(before.book, after.book, 500.0))
  {
    var monitor := new Monitor();
    firstRequest, before := monitor.Cycle(Some(first), now);
    monitor.SaveSettings("ETHUSDT", 10, 2500.0, 500.0, 3600);
    secondRequest, after := monitor.Cycle(Some(second), now + 2.0);
  }

  /**
   Pausing makes the next cycle idle, and resuming restores polling with the
   previous snapshot intact.
   */
  method PauseThenResume(book: Book, now: real) returns (paused: Outcome, resumed: Outcome)
    requires book.bids != [] && book.asks != []
    ensures paused == Idle
    ensures resumed.Completed? && resumed.cancelled.None?
  {
    var monitor := new Monitor();
    var stop := monitor.ToggleUpdates();
    var none;
    none, paused := monitor.Cycle(Some(book), now);
    var start := monitor.ToggleUpdates();
    var request;
    request, resumed := monitor.Cycle(Some(book), now + 2.5);
  }

  // ----- The end-to-end example: two polls of one bid level bucketed at width 10.

  lemma FirstPollGrouping(grouped: seq<Level>)
    requires IsGrouping([Level(100.02, 10.0), Level(100.04, 5.0)], 10, grouped)
    ensures grouped == [Level(100.0, 15.0)]
  {
    var raw := [Level(100.02, 10.0), Level(100.04, 5.0)];
    assert RoundHalfEven(100.02 / 10.0) == 10;
    assert RoundHalfEven(100.04 / 10.0) == 10;
    assert raw[..1] == [raw[0]] && raw[..1][..0] == [];
    assert Buckets(raw, 10) == {100.0};
    assert Volume(raw, 10, 100.0) == 15.0;
    var expected := [Level(100.0, 15.0)];
    assert expected[..0] == [];
    assert IsGrouping(raw, 10, expected);
    GroupingIsUnique(raw, 10, grouped, expected);
  }

  lemma SecondPollGrouping(grouped: seq<Level>)
    requires IsGrouping([Level(100.01, 2.0)], 10, grouped)
    ensures grouped == [Level(100.0, 2.0)]
  {
    var raw := [Level(100.01, 2.0)];
    assert RoundHalfEven(100.01 / 10.0) == 10;
    assert raw[..0] == [];
    var expected := [Level(100.0, 2.0)];
    assert expected[..0] == [];
    assert IsGrouping(raw, 10, expected);
    GroupingIsUnique(raw, 10, grouped, expected);
  }

  /**
   Raw bids `(100.02, 10)` and `(100.04, 5)` bucket to `(100, 15)`; a later
   poll with only `(100.01, 2)` buckets to `(100, 2)`; with a cancellation
   threshold of 5 the diff reports 13 cancelled at 100.
   */
  lemma BucketedCancellationExample(previous: seq<Level>, current: seq<Level>)
    requires IsGrouping([Level(100.02, 10.0), Level(100.04, 5.0)], 10, previous)
    requires IsGrouping([Level(100.01, 2.0)], 10, current)
    ensures CompareOrders(AsBook(previous), AsBook(current), 5.0) == map[100.0 := 13.0]
  {
    FirstPollGrouping(previous);
    SecondPollGrouping(current);
    assert previous[..0] == [] && current[..0] == [];
    assert AsBook(previous) == map[100.0 := 15.0];
    assert AsBook(current) == map[100.0 := 2.0];
    var r := CompareOrders(map[100.0 := 15.0], map[100.0 := 2.0], 5.0);
    assert 100.0 in OuterJoin(map[100.0 := 15.0], map[100.0 := 2.0]);
    assert r.Keys == {100.0};
  }
}
