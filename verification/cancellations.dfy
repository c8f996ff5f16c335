/**
 Cancellation ("spoofing") detection (`detect_cancellations` /
 `compare_orders`). The previous and current levels of a side are joined on
 price, a price missing from either side counting as amount 0, and every
 price whose amount dropped by more than the threshold is reported with the
 dropped amount. There is no memory and no cooldown: a price is reported in
 every cycle in which it qualifies.
 */
module Cancellations {
  import opened Levels

  /** The amount at a price, 0 when the side has no level there (`fillna(0)`). */
  function AmountAt(side: map<real, real>, price: real): real
  {
    if price in side then side[price] else 0.0
  }

  /** One row of the joined table: `amount_prev` and `amount_curr`. */
  datatype Row = Row(prev: real, curr: real)

  /**
   `prev_df.merge(curr_df, on='price', how='outer').fillna(0)`: one row per
   price of either side, the side's amount where it has the price and 0
   where it does not.
   */
  function OuterJoin(prev: map<real, real>, curr: map<real, real>): (merged: map<real, Row>)
    ensures merged.Keys == prev.Keys + curr.Keys
    ensures forall p :: p in prev ==> merged[p].prev == prev[p]
    ensures forall p :: p in curr ==> merged[p].curr == curr[p]
    ensures forall p :: p in merged && p !in prev ==> merged[p].prev == 0.0
    ensures forall p :: p in merged && p !in curr ==> merged[p].curr == 0.0
  {
    map p | p in prev.Keys + curr.Keys :: Row(AmountAt(prev, p), AmountAt(curr, p))
  }

  /**
   `compare_orders`: the rows whose `amount_prev - amount_curr` exceeds the
   threshold, each with its cancelled amount.
   */
  function CompareOrders(prev: map<real, real>, curr: map<real, real>, threshold: real): (cancelled: map<real, real>)
    ensures cancelled.Keys <= prev.Keys + curr.Keys
    ensures forall p :: p in cancelled ==> cancelled[p] > threshold
    ensures forall p :: p in prev && p in curr ==>
      (p in cancelled <==> prev[p] - curr[p] > threshold) && (p in cancelled ==> cancelled[p] == prev[p] - curr[p])
    ensures forall p :: p in prev && p !in curr ==>
      (p in cancelled <==> prev[p] > threshold) && (p in cancelled ==> cancelled[p] == prev[p])
    ensures forall p :: p !in prev && p in curr ==>
      (p in cancelled <==> -curr[p] > threshold) && (p in cancelled ==> cancelled[p] == -curr[p])
  {
    var merged := OuterJoin(prev, curr);
    map p | p in merged && merged[p].prev - merged[p].curr > threshold :: merged[p].prev - merged[p].curr
  }

  /** The cancellations found on each side. */
  datatype Cancelled = Cancelled(bids: map<real, real>, asks: map<real, real>)

  /**
   `detect_cancellations(previous_book, current_book)`: bids and asks
   independently. On each side a price is reported exactly when it occurs
   in that side of either snapshot and its amount, 0 where absent, dropped
   by more than the threshold; it is reported with that drop.
   */
  function DetectCancellations(previous: Book, current: Book, threshold: real): (r: Cancelled)
    ensures r.bids.Keys <= Prices(previous.bids) + Prices(current.bids)
    ensures r.asks.Keys <= Prices(previous.asks) + Prices(current.asks)
    ensures forall p :: p in r.bids ==> r.bids[p] > threshold
    ensures forall p :: p in r.asks ==> r.asks[p] > threshold
    ensures forall p :: p in r.bids <==>
      (p in Prices(previous.bids) || p in Prices(current.bids))
      && AmountAt(AsBook(previous.bids), p) - AmountAt(AsBook(current.bids), p) > threshold
    ensures forall p :: p in r.bids ==> r.bids[p] == AmountAt(AsBook(previous.bids), p) - AmountAt(AsBook(current.bids), p)
    ensures forall p :: p in r.asks <==>
      (p in Prices(previous.asks) || p in Prices(current.asks))
      && AmountAt(AsBook(previous.asks), p) - AmountAt(AsBook(current.asks), p) > threshold
    ensures forall p :: p in r.asks ==> r.asks[p] == AmountAt(AsBook(previous.asks), p) - AmountAt(AsBook(current.asks), p)
  {
    Cancelled(
      CompareOrders(AsBook(previous.bids), AsBook(current.bids), threshold),
      CompareOrders(AsBook(previous.asks), AsBook(current.asks), threshold))
  }

  /** Every amount in a side is at least zero. */
  predicate NonNegative(side: map<real, real>)
  {
    forall p :: p in side ==> side[p] >= 0.0
  }

  /**
   A price is reported exactly when it occurs in either snapshot and its
   amount dropped by more than the threshold, and it is reported with that drop.
   */
  lemma ReportedExactlyWhenDropExceedsThreshold(prev: map<real, real>, curr: map<real, real>, threshold: real, p: real)
    ensures p in CompareOrders(prev, curr, threshold)
      <==> (p in prev || p in curr) && AmountAt(prev, p) - AmountAt(curr, p) > threshold
    ensures p in CompareOrders(prev, curr, threshold)
      ==> CompareOrders(prev, curr, threshold)[p] == AmountAt(prev, p) - AmountAt(curr, p)
  {
  }

  /**
   With a threshold of at least zero, a price that only the current snapshot
   has, or whose amount did not fall, is never reported.
   */
  lemma NewOrGrownLevelsNeverReported(prev: map<real, real>, curr: map<real, real>, threshold: real, p: real)
    requires threshold >= 0.0 && NonNegative(curr)
    requires p !in prev || AmountAt(curr, p) >= prev[p]
    ensures p !in CompareOrders(prev, curr, threshold)
  {
    if p !in prev { assert AmountAt(prev, p) == 0.0; }
  }

  /**
   Every reported amount exceeds the threshold and is at most what the
   previous snapshot held at that price.
   */
  lemma CancelledAmountBounds(prev: map<real, real>, curr: map<real, real>, threshold: real)
    requires NonNegative(curr)
    ensures forall p :: p in CompareOrders(prev, curr, threshold) ==>
      threshold < CompareOrders(prev, curr, threshold)[p] <= AmountAt(prev, p)
  {
  }

  /** A level that vanished is reported with its whole previous amount once that exceeds the threshold. */
  lemma VanishedLevelReportedWhole(prev: map<real, real>, curr: map<real, real>, threshold: real, p: real)
    requires p in prev && p !in curr && prev[p] > threshold
    ensures p in CompareOrders(prev, curr, threshold)
    ensures CompareOrders(prev, curr, threshold)[p] == prev[p]
  {
    assert p in OuterJoin(prev, curr);
  }

  /**
   On the bid side of two grouped snapshots, a previous level that is gone
   from the current snapshot is reported with its whole amount once that
   exceeds the threshold, whatever the ask sides hold.
   */
  lemma VanishedBidReported(previous: Book, current: Book, threshold: real, j: nat)
    requires StrictlyAscending(previous.bids)
    requires j < |previous.bids|
    requires previous.bids[j].price !in Prices(current.bids)
    requires previous.bids[j].amount > threshold
    ensures previous.bids[j].price in DetectCancellations(previous, current, threshold).bids
    ensures DetectCancellations(previous, current, threshold).bids[previous.bids[j].price] == previous.bids[j].amount
  {
    AsBookAt(previous.bids, j);
    VanishedLevelReportedWhole(AsBook(previous.bids), AsBook(current.bids), threshold, previous.bids[j].price);
  }

  /** Previous `{100: 50}`, current `{100: 10}`, threshold 20: one cancellation of 40 at 100. */
  lemma PartialCancellationExample()
    ensures CompareOrders(map[100.0 := 50.0], map[100.0 := 10.0], 20.0) == map[100.0 := 40.0]
  {
    var r := CompareOrders(map[100.0 := 50.0], map[100.0 := 10.0], 20.0);
    assert 100.0 in OuterJoin(map[100.0 := 50.0], map[100.0 := 10.0]);
    assert r.Keys == {100.0};
  }

  /** Previous `{100: 50}`, current empty, threshold 20: one cancellation of 50 at 100. */
  lemma FullCancellationExample()
    ensures CompareOrders(map[100.0 := 50.0], map[], 20.0) == map[100.0 := 50.0]
  {
    var r := CompareOrders(map[100.0 := 50.0], map[], 20.0);
    assert 100.0 in OuterJoin(map[100.0 := 50.0], map[]);
    assert r.Keys == {100.0};
  }
}
