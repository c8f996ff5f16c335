/**
 Price bucketing (`group_orders`): raw levels are folded into buckets keyed
 by `round(price / interval) * interval`, amounts landing in the same bucket
 are summed, and the buckets come out sorted by ascending price.
 */
module Grouping {
  import opened Levels

  /** Python's `round` on an exact value: the nearest integer, ties to the even one. */
  function RoundHalfEven(x: real): (n: int)
    ensures x - 0.5 <= n as real <= x + 0.5
    ensures (n as real == x - 0.5 || n as real == x + 0.5) ==> n % 2 == 0
  {
    var f := x.Floor;
    var d := x - f as real;
    if d < 0.5 then f
    else if d > 0.5 then f + 1
    else if f % 2 == 0 then f
    else f + 1
  }

  /** The bucket a price falls into: the multiple of `interval` nearest to it. */
  function Bucket(price: real, interval: int): (b: real)
    requires interval > 0
    ensures price - interval as real / 2.0 <= b <= price + interval as real / 2.0
  {
    var n := RoundHalfEven(price / interval as real);
    ScaleBounds(price, interval as real, n as real);
    n as real * interval as real
  }

  /** Rounding the quotient to within one half keeps the product within half a width. */
  lemma ScaleBounds(p: real, w: real, n: real)
    requires w > 0.0
    requires p / w - 0.5 <= n <= p / w + 0.5
    ensures p - w / 2.0 <= n * w <= p + w / 2.0
  {
    var e := n - p / w;
    assert n * w - p == e * w;
    assert -0.5 * w <= e * w <= 0.5 * w;
  }

  /** The buckets the raw levels fall into. */
  function Buckets(orders: seq<Level>, interval: int): set<real>
    requires interval > 0
  {
    if orders == [] then {}
    else Buckets(orders[..|orders| - 1], interval) + {Bucket(orders[|orders| - 1].price, interval)}
  }

  /** The total amount of the raw levels whose bucket is `key`. */
  function Volume(orders: seq<Level>, interval: int, key: real): real
    requires interval > 0
  {
    if orders == [] then 0.0
    else
      var last := orders[|orders| - 1];
      Volume(orders[..|orders| - 1], interval, key) + (if Bucket(last.price, interval) == key then last.amount else 0.0)
  }

  /**
   What `group_orders(orders, interval)` returns: one level per bucket, in
   strictly ascending price order, each carrying the bucket's summed amount.
   */
  predicate IsGrouping(orders: seq<Level>, interval: int, grouped: seq<Level>)
    requires interval > 0
  {
    && StrictlyAscending(grouped)
    && Prices(grouped) == Buckets(orders, interval)
    && forall j :: 0 <= j < |grouped| ==> grouped[j].amount == Volume(orders, interval, grouped[j].price)
  }

  /**
   `group_orders`: accumulate into a dictionary keyed by bucket, then emit
   its items sorted by key.
   */
  method GroupOrders(orders: seq<Level>, interval: int) returns (grouped: seq<Level>)
    requires interval > 0
    ensures IsGrouping(orders, interval, grouped)
  {
    var table := Accumulate(orders, interval);
    grouped := SortedItems(table);
  }

  /** The `for` loop of `group_orders`: the dictionary from bucket to summed amount. */
  method Accumulate(orders: seq<Level>, interval: int) returns (table: map<real, real>)
    requires interval > 0
    ensures table.Keys == Buckets(orders, interval)
    ensures forall k :: k in table ==> table[k] == Volume(orders, interval, k)
  {
    table := map[];
    var i := 0;
    while i < |orders|
      invariant 0 <= i <= |orders|
      invariant table.Keys == Buckets(orders[..i], interval)
      invariant forall k :: k in table ==> table[k] == Volume(orders[..i], interval, k)
    {
      var done := orders[..i + 1];
      assert done[..|done| - 1] == orders[..i] && done[|done| - 1] == orders[i];
      var key := Bucket(orders[i].price, interval);
      var before := table;
      if key in table {
        table := table[key := table[key] + orders[i].amount];
      } else {
        VolumeOutsideBuckets(orders[..i], interval, key);
        table := table[key := orders[i].amount];
      }
      forall k | k in table
        ensures table[k] == Volume(done, interval, k)
      {
        if k != key { assert table[k] == before[k]; }
      }
      i := i + 1;
    }
    assert orders[..i] == orders;
  }

  /** `sorted(grouped.items(), key=price)`: the entries of the table by ascending price. */
  method SortedItems(table: map<real, real>) returns (items: seq<Level>)
    ensures StrictlyAscending(items)
    ensures Prices(items) == table.Keys
    ensures forall j :: 0 <= j < |items| ==> items[j].price in table && items[j].amount == table[items[j].price]
  {
    items := [];
    var rest := table.Keys;
    while rest != {}
      invariant rest <= table.Keys
      invariant table.Keys == rest + Prices(items)
      invariant StrictlyAscending(items)
      invariant forall j :: 0 <= j < |items| ==> items[j].price in table && items[j].amount == table[items[j].price]
      invariant forall j, k :: 0 <= j < |items| && k in rest ==> items[j].price < k
      decreases |rest|
    {
      MinimumExists(rest);
      var k :| IsLeast(k, rest);
      var next := items + [Level(k, table[k])];
      assert next[..|next| - 1] == items;
      items := next;
      rest := rest - {k};
    }
  }

  /** A key that no raw level falls into collects no volume. */
  lemma {:induction false} VolumeOutsideBuckets(orders: seq<Level>, interval: int, key: real)
    requires interval > 0
    requires key !in Buckets(orders, interval)
    ensures Volume(orders, interval, key) == 0.0
  {
    if orders != [] {
      VolumeOutsideBuckets(orders[..|orders| - 1], interval, key);
    }
  }

  lemma {:induction false} BucketsMembership(orders: seq<Level>, interval: int, key: real)
    requires interval > 0
    ensures key in Buckets(orders, interval) <==> exists j :: 0 <= j < |orders| && Bucket(orders[j].price, interval) == key
  {
    if orders != [] {
      var init := orders[..|orders| - 1];
      BucketsMembership(init, interval, key);
      if key in Buckets(init, interval) {
        var j :| 0 <= j < |init| && Bucket(init[j].price, interval) == key;
        assert orders[j] == init[j];
      }
      if j :| 0 <= j < |orders| && Bucket(orders[j].price, interval) == key {
        if j < |init| { assert init[j] == orders[j]; }
      }
    }
  }

  /** A bucket price is its own bucket: rounding a multiple of the interval changes nothing. */
  lemma BucketIsFixed(price: real, interval: int)
    requires interval > 0
    ensures Bucket(Bucket(price, interval), interval) == Bucket(price, interval)
  {
    var w := interval as real;
    var n := RoundHalfEven(price / w);
    var b := n as real * w;
    assert Bucket(price, interval) == b;
    assert b / w == n as real;
    var m := RoundHalfEven(b / w);
    assert m as real - 0.5 <= n as real <= m as real + 0.5;
    assert m == n;
    assert Bucket(b, interval) == m as real * w;
  }

  /** Every bucket price is a whole number of intervals. */
  lemma BucketIsMultiple(price: real, interval: int)
    requires interval > 0
    ensures var q := Bucket(price, interval) / interval as real; q.Floor as real == q
  {
    var n := RoundHalfEven(price / interval as real);
    assert Bucket(price, interval) / interval as real == n as real;
  }

  /** The grouping is empty exactly when there are no raw levels (`group_orders([])` returns `[]`). */
  lemma GroupingEmptyIff(orders: seq<Level>, interval: int, grouped: seq<Level>)
    requires interval > 0
    requires IsGrouping(orders, interval, grouped)
    ensures grouped == [] <==> orders == []
  {
    if orders != [] {
      assert Bucket(orders[|orders| - 1].price, interval) in Buckets(orders, interval);
    }
  }

  /**
   Every grouped price is the bucket of at least one raw level, lies within
   half an interval of that level's price, and is a whole number of intervals.
   */
  lemma GroupedPriceIsBucketOfInput(orders: seq<Level>, interval: int, grouped: seq<Level>, j: nat)
    requires interval > 0
    requires IsGrouping(orders, interval, grouped)
    requires j < |grouped|
    ensures exists k :: 0 <= k < |orders| && Bucket(orders[k].price, interval) == grouped[j].price
    ensures var q := grouped[j].price / interval as real; q.Floor as real == q
    ensures exists k :: 0 <= k < |orders| && orders[k].price - interval as real / 2.0 <= grouped[j].price <= orders[k].price + interval as real / 2.0
  {
    PricesMembership(grouped, grouped[j].price);
    BucketsMembership(orders, interval, grouped[j].price);
    var k :| 0 <= k < |orders| && Bucket(orders[k].price, interval) == grouped[j].price;
    BucketIsMultiple(orders[k].price, interval);
  }

  // ----- Uniqueness: the contract of GroupOrders fixes its result completely.

  /** The last price of a strictly ascending side exceeds every earlier price. */
  lemma LastIsGreatest(levels: seq<Level>)
    requires StrictlyAscending(levels) && levels != []
    ensures levels[|levels| - 1].price !in Prices(levels[..|levels| - 1])
    ensures Prices(levels[..|levels| - 1]) == Prices(levels) - {levels[|levels| - 1].price}
  {
    var init := levels[..|levels| - 1];
    var last := levels[|levels| - 1].price;
    forall j | 0 <= j < |init| ensures init[j].price != last {
      assert init[j] == levels[j];
    }
    PricesMembership(init, last);
  }

  /** A strictly ascending side is determined by its set of prices. */
  lemma {:induction false} AscendingDeterminedByPrices(a: seq<Level>, b: seq<Level>)
    requires StrictlyAscending(a) && StrictlyAscending(b)
    requires Prices(a) == Prices(b)
    ensures |a| == |b|
    ensures forall j :: 0 <= j < |a| ==> a[j].price == b[j].price
  {
    if a == [] || b == [] {
    } else {
      var la, lb := a[|a| - 1].price, b[|b| - 1].price;
      GreatestOfPrices(a);
      GreatestOfPrices(b);
      assert la == lb;
      LastIsGreatest(a);
      LastIsGreatest(b);
      var ia, ib := a[..|a| - 1], b[..|b| - 1];
      AscendingDeterminedByPrices(ia, ib);
      forall j | 0 <= j < |a| ensures a[j].price == b[j].price {
        if j < |ia| { assert a[j] == ia[j] && b[j] == ib[j]; }
      }
    }
  }

  lemma GreatestOfPrices(levels: seq<Level>)
    requires StrictlyAscending(levels) && levels != []
    ensures forall p :: p in Prices(levels) ==> p <= levels[|levels| - 1].price
  {
    forall p | p in Prices(levels) ensures p <= levels[|levels| - 1].price {
      PricesMembership(levels, p);
    }
  }

  /** Two results that both meet the contract of GroupOrders are the same sequence. */
  lemma GroupingIsUnique(orders: seq<Level>, interval: int, a: seq<Level>, b: seq<Level>)
    requires interval > 0
    requires IsGrouping(orders, interval, a) && IsGrouping(orders, interval, b)
    ensures a == b
  {
    AscendingDeterminedByPrices(a, b);
    forall j | 0 <= j < |a| ensures a[j] == b[j] {
      assert a[j].price == b[j].price;
    }
  }

  // ----- Conservation of volume.

  /** The amount `a` counted once for every level of `grouped` priced at `p`. */
  function Hits(grouped: seq<Level>, p: real, a: real): real
  {
    if grouped == [] then 0.0
    else Hits(grouped[..|grouped| - 1], p, a) + (if grouped[|grouped| - 1].price == p then a else 0.0)
  }

  /** The volumes of the raw levels summed over the prices of `grouped`. */
  function SumVolumes(orders: seq<Level>, interval: int, grouped: seq<Level>): real
    requires interval > 0
  {
    if grouped == [] then 0.0
    else SumVolumes(orders, interval, grouped[..|grouped| - 1]) + Volume(orders, interval, grouped[|grouped| - 1].price)
  }

  lemma {:induction false} HitsOnce(grouped: seq<Level>, p: real, a: real)
    requires StrictlyAscending(grouped)
    ensures Hits(grouped, p, a) == if p in Prices(grouped) then a else 0.0
  {
    if grouped != [] {
      var init := grouped[..|grouped| - 1];
      HitsOnce(init, p, a);
      LastIsGreatest(grouped);
    }
  }

  lemma {:induction false} SumVolumesExtend(init: seq<Level>, o: Level, interval: int, grouped: seq<Level>)
    requires interval > 0
    ensures SumVolumes(init + [o], interval, grouped)
         == SumVolumes(init, interval, grouped) + Hits(grouped, Bucket(o.price, interval), o.amount)
  {
    var orders := init + [o];
    assert orders[..|orders| - 1] == init;
    if grouped != [] {
      SumVolumesExtend(init, o, interval, grouped[..|grouped| - 1]);
    }
  }

  lemma {:induction false} SumVolumesIsTotal(orders: seq<Level>, interval: int, grouped: seq<Level>)
    requires interval > 0
    requires StrictlyAscending(grouped)
    requires Buckets(orders, interval) <= Prices(grouped)
    ensures SumVolumes(orders, interval, grouped) == TotalAmount(orders)
  {
    if orders == [] {
      SumVolumesOfNothing(interval, grouped);
    } else {
      var init, o := orders[..|orders| - 1], orders[|orders| - 1];
      assert orders == init + [o];
      SumVolumesIsTotal(init, interval, grouped);
      SumVolumesExtend(init, o, interval, grouped);
      HitsOnce(grouped, Bucket(o.price, interval), o.amount);
    }
  }

  lemma {:induction false} SumVolumesOfNothing(interval: int, grouped: seq<Level>)
    requires interval > 0
    ensures SumVolumes([], interval, grouped) == 0.0
  {
    if grouped != [] {
      SumVolumesOfNothing(interval, grouped[..|grouped| - 1]);
    }
  }

  lemma {:induction false} TotalIsSumVolumes(orders: seq<Level>, interval: int, grouped: seq<Level>)
    requires interval > 0
    requires forall j :: 0 <= j < |grouped| ==> grouped[j].amount == Volume(orders, interval, grouped[j].price)
    ensures TotalAmount(grouped) == SumVolumes(orders, interval, grouped)
  {
    if grouped != [] {
      var init := grouped[..|grouped| - 1];
      assert forall j :: 0 <= j < |init| ==> init[j] == grouped[j];
      TotalIsSumVolumes(orders, interval, init);
    }
  }

  /** Bucketing conserves volume: the grouped amounts add up to the raw amounts. */
  lemma GroupingConservesVolume(orders: seq<Level>, interval: int, grouped: seq<Level>)
    requires interval > 0
    requires IsGrouping(orders, interval, grouped)
    ensures TotalAmount(grouped) == TotalAmount(orders)
  {
    TotalIsSumVolumes(orders, interval, grouped);
    SumVolumesIsTotal(orders, interval, grouped);
  }

  // ----- Idempotence: bucketing an already bucketed side gives it back.

  lemma {:induction false} BucketsOfGrid(levels: seq<Level>, interval: int)
    requires interval > 0
    requires forall j :: 0 <= j < |levels| ==> Bucket(levels[j].price, interval) == levels[j].price
    ensures Buckets(levels, interval) == Prices(levels)
  {
    if levels != [] {
      var init := levels[..|levels| - 1];
      assert forall j :: 0 <= j < |init| ==> init[j] == levels[j];
      BucketsOfGrid(init, interval);
    }
  }

  lemma {:induction false} VolumeOfGrid(levels: seq<Level>, interval: int, j: nat)
    requires interval > 0
    requires StrictlyAscending(levels)
    requires forall k :: 0 <= k < |levels| ==> Bucket(levels[k].price, interval) == levels[k].price
    requires j < |levels|
    ensures Volume(levels, interval, levels[j].price) == levels[j].amount
  {
    var init := levels[..|levels| - 1];
    assert forall k :: 0 <= k < |init| ==> init[k] == levels[k];
    LastIsGreatest(levels);
    BucketsOfGrid(init, interval);
    if j < |init| {
      VolumeOfGrid(init, interval, j);
    } else {
      VolumeOutsideBuckets(init, interval, levels[j].price);
    }
  }

  /** Regrouping a grouped side at the same interval returns that side unchanged. */
  lemma GroupingIsIdempotent(orders: seq<Level>, interval: int, grouped: seq<Level>)
    requires interval > 0
    requires IsGrouping(orders, interval, grouped)
    ensures IsGrouping(grouped, interval, grouped)
  {
    forall j | 0 <= j < |grouped| ensures Bucket(grouped[j].price, interval) == grouped[j].price {
      GroupedPriceIsBucketOfInput(orders, interval, grouped, j);
      var k :| 0 <= k < |orders| && Bucket(orders[k].price, interval) == grouped[j].price;
      BucketIsFixed(orders[k].price, interval);
    }
    BucketsOfGrid(grouped, interval);
    forall j | 0 <= j < |grouped| ensures grouped[j].amount == Volume(grouped, interval, grouped[j].price) {
      VolumeOfGrid(grouped, interval, j);
    }
  }
}
