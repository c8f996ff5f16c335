/**
 Wall detection (`detect_large_walls` / `check_and_notify`). One side's
 levels are scanned in the order they arrive; the first level whose amount
 exceeds the wall threshold and is not suppressed by the notification memory
 is reported, recorded in the memory, and ends the scan. A level is
 suppressed when its price was notified less than a cooldown ago and its
 amount has moved by less than 10% since.
 */
module Walls {
  import opened Levels

  datatype Side = Bids | Asks

  function Other(side: Side): Side
  {
    if side == Bids then Asks else Bids
  }

  /** When a price was last notified, and with what amount. */
  datatype Notified = Notified(time: real, amount: real)

  /** One side's notification memory, keyed by bucket price. */
  type Memory = map<real, Notified>

  /** Every recorded amount is positive, so the relative change against it is defined. */
  predicate PositiveMemory(mem: Memory)
  {
    forall k :: k in mem ==> mem[k].amount > 0.0
  }

  function Abs(x: real): real
  {
    if x < 0.0 then -x else x
  }

  /**
   The level's price was notified less than `cooldown` seconds before `now`,
   and its amount differs from the notified one by less than 10%.
   */
  predicate Suppressed(level: Level, mem: Memory, cooldown: int, now: real)
    requires PositiveMemory(mem)
    ensures Suppressed(level, mem, cooldown, now) <==>
      && level.price in mem
      && now < mem[level.price].time + cooldown as real
      && 0.9 * mem[level.price].amount < level.amount < 1.1 * mem[level.price].amount
  {
    && level.price in mem
    && now - mem[level.price].time < cooldown as real
    && (WithinTenPercent(level.amount, mem[level.price].amount);
        Abs(level.amount - mem[level.price].amount) / mem[level.price].amount < 0.1)
  }

  /** The relative change `|a - m| / m` is below 10% exactly when `a` lies strictly within 10% of `m`. */
  lemma WithinTenPercent(a: real, m: real)
    requires m > 0.0
    ensures Abs(a - m) / m < 0.1 <==> 0.9 * m < a < 1.1 * m
  {
    var d := Abs(a - m);
    var q := d / m;
    assert q * m == d;
    assert d < 0.1 * m <==> 0.9 * m < a < 1.1 * m;
    var e := 0.1 - q;
    assert 0.1 * m - d == e * m;
    if e > 0.0 {
      assert e * m > 0.0;
    } else {
      assert e * m <= 0.0;
    }
  }

  /**
   The level is a wall and is not suppressed: a scan reaching it notifies it.
   A price never notified, or notified a cooldown or more ago, notifies
   exactly when it is above the threshold.
   */
  predicate Notifies(level: Level, mem: Memory, threshold: real, cooldown: int, now: real)
    requires PositiveMemory(mem)
    ensures Notifies(level, mem, threshold, cooldown, now) ==> level.amount > threshold
    ensures level.price !in mem || now - mem[level.price].time >= cooldown as real ==>
      (Notifies(level, mem, threshold, cooldown, now) <==> level.amount > threshold)
  {
    level.amount > threshold && !Suppressed(level, mem, cooldown, now)
  }

  /** The index of the level a scan notifies, if any: the first one, in input order, that notifies. */
  function FirstWall(levels: seq<Level>, mem: Memory, threshold: real, cooldown: int, now: real): (r: Option<nat>)
    requires PositiveMemory(mem)
    ensures r.Some? ==> r.value < |levels| && Notifies(levels[r.value], mem, threshold, cooldown, now)
    ensures r.Some? ==> forall j :: 0 <= j < r.value ==> !Notifies(levels[j], mem, threshold, cooldown, now)
    ensures r.None? ==> forall j :: 0 <= j < |levels| ==> !Notifies(levels[j], mem, threshold, cooldown, now)
  {
    if levels == [] then None
    else if Notifies(levels[0], mem, threshold, cooldown, now) then Some(0)
    else match FirstWall(levels[1..], mem, threshold, cooldown, now)
      case None => None
      case Some(j) => Some(j + 1)
  }

  /** The level a scan reports. */
  function Reported(levels: seq<Level>, mem: Memory, threshold: real, cooldown: int, now: real): Option<Level>
    requires PositiveMemory(mem)
  {
    match FirstWall(levels, mem, threshold, cooldown, now)
    case None => None
    case Some(i) => Some(levels[i])
  }

  /** One side's memory after a scan: the notified price now records `(now, amount)`. */
  function Recorded(levels: seq<Level>, mem: Memory, threshold: real, cooldown: int, now: real): Memory
    requires PositiveMemory(mem)
  {
    match FirstWall(levels, mem, threshold, cooldown, now)
    case None => mem
    case Some(i) => mem[levels[i].price := Notified(now, levels[i].amount)]
  }

  /** `last_notified_walls`: one memory for bids and one for asks. */
  class WallMemory {
    var bids: Memory
    var asks: Memory

    ghost predicate Valid()
      reads this
    {
      PositiveMemory(bids) && PositiveMemory(asks)
    }

    function Of(side: Side): Memory
      reads this
    {
      if side == Bids then bids else asks
    }

    constructor ()
      ensures Valid()
      ensures bids == map[] && asks == map[]
    {
      bids, asks := map[], map[];
    }

    /**
     `check_and_notify(orders, side)`: scan the levels, skip the suppressed
     ones, record and report the first remaining wall.
     */
    method CheckAndNotify(levels: seq<Level>, side: Side, threshold: real, cooldown: int, now: real)
      returns (wall: Option<Level>)
      requires Valid() && threshold >= 0.0
      modifies this
      ensures Valid()
      ensures wall == Reported(levels, old(Of(side)), threshold, cooldown, now)
      ensures Of(side) == Recorded(levels, old(Of(side)), threshold, cooldown, now)
      ensures Of(Other(side)) == old(Of(Other(side)))
    {
      var mem := Of(side);
      wall := None;
      var i := 0;
      while i < |levels|
        invariant 0 <= i <= |levels|
        invariant wall == None
        invariant Valid() && Of(side) == mem && Of(Other(side)) == old(Of(Other(side)))
        invariant forall j :: 0 <= j < i ==> !Notifies(levels[j], mem, threshold, cooldown, now)
      {
        var level := levels[i];
        if level.amount > threshold {
          if level.price in mem {
            var last := mem[level.price];
            if now - last.time < cooldown as real && Abs(level.amount - last.amount) / last.amount < 0.1 {
              i := i + 1;
              continue;
            }
          }
          if side == Bids {
            bids := bids[level.price := Notified(now, level.amount)];
          } else {
            asks := asks[level.price := Notified(now, level.amount)];
          }
          wall := Some(level);
          assert FirstWall(levels, mem, threshold, cooldown, now) == Some(i);
          break;
        }
        i := i + 1;
      }
    }

    /** `detect_large_walls(bids, asks)`: one scan per side, both at the same time `now`. */
    method DetectLargeWalls(bidLevels: seq<Level>, askLevels: seq<Level>, threshold: real, cooldown: int, now: real)
      returns (bidWall: Option<Level>, askWall: Option<Level>)
      requires Valid() && threshold >= 0.0
      modifies this
      ensures Valid()
      ensures bidWall == Reported(bidLevels, old(bids), threshold, cooldown, now)
      ensures askWall == Reported(askLevels, old(asks), threshold, cooldown, now)
      ensures bids == Recorded(bidLevels, old(bids), threshold, cooldown, now)
      ensures asks == Recorded(askLevels, old(asks), threshold, cooldown, now)
    {
      bidWall := CheckAndNotify(bidLevels, Bids, threshold, cooldown, now);
      askWall := CheckAndNotify(askLevels, Asks, threshold, cooldown, now);
    }
  }

  // ----- What a scan writes to the memory.

  /**
   A scan writes only the reported level's price, with time `now` and an
   amount above the threshold; every other entry is kept. With a threshold of
   at least zero the memory stays positive, so the relative-change division
   is always defined.
   */
  lemma RecordedWritesOnlyTheWall(levels: seq<Level>, mem: Memory, threshold: real, cooldown: int, now: real)
    requires PositiveMemory(mem) && threshold >= 0.0
    ensures PositiveMemory(Recorded(levels, mem, threshold, cooldown, now))
    ensures mem.Keys <= Recorded(levels, mem, threshold, cooldown, now).Keys
    ensures forall k :: k in Recorded(levels, mem, threshold, cooldown, now) && (k !in mem || Recorded(levels, mem, threshold, cooldown, now)[k] != mem[k]) ==>
      && Reported(levels, mem, threshold, cooldown, now).Some?
      && k == Reported(levels, mem, threshold, cooldown, now).value.price
      && Recorded(levels, mem, threshold, cooldown, now)[k] == Notified(now, Reported(levels, mem, threshold, cooldown, now).value.amount)
      && Recorded(levels, mem, threshold, cooldown, now)[k].amount > threshold
  {
  }

  /** Whatever a scan reports is above the threshold and is not suppressed. */
  lemma ReportedIsUnsuppressedWall(levels: seq<Level>, mem: Memory, threshold: real, cooldown: int, now: real)
    requires PositiveMemory(mem)
    ensures match Reported(levels, mem, threshold, cooldown, now)
      case None => forall j :: 0 <= j < |levels| && levels[j].amount > threshold ==> Suppressed(levels[j], mem, cooldown, now)
      case Some(w) => w in levels && w.amount > threshold && !Suppressed(w, mem, cooldown, now)
  {
  }

  // ----- Scan order.

  /**
   The levels arrive in the ascending order `group_orders` produces, so the
   reported wall is the lowest-priced level that notifies; on the bid side
   that is the one farthest from the best bid.
   */
  lemma AscendingScanReportsLowestWall(levels: seq<Level>, mem: Memory, threshold: real, cooldown: int, now: real)
    requires PositiveMemory(mem) && StrictlyAscending(levels)
    ensures Reported(levels, mem, threshold, cooldown, now).Some? ==>
      forall j :: 0 <= j < |levels| && Notifies(levels[j], mem, threshold, cooldown, now) ==>
        Reported(levels, mem, threshold, cooldown, now).value.price <= levels[j].price
  {
    var r := FirstWall(levels, mem, threshold, cooldown, now);
    if r.Some? {
      forall j | 0 <= j < |levels| && Notifies(levels[j], mem, threshold, cooldown, now)
        ensures levels[r.value].price <= levels[j].price
      {
        assert j >= r.value;
      }
    }
  }

  /**
   With an empty memory nothing is suppressed: the reported wall is the first
   level above the threshold, and there is one exactly when some level is
   above it.
   */
  lemma EmptyMemoryReportsFirstAboveThreshold(levels: seq<Level>, threshold: real, cooldown: int, now: real)
    ensures var r := FirstWall(levels, map[], threshold, cooldown, now);
      && (r.Some? <==> exists j :: 0 <= j < |levels| && levels[j].amount > threshold)
      && (r.Some? ==> levels[r.value].amount > threshold && forall j :: 0 <= j < r.value ==> levels[j].amount <= threshold)
  {
    var r := FirstWall(levels, map[], threshold, cooldown, now);
    if r.None? {
      forall j | 0 <= j < |levels| ensures levels[j].amount <= threshold {
        assert !Notifies(levels[j], map[], threshold, cooldown, now);
      }
    }
  }

  /**
   Scanning the same side again at the same time, within a positive cooldown,
   never reports the wall just recorded or any level before it: successive
   scans move forward through the walls of a side, one per scan.
   */
  lemma RescanMovesPastRecordedWall(levels: seq<Level>, mem: Memory, threshold: real, cooldown: int, now: real)
    requires PositiveMemory(mem) && threshold >= 0.0 && cooldown > 0
    requires StrictlyAscending(levels)
    requires FirstWall(levels, mem, threshold, cooldown, now).Some?
    ensures var i := FirstWall(levels, mem, threshold, cooldown, now).value;
      var again := FirstWall(levels, Recorded(levels, mem, threshold, cooldown, now), threshold, cooldown, now);
      again.Some? ==> again.value > i
  {
    var i := FirstWall(levels, mem, threshold, cooldown, now).value;
    var mem' := Recorded(levels, mem, threshold, cooldown, now);
    RecordedWritesOnlyTheWall(levels, mem, threshold, cooldown, now);
    assert mem' == mem[levels[i].price := Notified(now, levels[i].amount)];
    assert Suppressed(levels[i], mem', cooldown, now);
    forall j | 0 <= j < i
      ensures !Notifies(levels[j], mem', threshold, cooldown, now)
    {
      assert levels[j].price < levels[i].price;
      assert !Notifies(levels[j], mem, threshold, cooldown, now);
    }
  }

  // ----- The cooldown examples.

  /** Within the cooldown, a 5% change of a recorded wall is suppressed. */
  lemma SmallChangeWithinCooldownIsSuppressed(price: real, at: real, amount: real, threshold: real, cooldown: int)
    requires 0.0 <= threshold < amount && cooldown > 0
    ensures var mem := map[price := Notified(at, amount)];
      FirstWall([Level(price, 1.05 * amount)], mem, threshold, cooldown, at + cooldown as real / 2.0) == None
  {
    var mem := map[price := Notified(at, amount)];
    var now := at + cooldown as real / 2.0;
    assert Abs(1.05 * amount - amount) == 0.05 * amount;
    assert Abs(1.05 * amount - amount) / amount == 0.05;
    assert Suppressed(Level(price, 1.05 * amount), mem, cooldown, now);
  }

  /** Within the cooldown, a 50% change of a recorded wall is notified again. */
  lemma LargeChangeWithinCooldownNotifies(price: real, at: real, amount: real, threshold: real, cooldown: int)
    requires 0.0 <= threshold < amount && cooldown > 0
    ensures var mem := map[price := Notified(at, amount)];
      FirstWall([Level(price, 1.5 * amount)], mem, threshold, cooldown, at + cooldown as real / 2.0) == Some(0)
  {
    var mem := map[price := Notified(at, amount)];
    var now := at + cooldown as real / 2.0;
    assert Abs(1.5 * amount - amount) / amount == 0.5;
    assert !Suppressed(Level(price, 1.5 * amount), mem, cooldown, now);
  }

  /** Once the cooldown has passed, a wall is notified again however little it changed. */
  lemma ExpiredCooldownNotifies(level: Level, mem: Memory, threshold: real, cooldown: int, now: real)
    requires PositiveMemory(mem) && level.amount > threshold
    requires level.price in mem && now - mem[level.price].time >= cooldown as real
    ensures FirstWall([level], mem, threshold, cooldown, now) == Some(0)
  {
  }
}
