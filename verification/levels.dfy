/**
 The values every part of the order-book monitor shares: one price level of
 a book side, an optional value, and the sums and orderings over sides.
 Prices, amounts and times are exact `real`s rather than the floats the
 program uses.
 */
module Levels {

  datatype Option<T> = None | Some(value: T)

  /** One `(price, amount)` row of a book side. */
  datatype Level = Level(price: real, amount: real)

  /**
   Both sides of a book. As fetched from the exchange the levels are raw and
   in no particular order; after `group_orders` each side is strictly
   ascending by price (`StrictlyAscending`).
   */
  datatype Book = Book(bids: seq<Level>, asks: seq<Level>)

  /** Sum of the amounts of a side: the sum of all but the last level, plus the last. */
  function TotalAmount(levels: seq<Level>): real
  {
    if levels == [] then 0.0
    else TotalAmount(levels[..|levels| - 1]) + levels[|levels| - 1].amount
  }

  /** The set of prices that occur in a side. */
  function Prices(levels: seq<Level>): set<real>
  {
    if levels == [] then {}
    else Prices(levels[..|levels| - 1]) + {levels[|levels| - 1].price}
  }

  /** Prices strictly increase along the side, so no price occurs twice. */
  predicate StrictlyAscending(levels: seq<Level>)
  {
    forall i, j :: 0 <= i < j < |levels| ==> levels[i].price < levels[j].price
  }

  /** The side read as a table from price to amount, as a DataFrame keyed on price. */
  function AsBook(levels: seq<Level>): (book: map<real, real>)
    ensures book.Keys == Prices(levels)
  {
    if levels == [] then map[]
    else AsBook(levels[..|levels| - 1])[levels[|levels| - 1].price := levels[|levels| - 1].amount]
  }

  lemma {:induction false} PricesMembership(levels: seq<Level>, p: real)
    ensures p in Prices(levels) <==> exists j :: 0 <= j < |levels| && levels[j].price == p
  {
    if levels != [] {
      var init := levels[..|levels| - 1];
      PricesMembership(init, p);
      if p in Prices(init) {
        var j :| 0 <= j < |init| && init[j].price == p;
        assert levels[j].price == p;
      }
      if j :| 0 <= j < |levels| && levels[j].price == p {
        if j < |init| { assert init[j].price == p; }
      }
    }
  }

  /** On a side without repeated prices, the table gives back every row's amount. */
  lemma {:induction false} AsBookAt(levels: seq<Level>, j: nat)
    requires StrictlyAscending(levels)
    requires j < |levels|
    ensures levels[j].price in AsBook(levels)
    ensures AsBook(levels)[levels[j].price] == levels[j].amount
  {
    var init := levels[..|levels| - 1];
    if j < |init| {
      assert init[j] == levels[j];
      AsBookAt(init, j);
    }
  }

  /** `m` is the least element of `s`. */
  predicate IsLeast(m: real, s: set<real>)
  {
    m in s && forall x :: x in s ==> m <= x
  }

  /** Every non-empty finite set of prices has a least element. */
  lemma {:induction false} MinimumExists(s: set<real>)
    requires s != {}
    ensures exists m :: IsLeast(m, s)
  {
    if forall y :: y !in s { assert false; }
    var y :| y in s;
    var t := s - {y};
    if t == {} {
      forall x | x in s ensures y <= x { assert x in t || x == y; }
      assert IsLeast(y, s);
    } else {
      MinimumExists(t);
      var m :| IsLeast(m, t);
      var least := if y < m then y else m;
      forall x | x in s ensures least <= x { if x != y { assert x in t; } }
      assert IsLeast(least, s);
    }
  }
}
