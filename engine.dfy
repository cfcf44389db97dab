/**
 * Engine: `InstrumentMatchingEngine`, the per-instrument engine that owns the
 * BUY and SELL books and updates them in place. Each method is proved against
 * the functions of module Matching; `Valid` is the book invariant.
 */
module Engine {
  import opened Results
  import opened Orders
  import opened Trades
  import opened Fills
  import opened Books
  import opened Matching

  class InstrumentMatchingEngine {
    const instrument: Instrument
    var buyOrders: seq<Order>
    var sellOrders: seq<Order>

    ghost predicate Valid()
      reads this
    {
      EngineInvariant(instrument, buyOrders, sellOrders)
    }

    constructor (instrument: Instrument)
      ensures this.instrument == instrument
      ensures buyOrders == [] && sellOrders == []
      ensures Valid()
    {
      this.instrument := instrument;
      buyOrders := [];
      sellOrders := [];
    }

    /**
     * `match`: an order for another instrument is ignored; otherwise it is
     * filled against the contra book and any remainder is added to its own book.
     * A failing insert surfaces as `Err`; the order then neither traded nor rests.
     */
    method Match(order: Order) returns (r: Result<seq<Trade>, BookError>)
      requires Valid()
      modifies this
      ensures Valid()
      ensures var s := Step(instrument, old(buyOrders), old(sellOrders), order);
        buyOrders == s.buy && sellOrders == s.sell && r == s.outcome
    {
      if order.instrument != instrument {
        return Ok([]);
      }
      ghost var buy0, sell0 := buyOrders, sellOrders;
      var unfilledOrder, fills := FillOrder(order);
      r := Ok(fills);
      if unfilledOrder.quantity > 0 {
        var error := AddOrder(unfilledOrder);
        if error.Some? {
          r := Err(error.value);
        }
      }
      StepFromParts(instrument, buy0, sell0, order, Book(order.side), Book(Other(order.side)), r);
    }

    /** The book of one side. */
    function Book(side: Side): seq<Order>
      reads this
    {
      if side == BUY then buyOrders else sellOrders
    }

    /** Every order on either book is an open order of this engine's instrument and of that side. */
    lemma BookHolds(side: Side, o: Order)
      requires Valid() && o in Book(side)
      ensures o.instrument == instrument && o.side == side && o.quantity > 0
    {
      var j :| 0 <= j < |Book(side)| && Book(side)[j] == o;
    }

    /**
     * `fillOrder`: walk the contra book, then drop the entries whose quantity
     * reached zero.
     */
    method FillOrder(order: Order) returns (remainder: Order, fills: seq<Trade>)
      modifies this
      ensures var w := FillWalk(order, old(Book(Other(order.side))));
        && remainder == w.remainder && fills == w.trades
        && Book(Other(order.side)) == RemoveFilled(w.book)
        && Book(order.side) == old(Book(order.side))
    {
      var contraOrderList := if order.side == BUY then sellOrders else buyOrders;
      if |contraOrderList| == 0 {
        return order, [];
      }
      remainder, contraOrderList, fills := WalkContraBook(order, contraOrderList);
      contraOrderList := RemoveFilled(contraOrderList);
      if order.side == BUY {
        sellOrders := contraOrderList;
      } else {
        buyOrders := contraOrderList;
      }
    }

    /**
     * `addOrder`: append to an empty book, otherwise insert at the position
     * `binarySearch` reports. When an entry comparing equal already rests the
     * computed position is negative and the insert fails.
     */
    method AddOrder(order: Order) returns (error: Option<BookError>)
      requires StrictlySorted(Book(order.side))
      modifies this
      ensures var added := AddToBook(old(Book(order.side)), order);
        && error == (if added.Ok? then None else Some(added.error))
        && Book(order.side) == (if added.Ok? then added.value else old(Book(order.side)))
        && Book(Other(order.side)) == old(Book(Other(order.side)))
    {
      var orderList := if order.side == BUY then buyOrders else sellOrders;
      var added := InsertIntoBook(orderList, order);
      if added.Err? {
        return Some(added.error);
      }
      if order.side == BUY {
        buyOrders := added.value;
      } else {
        sellOrders := added.value;
      }
      error := None;
    }
  }

  /**
   * The list work of `addOrder` on one book: append to an empty book,
   * otherwise insert at `-idx - 1` for the `idx` that `binarySearch` returns,
   * which fails when that position lies outside the book.
   */
  method InsertIntoBook(orderList: seq<Order>, order: Order) returns (r: Result<seq<Order>, BookError>)
    requires StrictlySorted(orderList)
    ensures r == AddToBook(orderList, order)
  {
    if |orderList| == 0 {
      assert orderList + [order] == [order];
      return Ok(orderList + [order]);
    }
    StrictlySortedIsSorted(orderList);
    var idx := BinarySearch(orderList, order);
    var insertAt := -idx - 1;
    if insertAt < 0 || insertAt > |orderList| {
      KeyIndexUnique(orderList, order, idx);
      return Err(IndexOutOfBounds(insertAt));
    }
    r := Ok(orderList[..insertAt] + [order] + orderList[insertAt..]);
  }

  /**
   * The loop of `fillOrder`: from the best contra entry on, fill the order
   * against each entry and replace that entry with its filled copy, until the
   * order is exhausted or a fill leaves it unchanged.
   */
  method WalkContraBook(order: Order, book: seq<Order>) returns (currOrder: Order, contraOrderList: seq<Order>, fills: seq<Trade>)
    ensures FillWalk(order, book) == Walk(currOrder, contraOrderList, fills)
  {
    fills := [];
    contraOrderList := book;
    currOrder := order;
    var idx := 0;
    assert Resume([], [], FillWalk(order, book)) == FillWalk(order, book);
    while idx < |contraOrderList|
      invariant 0 <= idx <= |contraOrderList| == |book|
      invariant contraOrderList[idx..] == book[idx..]
      invariant FillWalk(order, book) == Resume(contraOrderList[..idx], fills, FillWalk(currOrder, book[idx..]))
    {
      if currOrder.quantity == 0 {
        break;
      }
      var fillResult := Fill(currOrder, contraOrderList[idx]);
      if fillResult.newOrder.quantity == currOrder.quantity {
        break;
      }
      WalkAdvance(contraOrderList[..idx], fills, currOrder, book[idx..]);
      assert book[idx..][1..] == book[idx + 1..];
      if fillResult.trade.Some? {
        fills := fills + [fillResult.trade.value];
      }
      currOrder := fillResult.newOrder;
      ReplaceExtendsPrefix(contraOrderList, idx, fillResult.newContraOrder);
      contraOrderList := contraOrderList[idx := fillResult.newContraOrder];
      idx := idx + 1;
    }
    WalkHalts(contraOrderList[..idx], fills, currOrder, book[idx..]);
    RejoinAt(contraOrderList, book[idx..], idx);
  }

  /** Replacing entry `i` in place extends the finished prefix by the new entry and keeps the rest. */
  lemma ReplaceExtendsPrefix(s: seq<Order>, i: nat, x: Order)
    requires i < |s|
    ensures s[i := x][..i + 1] == s[..i] + [x]
    ensures s[i := x][i + 1..] == s[i + 1..]
  {
  }

  /** A list is its first `i` entries followed by the rest. */
  lemma RejoinAt(s: seq<Order>, rest: seq<Order>, i: nat)
    requires i <= |s| && s[i..] == rest
    ensures s[..i] + rest == s
  {
  }
}
