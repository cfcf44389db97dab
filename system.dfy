/**
 * EngineSystem: `MatchingEngineSystem`, which keeps one
 * `InstrumentMatchingEngine` per instrument seen so far, creates it on the
 * first order for that instrument and delegates every order to it. The map is
 * a `LinkedHashMap`, so its values are visited in the order the instruments
 * first appeared; `instruments` records that order.
 */
module EngineSystem {
  import opened Results
  import opened Orders
  import opened Trades
  import opened Books
  import opened Matching
  import opened Engine

  class MatchingEngineSystem {
    var instrumentEngineMap: map<Instrument, InstrumentMatchingEngine>
    /** The keys of `instrumentEngineMap` in insertion order. */
    var instruments: seq<Instrument>

    /** Every key is listed once in `instruments`, in insertion order. */
    ghost predicate KeysListed()
      reads this
    {
      && (forall i :: i in instrumentEngineMap <==> i in instruments)
      && (forall a, b :: 0 <= a < b < |instruments| ==> instruments[a] != instruments[b])
    }

    /** Every key maps to the engine of that instrument, which keeps its book invariant. */
    ghost predicate EnginesValid()
      reads this, instrumentEngineMap.Values
    {
      forall i :: i in instrumentEngineMap ==>
        instrumentEngineMap[i].instrument == i && instrumentEngineMap[i].Valid()
    }

    ghost predicate Valid()
      reads this, instrumentEngineMap.Values
    {
      KeysListed() && EnginesValid()
    }

    constructor ()
      ensures instrumentEngineMap == map[] && instruments == []
      ensures Valid()
    {
      instrumentEngineMap := map[];
      instruments := [];
    }

    /** The books of one side of the engines for `keys`, in the order of `keys`. */
    function SideBooks(keys: seq<Instrument>, side: Side): (books: seq<seq<Order>>)
      requires forall i :: i in keys ==> i in instrumentEngineMap
      reads this, instrumentEngineMap.Values
      ensures |books| == |keys|
      ensures forall k :: 0 <= k < |keys| ==> books[k] == instrumentEngineMap[keys[k]].Book(side)
    {
      if keys == [] then []
      else SideBooks(keys[..|keys| - 1], side) + [instrumentEngineMap[keys[|keys| - 1]].Book(side)]
    }

    /**
     * `match`: create the engine of the order's instrument when there is none
     * yet, then let that engine match the order. No other engine changes.
     */
    method Match(order: Order) returns (r: Result<seq<Trade>, BookError>)
      requires Valid()
      modifies this, instrumentEngineMap.Values
      ensures Valid()
      ensures order.instrument in instrumentEngineMap
      ensures instrumentEngineMap[order.instrument].instrument == order.instrument
      ensures old(order.instrument in instrumentEngineMap) ==>
        instrumentEngineMap == old(instrumentEngineMap) && instruments == old(instruments)
      ensures old(order.instrument !in instrumentEngineMap) ==>
        && fresh(instrumentEngineMap[order.instrument])
        && instrumentEngineMap == old(instrumentEngineMap)[order.instrument := instrumentEngineMap[order.instrument]]
        && instruments == old(instruments) + [order.instrument]
      ensures var e := instrumentEngineMap[order.instrument];
        var s := Step(order.instrument,
                      old(if order.instrument in instrumentEngineMap then instrumentEngineMap[order.instrument].buyOrders else []),
                      old(if order.instrument in instrumentEngineMap then instrumentEngineMap[order.instrument].sellOrders else []),
                      order);
        e.buyOrders == s.buy && e.sellOrders == s.sell && r == s.outcome
      ensures forall i :: i in old(instrumentEngineMap) && i != order.instrument ==>
        unchanged(instrumentEngineMap[i])
    {
      ghost var buy0 := if order.instrument in instrumentEngineMap then instrumentEngineMap[order.instrument].buyOrders else [];
      ghost var sell0 := if order.instrument in instrumentEngineMap then instrumentEngineMap[order.instrument].sellOrders else [];
      if order.instrument !in instrumentEngineMap {
        var engine := new InstrumentMatchingEngine(order.instrument);
        ListingExtends(instrumentEngineMap, instruments, order.instrument, engine);
        instrumentEngineMap := instrumentEngineMap[order.instrument := engine];
        instruments := instruments + [order.instrument];
      }
      var engine := instrumentEngineMap[order.instrument];
      assert engine.buyOrders == buy0 && engine.sellOrders == sell0;
      r := engine.Match(order);
      forall i | i in instrumentEngineMap && i != order.instrument
        ensures unchanged(instrumentEngineMap[i])
      {
        assert instrumentEngineMap[i].instrument != engine.instrument;
      }
      forall i | i in instrumentEngineMap
        ensures instrumentEngineMap[i].instrument == i && instrumentEngineMap[i].Valid()
      {
        if i != order.instrument {
          assert i in old(instrumentEngineMap) && old(instrumentEngineMap[i].Valid());
        }
      }
    }

    /**
     * The getters `buyOrders` and `sellOrders`: the books of one side of every
     * engine, concatenated in the order the instruments first appeared.
     */
    method Orders(side: Side) returns (allOrders: seq<Order>)
      requires forall i :: i in instruments ==> i in instrumentEngineMap
      ensures allOrders == Flatten(SideBooks(instruments, side))
    {
      allOrders := [];
      var k := 0;
      while k < |instruments|
        invariant 0 <= k <= |instruments|
        invariant allOrders == Flatten(SideBooks(instruments[..k], side))
      {
        SideBooksExtend(side, k);
        allOrders := allOrders + instrumentEngineMap[instruments[k]].Book(side);
        k := k + 1;
      }
      assert instruments[..k] == instruments;
    }

    /** One more instrument adds its book at the end of the concatenation. */
    lemma SideBooksExtend(side: Side, k: nat)
      requires forall i :: i in instruments ==> i in instrumentEngineMap
      requires k < |instruments|
      ensures Flatten(SideBooks(instruments[..k + 1], side))
           == Flatten(SideBooks(instruments[..k], side)) + instrumentEngineMap[instruments[k]].Book(side)
    {
      assert instruments[..k + 1][..k] == instruments[..k];
      var front := SideBooks(instruments[..k], side);
      var books := SideBooks(instruments[..k + 1], side);
      assert books == front + [instrumentEngineMap[instruments[k]].Book(side)];
      assert books[..|books| - 1] == front;
    }

    method BuyOrders() returns (allOrders: seq<Order>)
      requires Valid()
      ensures allOrders == Flatten(SideBooks(instruments, BUY))
    {
      allOrders := Orders(BUY);
    }

    method SellOrders() returns (allOrders: seq<Order>)
      requires Valid()
      ensures allOrders == Flatten(SideBooks(instruments, SELL))
    {
      allOrders := Orders(SELL);
    }

    /**
     * What the getters report: exactly the orders resting on that side of the
     * engine of their own instrument, all open and of that side, and as many
     * entries as all those books hold together.
     */
    lemma SideOrdersAreResting(side: Side)
      requires Valid()
      ensures var all := Flatten(SideBooks(instruments, side));
        && (forall o :: o in all <==>
              o.instrument in instrumentEngineMap && o in instrumentEngineMap[o.instrument].Book(side))
        && (forall o :: o in all ==> o.side == side && o.quantity > 0)
        && |all| == SumLengths(SideBooks(instruments, side))
    {
      var books := SideBooks(instruments, side);
      FlattenLength(books);
      forall o
        ensures o in Flatten(books) <==>
          o.instrument in instrumentEngineMap && o in instrumentEngineMap[o.instrument].Book(side)
        ensures o in Flatten(books) ==> o.side == side && o.quantity > 0
      {
        if o in Flatten(books) {
          ReportedIsResting(side, o);
        }
        if o.instrument in instrumentEngineMap && o in instrumentEngineMap[o.instrument].Book(side) {
          RestingIsReported(side, o);
        }
      }
    }

    /** An order in a getter's result rests on that side of its own instrument's engine. */
    lemma ReportedIsResting(side: Side, o: Order)
      requires Valid()
      requires o in Flatten(SideBooks(instruments, side))
      ensures o.instrument in instrumentEngineMap && o in instrumentEngineMap[o.instrument].Book(side)
      ensures o.side == side && o.quantity > 0
    {
      var books := SideBooks(instruments, side);
      FlattenMember(books, o);
      var k :| 0 <= k < |books| && o in books[k];
      var e := instrumentEngineMap[instruments[k]];
      e.BookHolds(side, o);
    }

    /** An order resting on that side of its instrument's engine is in the getter's result. */
    lemma RestingIsReported(side: Side, o: Order)
      requires KeysListed()
      requires o.instrument in instrumentEngineMap && o in instrumentEngineMap[o.instrument].Book(side)
      ensures o in Flatten(SideBooks(instruments, side))
    {
      var books := SideBooks(instruments, side);
      var k :| 0 <= k < |instruments| && instruments[k] == o.instrument;
      assert o in books[k];
      FlattenMember(books, o);
    }

    /**
     * The book of the `k`-th instrument appears in the getters' result as one
     * contiguous block, in its own best-first order, after the books of the
     * instruments that appeared before it.
     */
    lemma SideOrdersAreBlocks(side: Side, k: nat)
      requires forall i :: i in instruments ==> i in instrumentEngineMap
      requires k < |instruments|
      ensures Flatten(SideBooks(instruments, side))
           == Flatten(SideBooks(instruments[..k], side))
              + instrumentEngineMap[instruments[k]].Book(side)
              + Flatten(SideBooks(instruments[k + 1..], side))
    {
      FlattenBlock(SideBooks(instruments, side), k);
      SideBooksAround(side, k);
    }

    /** The books before and after instrument `k` are the books of the instruments before and after it. */
    lemma SideBooksAround(side: Side, k: nat)
      requires forall i :: i in instruments ==> i in instrumentEngineMap
      requires k < |instruments|
      ensures SideBooks(instruments[..k], side) == SideBooks(instruments, side)[..k]
      ensures SideBooks(instruments[k + 1..], side) == SideBooks(instruments, side)[k + 1..]
    {
      var books := SideBooks(instruments, side);
      var before := SideBooks(instruments[..k], side);
      var after := SideBooks(instruments[k + 1..], side);
      forall j | 0 <= j < k
        ensures before[j] == books[..k][j]
      {
        assert instruments[..k][j] == instruments[j];
      }
      forall j | 0 <= j < |instruments| - k - 1
        ensures after[j] == books[k + 1..][j]
      {
        assert instruments[k + 1..][j] == instruments[k + 1 + j];
      }
    }
  }

  /** Recording a new key at the end of the listing keeps every key listed exactly once. */
  lemma ListingExtends(m: map<Instrument, InstrumentMatchingEngine>, keys: seq<Instrument>,
                       x: Instrument, e: InstrumentMatchingEngine)
    requires forall i :: i in m <==> i in keys
    requires forall a, b :: 0 <= a < b < |keys| ==> keys[a] != keys[b]
    requires x !in m
    ensures forall i :: i in m[x := e] <==> i in keys + [x]
    ensures forall a, b :: 0 <= a < b < |keys + [x]| ==> (keys + [x])[a] != (keys + [x])[b]
  {
  }
}
