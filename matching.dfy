/**
 * Matching: what one call of `InstrumentMatchingEngine.match` does to the two
 * books, as functions on values, and the properties the engine relies on —
 * the walk touches a prefix of the contra book, quantity is conserved, the
 * walk stops at the first contra order that does not cross, and the book
 * invariant (sorted, open, uncrossed) is preserved.
 */
module Matching {
  import opened Results
  import opened Orders
  import opened Trades
  import opened Fills
  import opened Books

  function Other(s: Side): Side
  {
    if s == BUY then SELL else BUY
  }

  /** The result of walking an aggressor down a contra book. */
  datatype Walk = Walk(remainder: Order, book: seq<Order>, trades: seq<Trade>)

  /**
   * The loop of `fillOrder`: fill against the entries from index 0 upward,
   * replacing each touched entry, until the aggressor is exhausted or a fill
   * leaves its quantity unchanged. `book` is the contra book before compaction.
   */
  function FillWalk(o: Order, book: seq<Order>): (w: Walk)
    ensures |w.book| == |book| && |w.trades| <= |book|
    ensures w.remainder.quantity <= o.quantity && OnlyQuantityDiffers(w.remainder, o)
    decreases |book|
  {
    if book == [] || o.quantity == 0 then Walk(o, book, [])
    else
      var f := Fill(o, book[0]);
      if f.newOrder.quantity == o.quantity then Walk(o, book, [])
      else
        var rest := FillWalk(f.newOrder, book[1..]);
        Walk(rest.remainder, [f.newContraOrder] + rest.book,
             (if f.trade.Some? then [f.trade.value] else []) + rest.trades)
  }

  /** A walk that has already produced `fills` and rewritten `prefix`, continued by `rest`. */
  function Resume(prefix: seq<Order>, fills: seq<Trade>, rest: Walk): Walk
  {
    Walk(rest.remainder, prefix + rest.book, fills + rest.trades)
  }

  /** One more step of the walk moves one entry and at most one trade into the finished part. */
  lemma WalkAdvance(prefix: seq<Order>, fills: seq<Trade>, o: Order, book: seq<Order>)
    requires book != [] && o.quantity != 0
    requires Fill(o, book[0]).newOrder.quantity != o.quantity
    ensures var f := Fill(o, book[0]);
      Resume(prefix, fills, FillWalk(o, book))
      == Resume(prefix + [f.newContraOrder], fills + (if f.trade.Some? then [f.trade.value] else []),
                FillWalk(f.newOrder, book[1..]))
  {
    var f := Fill(o, book[0]);
    var made := if f.trade.Some? then [f.trade.value] else [];
    var rest := FillWalk(f.newOrder, book[1..]);
    assert FillWalk(o, book) == Walk(rest.remainder, [f.newContraOrder] + rest.book, made + rest.trades);
    AppendRegroups(prefix, [f.newContraOrder], rest.book);
    AppendRegroups(fills, made, rest.trades);
  }

  /** Appending a joined pair is appending its parts one after the other. */
  lemma AppendRegroups<T>(a: seq<T>, b: seq<T>, c: seq<T>)
    ensures a + (b + c) == a + b + c
  {
  }

  /** A walk that stops here leaves the rest of the book as it is. */
  lemma WalkHalts(prefix: seq<Order>, fills: seq<Trade>, o: Order, book: seq<Order>)
    requires book == [] || o.quantity == 0 || Fill(o, book[0]).newOrder.quantity == o.quantity
    ensures Resume(prefix, fills, FillWalk(o, book)) == Walk(o, prefix + book, fills)
  {
  }

  /** The quantity matched by a list of trades. */
  function Traded(trades: seq<Trade>): nat
  {
    if trades == [] then 0 else trades[0].order.quantity + Traded(trades[1..])
  }

  /**
   * The walk touches a prefix of the book: no entry changes anything but its
   * quantity, and the entries past the prefix (one per trade) are untouched.
   */
  lemma {:induction false} WalkTouchesPrefix(o: Order, book: seq<Order>)
    ensures var w := FillWalk(o, book);
      && OnlyQuantityDiffers(w.remainder, o)
      && (forall k :: 0 <= k < |book| ==> OnlyQuantityDiffers(w.book[k], book[k]))
      && (forall k :: |w.trades| <= k < |book| ==> w.book[k] == book[k])
    decreases |book|
  {
    if book != [] && o.quantity != 0 {
      var f := Fill(o, book[0]);
      if f.newOrder.quantity != o.quantity {
        var rest := FillWalk(f.newOrder, book[1..]);
        WalkTouchesPrefix(f.newOrder, book[1..]);
        var w := FillWalk(o, book);
        assert w.book == [f.newContraOrder] + rest.book;
        assert |w.trades| == 1 + |rest.trades|;
        forall k | 1 <= k < |book|
          ensures w.book[k] == rest.book[k - 1] && book[k] == book[1..][k - 1]
        {
        }
      }
    }
  }

  /**
   * One trade per touched entry, in book order: each is a valid Trade between
   * the aggressor and that entry, and the entry loses exactly the traded quantity.
   */
  lemma WalkTradesInBookOrder(o: Order, book: seq<Order>)
    ensures var w := FillWalk(o, book);
      forall k :: 0 <= k < |w.trades| ==>
        && ValidTrade(w.trades[k])
        && OnlyQuantityDiffers(w.trades[k].order, o)
        && OnlyQuantityDiffers(w.trades[k].contraOrder, book[k])
        && w.book[k].quantity + w.trades[k].contraOrder.quantity == book[k].quantity
  {
    WalkTradesAreFills(o, book);
    WalkTradesFollowBook(o, book);
  }

  /** Every trade of the walk is valid and its aggressor leg is the aggressor's. */
  lemma {:induction false} WalkTradesAreFills(o: Order, book: seq<Order>)
    ensures forall t :: t in FillWalk(o, book).trades ==> ValidTrade(t)
    ensures forall t :: t in FillWalk(o, book).trades ==> OnlyQuantityDiffers(t.order, o)
    decreases |book|
  {
    if book != [] && o.quantity != 0 {
      var f := Fill(o, book[0]);
      if f.newOrder.quantity != o.quantity {
        var rest := FillWalk(f.newOrder, book[1..]);
        WalkTradesAreFills(f.newOrder, book[1..]);
        assert FillWalk(o, book).trades == [f.trade.value] + rest.trades;
      }
    }
  }

  /** Trade `k` of the walk was made against book entry `k`, which lost the traded quantity. */
  lemma {:induction false} WalkTradesFollowBook(o: Order, book: seq<Order>)
    ensures var w := FillWalk(o, book);
      forall k :: 0 <= k < |w.trades| ==>
        && OnlyQuantityDiffers(w.trades[k].contraOrder, book[k])
        && w.book[k].quantity + w.trades[k].contraOrder.quantity == book[k].quantity
    decreases |book|
  {
    if book != [] && o.quantity != 0 {
      var f := Fill(o, book[0]);
      if f.newOrder.quantity != o.quantity {
        var rest := FillWalk(f.newOrder, book[1..]);
        WalkTradesFollowBook(f.newOrder, book[1..]);
        var w := FillWalk(o, book);
        assert w.book == [f.newContraOrder] + rest.book;
        assert w.trades == [f.trade.value] + rest.trades;
        forall k | 0 <= k < |w.trades|
          ensures && OnlyQuantityDiffers(w.trades[k].contraOrder, book[k])
                  && w.book[k].quantity + w.trades[k].contraOrder.quantity == book[k].quantity
        {
          if k > 0 {
            assert w.trades[k] == rest.trades[k - 1] && w.book[k] == rest.book[k - 1];
            assert book[k] == book[1..][k - 1];
          }
        }
      }
    }
  }

  /**
   * Conservation: the traded quantity is what the aggressor lost, and also what
   * the contra book lost.
   */
  lemma {:induction false} WalkConserves(o: Order, book: seq<Order>)
    ensures var w := FillWalk(o, book);
      && Traded(w.trades) == o.quantity - w.remainder.quantity
      && Total(w.book) + Traded(w.trades) == Total(book)
    decreases |book|
  {
    if book != [] && o.quantity != 0 {
      var f := Fill(o, book[0]);
      if f.newOrder.quantity != o.quantity {
        var rest := FillWalk(f.newOrder, book[1..]);
        WalkConserves(f.newOrder, book[1..]);
        var w := FillWalk(o, book);
        assert w.book[1..] == rest.book;
        assert w.trades[1..] == rest.trades;
      }
    }
  }

  /**
   * The stop rule: when the aggressor still has quantity left, every touched
   * entry was filled completely, and the first untouched entry (if any) is one
   * that the remainder does not cross.
   */
  lemma {:induction false} WalkStopsAtFirstNonCrossing(o: Order, book: seq<Order>)
    ensures var w := FillWalk(o, book);
      w.remainder.quantity > 0 ==>
        && (forall k :: 0 <= k < |w.trades| ==> w.book[k].quantity == 0)
        && (|w.trades| < |book| ==>
              !(book[|w.trades|].quantity > 0 && Crosses(w.remainder, book[|w.trades|])))
    decreases |book|
  {
    WalkTouchesPrefix(o, book);
    if book != [] && o.quantity != 0 {
      var f := Fill(o, book[0]);
      if f.newOrder.quantity != o.quantity {
        var rest := FillWalk(f.newOrder, book[1..]);
        WalkStopsAtFirstNonCrossing(f.newOrder, book[1..]);
        var w := FillWalk(o, book);
        if w.remainder.quantity > 0 {
          assert w.book == [f.newContraOrder] + rest.book;
          assert |w.trades| == 1 + |rest.trades|;
          assert f.newContraOrder.quantity == 0;
          forall k | 1 <= k < |w.trades| ensures w.book[k].quantity == 0 {
            assert w.book[k] == rest.book[k - 1];
          }
          if |w.trades| < |book| {
            assert book[|w.trades|] == book[1..][|rest.trades|];
          }
        }
      }
    }
  }

  // ---------------------------------------------------------------------------
  // The book invariant
  // ---------------------------------------------------------------------------

  /** One side's book as the engine keeps it: its instrument and side, open, strictly sorted. */
  predicate RestingBook(book: seq<Order>, instrument: Instrument, side: Side)
  {
    && (forall i :: 0 <= i < |book| ==>
          book[i].instrument == instrument && book[i].side == side && book[i].quantity > 0)
    && StrictlySorted(book)
  }

  /** No order of the first book crosses an order of the second. */
  predicate NoCross(a: seq<Order>, b: seq<Order>)
  {
    forall i, j :: 0 <= i < |a| && 0 <= j < |b| ==> !Crosses(a[i], b[j])
  }

  /** The invariant of an instrument's two books. */
  predicate EngineInvariant(instrument: Instrument, buy: seq<Order>, sell: seq<Order>)
  {
    RestingBook(buy, instrument, BUY) && RestingBook(sell, instrument, SELL) && NoCross(buy, sell)
  }

  /** Uncrossed books mean every bid is below every offer, in particular the best ones. */
  lemma UncrossedBidBelowAsk(instrument: Instrument, buy: seq<Order>, sell: seq<Order>)
    requires EngineInvariant(instrument, buy, sell)
    ensures forall i, j :: 0 <= i < |buy| && 0 <= j < |sell| ==> buy[i].price < sell[j].price
    ensures buy != [] && sell != [] ==> buy[0].price < sell[0].price
  {
    forall i, j | 0 <= i < |buy| && 0 <= j < |sell| ensures buy[i].price < sell[j].price {
      assert !Crosses(buy[i], sell[j]);
    }
  }

  lemma NoCrossSymmetric(a: seq<Order>, b: seq<Order>, side: Side)
    requires forall i :: 0 <= i < |a| ==> a[i].side == side
    requires forall j :: 0 <= j < |b| ==> b[j].side == Other(side)
    requires NoCross(a, b)
    ensures NoCross(b, a)
  {
    forall j, i | 0 <= j < |b| && 0 <= i < |a| ensures !Crosses(b[j], a[i]) {
      assert !Crosses(a[i], b[j]);
    }
  }

  /** Changing only quantities keeps the order of a book. */
  lemma SortedUnderQuantityChange(a: seq<Order>, b: seq<Order>)
    requires |a| == |b| && StrictlySorted(b)
    requires forall k :: 0 <= k < |a| ==> OnlyQuantityDiffers(a[k], b[k])
    ensures StrictlySorted(a)
  {
    forall i, j | 0 <= i < j < |a| ensures Compare(a[i], a[j]) < 0 {
      CompareRespectsKey(a[i], b[i], a[j]);
      CompareRespectsKey(a[j], b[j], b[i]);
    }
  }

  /** An order that does not cross a book entry does not cross any worse entry either. */
  lemma WorseDoesNotCross(x: Order, a: Order, b: Order)
    requires a.side == b.side && a.instrument == b.instrument && x.side != a.side
    requires Compare(a, b) < 0 && !Crosses(x, a)
    ensures !Crosses(x, b)
  {
    CompareIsPriceTimePriority(a, b);
  }

  /** A book whose first `n` entries were filled and whose rest is untouched compacts to that rest. */
  lemma {:induction false} CompactFilledPrefix(walked: seq<Order>, book: seq<Order>, n: nat)
    requires |walked| == |book| && n <= |book|
    requires forall k :: 0 <= k < n ==> walked[k].quantity == 0
    requires forall k :: n <= k < |book| ==> walked[k] == book[k]
    requires forall k :: 0 <= k < |book| ==> book[k].quantity > 0
    ensures RemoveFilled(walked) == book[n..]
    decreases n
  {
    if n == 0 {
      assert walked == book;
      RemoveFilledKeepsOpen(book);
    } else {
      CompactFilledPrefix(walked[1..], book[1..], n - 1);
      assert book[1..][n - 1..] == book[n..];
    }
  }

  /** A remaining aggressor rests behind exactly the entries it did not reach. */
  lemma CompactedAfterRemainder(o: Order, book: seq<Order>)
    requires forall i :: 0 <= i < |book| ==> book[i].quantity > 0
    requires FillWalk(o, book).remainder.quantity > 0
    ensures RemoveFilled(FillWalk(o, book).book) == book[|FillWalk(o, book).trades|..]
  {
    var w := FillWalk(o, book);
    WalkTouchesPrefix(o, book);
    WalkStopsAtFirstNonCrossing(o, book);
    CompactFilledPrefix(w.book, book, |w.trades|);
  }

  /**
   * No residual crossing: if the aggressor has quantity left, no order that
   * remains in the compacted contra book crosses it. This needs the contra
   * book sorted best-first, so that every entry past the stop is worse.
   */
  lemma RemainderDoesNotCross(o: Order, book: seq<Order>)
    requires RestingBook(book, o.instrument, Other(o.side))
    requires FillWalk(o, book).remainder.quantity > 0
    ensures var w := FillWalk(o, book);
      forall j :: 0 <= j < |RemoveFilled(w.book)| ==> !Crosses(w.remainder, RemoveFilled(w.book)[j])
  {
    var w := FillWalk(o, book);
    var n := |w.trades|;
    WalkStopsAtFirstNonCrossing(o, book);
    CompactedAfterRemainder(o, book);
    assert w.remainder.instrument == o.instrument && w.remainder.side == o.side;
    assert n < |book| ==> book[n].quantity > 0;
    BehindStopDoesNotCross(w.remainder, book, n);
  }

  /** In a sorted book, an order that does not cross the entry at `n` crosses nothing from `n` on. */
  lemma BehindStopDoesNotCross(x: Order, book: seq<Order>, n: nat)
    requires n <= |book|
    requires RestingBook(book, x.instrument, Other(x.side))
    requires n < |book| ==> !Crosses(x, book[n])
    ensures forall j :: 0 <= j < |book[n..]| ==> !Crosses(x, book[n..][j])
  {
    forall j | 0 < j < |book[n..]| ensures !Crosses(x, book[n..][j]) {
      WorseDoesNotCross(x, book[n], book[n + j]);
    }
  }

  // ---------------------------------------------------------------------------
  // One call of match
  // ---------------------------------------------------------------------------

  /** The books after matching an order: its own side, the contra side, and the result. */
  datatype SideResult = SideResult(own: seq<Order>, contra: seq<Order>, outcome: Result<seq<Trade>, BookError>)

  /**
   * `fillOrder` followed by `addOrder` on the remainder, for an order whose own
   * side's book is `own`. A failing insert propagates as an error; from books
   * that keep the engine invariant it fails only when nothing traded and the
   * contra book is unchanged (MatchOnSideFailureTouchesNothing).
   */
  function MatchOnSide(own: seq<Order>, contra: seq<Order>, order: Order): SideResult
  {
    var w := FillWalk(order, contra);
    var contra' := RemoveFilled(w.book);
    if w.remainder.quantity > 0 then
      match AddToBook(own, w.remainder)
      case Ok(own') => SideResult(own', contra', Ok(w.trades))
      case Err(e) => SideResult(own, contra', Err(e))
    else
      SideResult(own, contra', Ok(w.trades))
  }

  datatype StepResult = StepResult(buy: seq<Order>, sell: seq<Order>, outcome: Result<seq<Trade>, BookError>)

  /** `InstrumentMatchingEngine.match` on the engine for `instrument`. */
  function Step(instrument: Instrument, buy: seq<Order>, sell: seq<Order>, order: Order): StepResult
  {
    if order.instrument != instrument then StepResult(buy, sell, Ok([]))
    else if order.side == BUY then
      var r := MatchOnSide(buy, sell, order);
      StepResult(r.own, r.contra, r.outcome)
    else
      var r := MatchOnSide(sell, buy, order);
      StepResult(r.contra, r.own, r.outcome)
  }

  /**
   * Replacing quantities and compacting keeps a contra book a resting book, and
   * keeps it clear of the orders resting on the other side.
   */
  lemma CompactedKeepsInvariant(walked: seq<Order>, contra: seq<Order>, own: seq<Order>,
                                instrument: Instrument, side: Side)
    requires |walked| == |contra|
    requires forall k :: 0 <= k < |contra| ==> OnlyQuantityDiffers(walked[k], contra[k])
    requires RestingBook(contra, instrument, side) && NoCross(own, contra)
    ensures RestingBook(RemoveFilled(walked), instrument, side) && NoCross(own, RemoveFilled(walked))
  {
    var contra' := RemoveFilled(walked);
    SortedUnderQuantityChange(walked, contra);
    RemoveFilledSorted(walked);
    forall j | 0 <= j < |contra'|
      ensures contra'[j].instrument == instrument && contra'[j].side == side
      ensures forall i :: 0 <= i < |own| ==> !Crosses(own[i], contra'[j])
    {
      assert contra'[j] in walked;
      var k :| 0 <= k < |walked| && walked[k] == contra'[j];
      forall i | 0 <= i < |own| ensures !Crosses(own[i], contra'[j]) {
        assert !Crosses(own[i], contra[k]);
      }
    }
  }

  /**
   * After the walk and the compaction, the contra book still holds only open
   * orders of its instrument and side, sorted, and none of them crosses an order
   * resting on the aggressor's side.
   */
  lemma ContraAfterWalk(instrument: Instrument, own: seq<Order>, contra: seq<Order>, order: Order)
    requires RestingBook(contra, instrument, Other(order.side))
    requires NoCross(own, contra)
    ensures var contra' := RemoveFilled(FillWalk(order, contra).book);
      RestingBook(contra', instrument, Other(order.side)) && NoCross(own, contra')
  {
    WalkTouchesPrefix(order, contra);
    CompactedKeepsInvariant(FillWalk(order, contra).book, contra, own, instrument, Other(order.side));
  }

  /** Every entry of the book after inserting `o` is `o` or an entry of the old book. */
  lemma AddedEntries(own: seq<Order>, o: Order)
    requires AddToBook(own, o).Ok?
    ensures forall x :: x in AddToBook(own, o).value ==> x == o || x in own
  {
    var own' := AddToBook(own, o).value;
    if own != [] {
      assert multiset(own') == multiset(own) + multiset{o};
      forall x | x in own' ensures x == o || x in own {
        assert x in multiset(own');
      }
    }
  }

  /**
   * Conservation for one call: the contra book loses exactly the traded
   * quantity, and when the call succeeds the aggressor's own book gains exactly
   * the untraded rest — so resting plus traded quantity equals what was submitted.
   */
  lemma MatchOnSideConserves(own: seq<Order>, contra: seq<Order>, order: Order)
    ensures var r := MatchOnSide(own, contra, order);
      var w := FillWalk(order, contra);
      && Total(r.contra) + Traded(w.trades) == Total(contra)
      && (r.outcome.Ok? ==>
            r.outcome.value == w.trades
            && Total(r.own) + Traded(w.trades) == Total(own) + order.quantity)
  {
    var w := FillWalk(order, contra);
    WalkConserves(order, contra);
    RemoveFilledTotal(w.book);
    if w.remainder.quantity > 0 && own != [] && AddToBook(own, w.remainder).Ok? {
      TotalInsertAt(own, CountLess(own, w.remainder), w.remainder);
    }
  }

  /** For an order of the engine's instrument, `Step` is `MatchOnSide` on its own and the contra book. */
  lemma StepBySide(instrument: Instrument, buy: seq<Order>, sell: seq<Order>, order: Order)
    requires order.instrument == instrument
    ensures var s := Step(instrument, buy, sell, order);
      var r := MatchOnSide(if order.side == BUY then buy else sell, if order.side == BUY then sell else buy, order);
      && s.outcome == r.outcome
      && (if order.side == BUY then s.buy else s.sell) == r.own
      && (if order.side == BUY then s.sell else s.buy) == r.contra
  {
  }

  /**
   * `Step` assembled from its parts: the compacted contra book after the walk,
   * and the own book after inserting the remainder (unchanged when nothing
   * remains or the insert fails). The books and result so assembled are `Step`'s,
   * and they keep the engine invariant.
   */
  lemma StepFromParts(instrument: Instrument, buy: seq<Order>, sell: seq<Order>, order: Order,
                      own': seq<Order>, contra': seq<Order>, r: Result<seq<Trade>, BookError>)
    requires order.instrument == instrument
    requires EngineInvariant(instrument, buy, sell)
    requires var own := if order.side == BUY then buy else sell;
      var w := FillWalk(order, if order.side == BUY then sell else buy);
      var added := AddToBook(own, w.remainder);
      && contra' == RemoveFilled(w.book)
      && (if w.remainder.quantity > 0 && added.Err? then own' == own && r == Err(added.error)
          else r == Ok(w.trades) && own' == (if w.remainder.quantity > 0 then added.value else own))
    ensures var s := Step(instrument, buy, sell, order);
      && s.outcome == r
      && s.buy == (if order.side == BUY then own' else contra')
      && s.sell == (if order.side == BUY then contra' else own')
      && EngineInvariant(instrument, s.buy, s.sell)
  {
    StepBySide(instrument, buy, sell, order);
    StepPreservesInvariant(instrument, buy, sell, order);
  }

  lemma MatchOnSidePreserves(instrument: Instrument, own: seq<Order>, contra: seq<Order>, order: Order)
    requires order.instrument == instrument
    requires RestingBook(own, instrument, order.side)
    requires RestingBook(contra, instrument, Other(order.side))
    requires NoCross(own, contra)
    ensures var r := MatchOnSide(own, contra, order);
      RestingBook(r.own, instrument, order.side) && RestingBook(r.contra, instrument, Other(order.side))
      && NoCross(r.own, r.contra)
  {
    var w := FillWalk(order, contra);
    var contra' := RemoveFilled(w.book);
    var r := MatchOnSide(own, contra, order);
    ContraAfterWalk(instrument, own, contra, order);
    if w.remainder.quantity > 0 && AddToBook(own, w.remainder).Ok? {
      var rem := w.remainder;
      WalkTouchesPrefix(order, contra);
      RemainderDoesNotCross(order, contra);
      var own' := AddToBook(own, rem).value;
      assert own' == r.own;
      if own != [] {
        AddToBookSorted(own, rem);
      }
      AddedEntries(own, rem);
      forall i, j | 0 <= i < |own'| && 0 <= j < |contra'| ensures !Crosses(own'[i], contra'[j]) {
        assert own'[i] in own';
        if own'[i] != rem {
          var i' :| 0 <= i' < |own| && own[i'] == own'[i];
        }
      }
      forall i | 0 <= i < |own'|
        ensures own'[i].instrument == instrument && own'[i].side == order.side && own'[i].quantity > 0
      {
        assert own'[i] in own';
        if own'[i] != rem {
          var i' :| 0 <= i' < |own| && own[i'] == own'[i];
        }
      }
    }
  }

  /**
   * `match` keeps the engine invariant: both books hold only open orders of the
   * engine's instrument and side, strictly sorted best-first, and no bid crosses
   * an offer. It holds whether the order is fully filled, rests, or its insert fails.
   */
  lemma StepPreservesInvariant(instrument: Instrument, buy: seq<Order>, sell: seq<Order>, order: Order)
    requires EngineInvariant(instrument, buy, sell)
    ensures var s := Step(instrument, buy, sell, order); EngineInvariant(instrument, s.buy, s.sell)
  {
    if order.instrument == instrument {
      if order.side == BUY {
        MatchOnSidePreserves(instrument, buy, sell, order);
      } else {
        NoCrossSymmetric(buy, sell, BUY);
        MatchOnSidePreserves(instrument, sell, buy, order);
        var r := MatchOnSide(sell, buy, order);
        NoCrossSymmetric(r.own, r.contra, SELL);
      }
    }
  }

  /**
   * Conservation across both books of the instrument: each traded unit leaves
   * the aggressor and one resting order, so the resting quantity after a
   * successful match is the resting quantity before, plus the submitted
   * quantity, minus twice the traded quantity.
   */
  lemma StepConserves(instrument: Instrument, buy: seq<Order>, sell: seq<Order>, order: Order)
    requires order.instrument == instrument
    ensures var s := Step(instrument, buy, sell, order);
      s.outcome.Ok? ==>
        Total(s.buy) + Total(s.sell) + 2 * Traded(s.outcome.value) == Total(buy) + Total(sell) + order.quantity
  {
    if order.side == BUY {
      MatchOnSideConserves(buy, sell, order);
    } else {
      MatchOnSideConserves(sell, buy, order);
    }
  }

  /**
   * What happens to the aggressor's remainder: a fully filled order does not
   * rest; an unfilled remainder rests (its own book gains exactly it) unless
   * the insert fails, which happens only when an entry of the same key rests,
   * and then the own book is unchanged.
   */
  lemma MatchOnSideRests(own: seq<Order>, contra: seq<Order>, order: Order)
    ensures var r := MatchOnSide(own, contra, order);
      var w := FillWalk(order, contra);
      && r.contra == RemoveFilled(w.book)
      && (w.remainder.quantity == 0 ==> r.own == own && r.outcome == Ok(w.trades))
      && (w.remainder.quantity > 0 && r.outcome.Ok? ==>
            r.outcome == Ok(w.trades) && multiset(r.own) == multiset(own) + multiset{w.remainder})
      && (r.outcome.Err? ==> w.remainder.quantity > 0 && r.own == own && own != [] && HasKey(own, w.remainder))
  {
  }

  /**
   * An order for another instrument, or one with nothing to fill, leaves both
   * books of a consistent engine as they are and yields no trades.
   */
  lemma StepLeavesBooks(instrument: Instrument, buy: seq<Order>, sell: seq<Order>, order: Order)
    requires EngineInvariant(instrument, buy, sell)
    requires order.instrument != instrument || order.quantity == 0
    ensures Step(instrument, buy, sell, order) == StepResult(buy, sell, Ok([]))
  {
    if order.instrument == instrument {
      RemoveFilledKeepsOpen(buy);
      RemoveFilledKeepsOpen(sell);
    }
  }

  /**
   * A failing insert changes nothing. It fails only when an entry with the
   * remainder's key rests on the order's own side; that entry crosses no contra
   * entry, and the order has its price, so the walk trades nothing and
   * compaction leaves the all-open contra book as it was. The order is dropped
   * without trading or resting.
   */
  lemma MatchOnSideFailureTouchesNothing(instrument: Instrument, own: seq<Order>, contra: seq<Order>, order: Order)
    requires order.instrument == instrument
    requires RestingBook(own, instrument, order.side) && RestingBook(contra, instrument, Other(order.side))
    requires NoCross(own, contra)
    requires MatchOnSide(own, contra, order).outcome.Err?
    ensures FillWalk(order, contra).trades == []
    ensures MatchOnSide(own, contra, order) == SideResult(own, contra, MatchOnSide(own, contra, order).outcome)
  {
    var w := FillWalk(order, contra);
    MatchOnSideRests(own, contra, order);
    var i :| 0 <= i < |own| && Compare(own[i], w.remainder) == 0;
    CompareZeroIffSameKey(own[i], w.remainder);
    if contra != [] {
      assert !Crosses(own[i], contra[0]);
      assert Fill(order, contra[0]).newOrder.quantity == order.quantity;
    }
    assert w == Walk(order, contra, []);
    RemoveFilledKeepsOpen(contra);
  }

  /** On the engine's two books: a `match` that fails leaves both books as they were and makes no trade. */
  lemma StepFailureTouchesNothing(instrument: Instrument, buy: seq<Order>, sell: seq<Order>, order: Order)
    requires EngineInvariant(instrument, buy, sell)
    requires Step(instrument, buy, sell, order).outcome.Err?
    ensures FillWalk(order, if order.side == BUY then sell else buy).trades == []
    ensures Step(instrument, buy, sell, order) == StepResult(buy, sell, Step(instrument, buy, sell, order).outcome)
  {
    StepBySide(instrument, buy, sell, order);
    if order.side == BUY {
      MatchOnSideFailureTouchesNothing(instrument, buy, sell, order);
    } else {
      NoCrossSymmetric(buy, sell, BUY);
      MatchOnSideFailureTouchesNothing(instrument, sell, buy, order);
    }
  }

  /**
   * A second BUY at the same price and timestamp as a resting BUY: nothing
   * crosses, the insert position is -1, the insert fails, and the order is
   * neither traded nor resting. The corrected insertion queues it behind the
   * resting order instead.
   */
  lemma EqualKeyOrderLost()
    ensures var btc := Instrument("BTC");
      var resting := Order("1", BUY, btc, 5, 100.0, 0);
      var incoming := Order("2", BUY, btc, 3, 100.0, 0);
      && EngineInvariant(btc, [resting], [])
      && Step(btc, [resting], [], incoming) == StepResult([resting], [], Err(IndexOutOfBounds(-1)))
      && AddAfterEqual([resting], incoming) == [resting, incoming]
  {
    var btc := Instrument("BTC");
    var resting := Order("1", BUY, btc, 5, 100.0, 0);
    var incoming := Order("2", BUY, btc, 3, 100.0, 0);
    CompareZeroIffSameKey(resting, incoming);
    assert Compare([resting][0], incoming) == 0;
    KeyIndexUnique([resting], incoming, 0);
    assert CountNotAfter([resting], incoming) == 1;
  }

  // ---------------------------------------------------------------------------
  // Successive calls of match
  // ---------------------------------------------------------------------------

  /** The traded quantity of several trade lists adds up. */
  lemma {:induction false} TradedAppend(a: seq<Trade>, b: seq<Trade>)
    ensures Traded(a + b) == Traded(a) + Traded(b)
  {
    if a != [] {
      assert (a + b)[1..] == a[1..] + b;
      TradedAppend(a[1..], b);
    } else {
      assert a + b == b;
    }
  }

  /** The sum of the submitted quantities. */
  function Submitted(orders: seq<Order>): nat
  {
    if orders == [] then 0 else orders[0].quantity + Submitted(orders[1..])
  }

  /**
   * `match` called on each order in turn, collecting the trades; the first
   * failing insert ends the sequence with its error and the books as it left them.
   */
  function MatchAll(instrument: Instrument, buy: seq<Order>, sell: seq<Order>, orders: seq<Order>): StepResult
    decreases |orders|
  {
    if orders == [] then StepResult(buy, sell, Ok([]))
    else
      var s := Step(instrument, buy, sell, orders[0]);
      if s.outcome.Err? then s
      else
        var rest := MatchAll(instrument, s.buy, s.sell, orders[1..]);
        if rest.outcome.Err? then rest
        else StepResult(rest.buy, rest.sell, Ok(s.outcome.value + rest.outcome.value))
  }

  /** Any number of calls keeps the engine invariant, failing ones included. */
  lemma {:induction false} MatchAllPreservesInvariant(instrument: Instrument, buy: seq<Order>, sell: seq<Order>,
                                                      orders: seq<Order>)
    requires EngineInvariant(instrument, buy, sell)
    ensures var r := MatchAll(instrument, buy, sell, orders); EngineInvariant(instrument, r.buy, r.sell)
    decreases |orders|
  {
    if orders != [] {
      StepPreservesInvariant(instrument, buy, sell, orders[0]);
      var s := Step(instrument, buy, sell, orders[0]);
      MatchAllPreservesInvariant(instrument, s.buy, s.sell, orders[1..]);
    }
  }

  /**
   * Conservation over a sequence of orders for the instrument: when no insert
   * fails, what rests at the end plus twice what traded equals what rested at
   * the start plus everything submitted. No quantity is created or destroyed.
   */
  lemma {:induction false} MatchAllConserves(instrument: Instrument, buy: seq<Order>, sell: seq<Order>,
                                             orders: seq<Order>)
    requires forall k :: 0 <= k < |orders| ==> orders[k].instrument == instrument
    ensures var r := MatchAll(instrument, buy, sell, orders);
      r.outcome.Ok? ==>
        Total(r.buy) + Total(r.sell) + 2 * Traded(r.outcome.value) == Total(buy) + Total(sell) + Submitted(orders)
    decreases |orders|
  {
    if orders != [] {
      var s := Step(instrument, buy, sell, orders[0]);
      StepConserves(instrument, buy, sell, orders[0]);
      if s.outcome.Ok? {
        MatchAllConserves(instrument, s.buy, s.sell, orders[1..]);
        var rest := MatchAll(instrument, s.buy, s.sell, orders[1..]);
        if rest.outcome.Ok? {
          TradedAppend(s.outcome.value, rest.outcome.value);
        }
      }
    }
  }

  // ---------------------------------------------------------------------------
  // Worked examples
  // ---------------------------------------------------------------------------

  /** A BUY 10 @100 against a resting SELL 4 @100: one trade of 4, and 6 rest on the bid side. */
  lemma PartialFillExample()
    ensures var x := Instrument("X");
      var ask := Order("s", SELL, x, 4, 100.0, 1);
      var bid := Order("b", BUY, x, 10, 100.0, 2);
      Step(x, [], [ask], bid)
        == StepResult([bid.(quantity := 6)], [], Ok([Trade(bid.(quantity := 4), ask)]))
  {
    var x := Instrument("X");
    var ask := Order("s", SELL, x, 4, 100.0, 1);
    var bid := Order("b", BUY, x, 10, 100.0, 2);
    var f := Fill(bid, ask);
    assert f == OrderFill(bid.(quantity := 6), ask.(quantity := 0), Some(Trade(bid.(quantity := 4), ask)));
    assert FillWalk(bid, [ask]) == Walk(bid.(quantity := 6), [ask.(quantity := 0)], [Trade(bid.(quantity := 4), ask)]);
  }

  /**
   * A BUY 8 @100 against resting SELL 5 @99 and SELL 5 @100: trades of 5 at 99
   * and 3 at 100, the BUY is used up and does not rest, and 2 remain at 100.
   */
  lemma MultiLevelFillExample()
    ensures var x := Instrument("X");
      var ask1 := Order("s1", SELL, x, 5, 99.0, 1);
      var ask2 := Order("s2", SELL, x, 5, 100.0, 2);
      var bid := Order("b", BUY, x, 8, 100.0, 3);
      Step(x, [], [ask1, ask2], bid)
        == StepResult([], [ask2.(quantity := 2)],
                      Ok([Trade(bid.(quantity := 5), ask1), Trade(bid.(quantity := 3), ask2.(quantity := 3))]))
  {
    var x := Instrument("X");
    var ask1 := Order("s1", SELL, x, 5, 99.0, 1);
    var ask2 := Order("s2", SELL, x, 5, 100.0, 2);
    var bid := Order("b", BUY, x, 8, 100.0, 3);
    var t1 := Trade(bid.(quantity := 5), ask1);
    var t2 := Trade(bid.(quantity := 3), ask2.(quantity := 3));
    assert Fill(bid, ask1) == OrderFill(bid.(quantity := 3), ask1.(quantity := 0), Some(t1));
    assert Fill(bid.(quantity := 3), ask2) == OrderFill(bid.(quantity := 0), ask2.(quantity := 2), Some(t2));
    assert [ask1, ask2][1..] == [ask2];
    assert FillWalk(bid.(quantity := 3), [ask2]) == Walk(bid.(quantity := 0), [ask2.(quantity := 2)], [t2]);
    var walked := [ask1.(quantity := 0), ask2.(quantity := 2)];
    assert FillWalk(bid, [ask1, ask2]) == Walk(bid.(quantity := 0), walked, [t1, t2]);
    assert walked[1..] == [ask2.(quantity := 2)];
    assert RemoveFilled(walked) == [ask2.(quantity := 2)];
  }

  /** A BUY 5 @90 against a resting SELL 5 @100: no trade, and the BUY rests. */
  lemma NoMatchExample()
    ensures var x := Instrument("X");
      var ask := Order("s", SELL, x, 5, 100.0, 1);
      var bid := Order("b", BUY, x, 5, 90.0, 2);
      Step(x, [], [ask], bid) == StepResult([bid], [ask], Ok([]))
  {
    var x := Instrument("X");
    var ask := Order("s", SELL, x, 5, 100.0, 1);
    var bid := Order("b", BUY, x, 5, 90.0, 2);
    assert Fill(bid, ask) == OrderFill(bid, ask);
    assert RemoveFilled([ask]) == [ask];
  }
}
