/**
 * Fills: `Order.fill`, the pairwise rule that decides whether an aggressor
 * crosses one contra order and, if so, how much of each is consumed.
 */
module Fills {
  import opened Results
  import opened Orders
  import opened Trades

  function Min(a: nat, b: nat): nat
  {
    if a <= b then a else b
  }

  /**
   * The sides differ and the prices are compatible: a BUY pays at least the
   * resting offer, a SELL accepts at most the resting bid. Equal prices cross.
   */
  predicate Crosses(self: Order, contra: Order)
  {
    self.side != contra.side
    && (self.side == BUY ==> contra.price <= self.price)
    && (self.side == SELL ==> contra.price >= self.price)
  }

  /** `o` with only its quantity replaced, as Kotlin's `copy(quantity = q)`. */
  predicate OnlyQuantityDiffers(o: Order, orig: Order)
  {
    && o.orderID == orig.orderID && o.side == orig.side && o.instrument == orig.instrument
    && o.price == orig.price && o.timestamp == orig.timestamp
  }

  /**
   * `Order.fill`. A trade happens exactly when both quantities are positive and
   * the orders cross; then the smaller quantity is taken from both, the trade
   * legs carry that quantity and their own order's price, and nothing but the
   * quantity of either order changes. Otherwise both come back unchanged.
   */
  function Fill(self: Order, contra: Order): (f: OrderFill)
    ensures f.trade.Some? <==> self.quantity > 0 && contra.quantity > 0 && Crosses(self, contra)
    ensures f.trade.Some? <==> f.newOrder.quantity < self.quantity
    ensures f.trade.None? ==> f == OrderFill(self, contra)
    ensures OnlyQuantityDiffers(f.newOrder, self) && OnlyQuantityDiffers(f.newContraOrder, contra)
    ensures f.trade.Some? ==>
              var t := f.trade.value;
              && ValidTrade(t)
              && OnlyQuantityDiffers(t.order, self) && OnlyQuantityDiffers(t.contraOrder, contra)
              && f.newOrder.quantity + t.order.quantity == self.quantity
              && f.newContraOrder.quantity + t.contraOrder.quantity == contra.quantity
              && (f.newOrder.quantity == 0 || f.newContraOrder.quantity == 0)
  {
    if self.side == contra.side || self.quantity == 0 || contra.quantity == 0 then
      OrderFill(self, contra)
    else if self.side == BUY && contra.price > self.price then
      OrderFill(self, contra)
    else if self.side == SELL && contra.price < self.price then
      OrderFill(self, contra)
    else
      var filled := Min(self.quantity, contra.quantity);
      var filledOrder := self.(quantity := filled);
      var newOrder := self.(quantity := self.quantity - filled);
      var filledContraOrder := contra.(quantity := filled);
      var newContraOrder := contra.(quantity := contra.quantity - filled);
      var trade := NewTrade(filledOrder, filledContraOrder);
      OrderFill(newOrder, newContraOrder, Some(trade.value))
  }

  /** The matched quantity is the smaller of the two open quantities. */
  lemma FillTakesMinimum(self: Order, contra: Order)
    requires Fill(self, contra).trade.Some?
    ensures Fill(self, contra).trade.value.order.quantity == Min(self.quantity, contra.quantity)
  {
  }

  /** The trade's contra leg is priced at the resting order's price (maker pricing). */
  lemma FillPricesAtContra(self: Order, contra: Order)
    requires Fill(self, contra).trade.Some?
    ensures Fill(self, contra).trade.value.contraOrder.price == contra.price
    ensures Fill(self, contra).trade.value.order.price == self.price
  {
  }
}
