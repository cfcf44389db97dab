/**
 * Trades: the `Trade` record with its three construction checks, and the
 * `OrderFill` carrier returned by one fill attempt.
 */
module Trades {
  import opened Results
  import opened Orders

  /** One matched slice: the aggressor's leg and the resting (contra) order's leg. */
  datatype Trade = Trade(order: Order, contraOrder: Order)

  /** What the `init` block of `Trade` demands. */
  predicate ValidTrade(t: Trade)
  {
    t.order.quantity > 0 && t.contraOrder.quantity > 0 && t.order.quantity == t.contraOrder.quantity
  }

  /** The failing `require` of the Trade constructor, in the order they are checked. */
  datatype TradeError = InvalidOrder | InvalidContraOrder | QuantityMismatch

  /** The checked Trade constructor. */
  function NewTrade(order: Order, contraOrder: Order): (r: Result<Trade, TradeError>)
    ensures r.Ok? <==> ValidTrade(Trade(order, contraOrder))
    ensures r.Ok? ==> r.value == Trade(order, contraOrder)
    ensures order.quantity == 0 ==> r == Err(InvalidOrder)
    ensures order.quantity > 0 && contraOrder.quantity == 0 ==> r == Err(InvalidContraOrder)
    ensures order.quantity > 0 && contraOrder.quantity > 0 && order.quantity != contraOrder.quantity
            ==> r == Err(QuantityMismatch)
  {
    if order.quantity <= 0 then Err(InvalidOrder)
    else if contraOrder.quantity <= 0 then Err(InvalidContraOrder)
    else if order.quantity != contraOrder.quantity then Err(QuantityMismatch)
    else Ok(Trade(order, contraOrder))
  }

  /** The result of one fill attempt; `trade` is absent unless given. */
  datatype OrderFill = OrderFill(newOrder: Order, newContraOrder: Order, trade: Option<Trade> := None)
}
