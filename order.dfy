/**
 * Orders: the order value of the matching engine, its checked constructor and the
 * book ordering relation (`Order.compareTo`).
 *
 * Kotlin's `compareTo` functions return an arbitrary negative, zero or positive
 * number; every caller reads only its sign, so the comparisons here return -1, 0 or 1.
 */
module Orders {
  import opened Results

  /** The side of an order. `SideValue` is the enum's `side` field, `Ordinal` its declaration order. */
  datatype Side = BUY | SELL

  function SideValue(s: Side): int
  {
    if s == BUY then -1 else 1
  }

  function Ordinal(s: Side): nat
  {
    if s == BUY then 0 else 1
  }

  datatype Instrument = Instrument(symbol: string)

  /** The Kotlin `Float` price, restricted to what the `init` check admits. */
  type Price = p: real | p > 0.0 witness 1.0

  /**
   * An order. The types of `quantity` and `price` carry the two `init` checks,
   * so every `Order` value is one the Kotlin constructor would accept.
   * `timestamp` is the arrival time in milliseconds.
   */
  datatype Order = Order(orderID: string, side: Side, instrument: Instrument,
                         quantity: nat, price: Price, timestamp: int)

  /** The failing `require` of the Order constructor. */
  datatype OrderError = NegativeQuantity | NonPositivePrice

  /** The checked Order constructor: the quantity is checked before the price. */
  function NewOrder(orderID: string, side: Side, instrument: Instrument,
                    quantity: int, price: real, timestamp: int): (r: Result<Order, OrderError>)
    ensures r.Ok? <==> quantity >= 0 && price > 0.0
    ensures quantity < 0 ==> r == Err(NegativeQuantity)
    ensures quantity >= 0 && price <= 0.0 ==> r == Err(NonPositivePrice)
    ensures r.Ok? ==> r.value.orderID == orderID && r.value.side == side && r.value.instrument == instrument
                      && r.value.quantity == quantity && r.value.price == price && r.value.timestamp == timestamp
  {
    if quantity < 0 then Err(NegativeQuantity)
    else if price <= 0.0 then Err(NonPositivePrice)
    else Ok(Order(orderID, side, instrument, quantity, price, timestamp))
  }

  // ---------------------------------------------------------------------------
  // The ordering relation
  // ---------------------------------------------------------------------------

  function CompareInts(a: int, b: int): int
  {
    if a < b then -1 else if a > b then 1 else 0
  }

  function CompareReals(a: real, b: real): int
  {
    if a < b then -1 else if a > b then 1 else 0
  }

  /** `String.compareTo`: character by character, a proper prefix first. */
  function CompareSymbols(a: string, b: string): (r: int)
    ensures -1 <= r <= 1
  {
    if a == [] && b == [] then 0
    else if a == [] then -1
    else if b == [] then 1
    else if a[0] < b[0] then -1
    else if a[0] > b[0] then 1
    else CompareSymbols(a[1..], b[1..])
  }

  function CompareInstruments(a: Instrument, b: Instrument): int
  {
    CompareSymbols(a.symbol, b.symbol)
  }

  /** The private `signedPrice`: minus the price for BUY, the price for SELL. */
  function SignedPrice(o: Order): real
  {
    SideValue(o.side) as real * o.price
  }

  /** `Order.compareTo`: lexicographic on instrument, side, signed price, timestamp. */
  function Compare(a: Order, b: Order): (r: int)
  {
    var byInstrument := CompareInstruments(a.instrument, b.instrument);
    if byInstrument != 0 then byInstrument
    else
      var bySide := CompareInts(Ordinal(a.side), Ordinal(b.side));
      if bySide != 0 then bySide
      else
        var byPrice := CompareReals(SignedPrice(a), SignedPrice(b));
        if byPrice != 0 then byPrice
        else CompareInts(a.timestamp, b.timestamp)
  }

  /** The fields `Compare` reads agree; `orderID` and `quantity` are not among them. */
  predicate SameKey(a: Order, b: Order)
  {
    a.instrument == b.instrument && a.side == b.side && a.price == b.price && a.timestamp == b.timestamp
  }

  /** Price-time priority within one book: `a` is served before `b`. */
  predicate Better(a: Order, b: Order)
  {
    if a.side == BUY then a.price > b.price || (a.price == b.price && a.timestamp < b.timestamp)
    else a.price < b.price || (a.price == b.price && a.timestamp < b.timestamp)
  }

  lemma {:induction false} CompareSymbolsZero(a: string, b: string)
    ensures CompareSymbols(a, b) == 0 <==> a == b
  {
    if a != [] && b != [] && a[0] == b[0] {
      CompareSymbolsZero(a[1..], b[1..]);
      assert a == [a[0]] + a[1..] && b == [b[0]] + b[1..];
    }
  }

  lemma {:induction false} CompareSymbolsAntisymmetric(a: string, b: string)
    ensures CompareSymbols(a, b) == -CompareSymbols(b, a)
  {
    if a != [] && b != [] && a[0] == b[0] {
      CompareSymbolsAntisymmetric(a[1..], b[1..]);
    }
  }

  lemma {:induction false} CompareSymbolsTransitive(a: string, b: string, c: string)
    requires CompareSymbols(a, b) < 0 && CompareSymbols(b, c) < 0
    ensures CompareSymbols(a, c) < 0
  {
    if a != [] && b != [] && c != [] && a[0] == b[0] && b[0] == c[0] {
      CompareSymbolsTransitive(a[1..], b[1..], c[1..]);
    }
  }

  /** Two orders compare equal exactly when instrument, side, price and timestamp agree. */
  lemma CompareZeroIffSameKey(a: Order, b: Order)
    ensures Compare(a, b) == 0 <==> SameKey(a, b)
  {
    CompareSymbolsZero(a.instrument.symbol, b.instrument.symbol);
  }

  lemma CompareAntisymmetric(a: Order, b: Order)
    ensures Compare(a, b) == -Compare(b, a)
  {
    CompareSymbolsAntisymmetric(a.instrument.symbol, b.instrument.symbol);
  }

  lemma CompareTransitive(a: Order, b: Order, c: Order)
    requires Compare(a, b) < 0 && Compare(b, c) < 0
    ensures Compare(a, c) < 0
  {
    var sa, sb, sc := a.instrument.symbol, b.instrument.symbol, c.instrument.symbol;
    CompareSymbolsZero(sa, sb);
    CompareSymbolsZero(sb, sc);
    CompareSymbolsZero(sa, sc);
    if CompareSymbols(sa, sb) < 0 && CompareSymbols(sb, sc) < 0 {
      CompareSymbolsTransitive(sa, sb, sc);
    }
  }

  /** Mixed transitivity, the form a search over a sorted book uses. */
  lemma CompareTransitiveLeLt(a: Order, b: Order, c: Order)
    requires Compare(a, b) <= 0 && Compare(b, c) < 0
    ensures Compare(a, c) < 0
  {
    if Compare(a, b) == 0 {
      CompareZeroIffSameKey(a, b);
      CompareRespectsKey(a, b, c);
    } else {
      CompareTransitive(a, b, c);
    }
  }

  lemma CompareTransitiveLtLe(a: Order, b: Order, c: Order)
    requires Compare(a, b) < 0 && Compare(b, c) <= 0
    ensures Compare(a, c) < 0
  {
    if Compare(b, c) == 0 {
      CompareZeroIffSameKey(b, c);
      CompareAntisymmetric(a, b);
      CompareAntisymmetric(a, c);
      CompareRespectsKey(b, c, a);
    } else {
      CompareTransitive(a, b, c);
    }
  }

  /** `Compare` reads only the key: it ignores `orderID` and `quantity`. */
  lemma CompareRespectsKey(a: Order, a': Order, b: Order)
    requires SameKey(a, a')
    ensures Compare(a, b) == Compare(a', b) && Compare(b, a) == Compare(b, a')
  {
  }

  /** Orders for one instrument: every BUY sorts before every SELL. */
  lemma BuysBeforeSells(a: Order, b: Order)
    requires a.instrument == b.instrument && a.side == BUY && b.side == SELL
    ensures Compare(a, b) < 0
  {
    CompareSymbolsZero(a.instrument.symbol, b.instrument.symbol);
  }

  /**
   * Within one instrument and side, sorting by `Compare` puts the better order first:
   * the higher bid, the lower offer, and at one price the earlier arrival.
   */
  lemma CompareIsPriceTimePriority(a: Order, b: Order)
    requires a.instrument == b.instrument && a.side == b.side
    ensures Compare(a, b) < 0 <==> Better(a, b)
  {
    CompareSymbolsZero(a.instrument.symbol, b.instrument.symbol);
  }
}
