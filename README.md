# Limit-order matching engine (Kotlin `andob` package) in Dafny

This project models the core of a small price-time-priority matching engine:

- the `Order` value, its checked constructor and its ordering relation;
- `Order.fill`, which matches an aggressor against one resting order;
- the `Trade` and `OrderFill` records;
- `InstrumentMatchingEngine`, which keeps one instrument's BUY and SELL books;
- `MatchingEngineSystem`, which keeps one engine per instrument and routes orders;
- `buildOrder`, which parses one input line into an order.

The modules follow the Kotlin files:

| Dafny file | module | Kotlin source |
|---|---|---|
| `results.dfy` | `Results` | `Option` and `Result`, which stand in for nulls and exceptions |
| `order.dfy` | `Orders` | `Order.kt` |
| `trade.dfy` | `Trades` | `Trade.kt`, `FIll.kt` |
| `fill.dfy` | `Fills` | `Order.fill` in `Order.kt` |
| `books.dfy` | `Books` | the list operations of `InstrumentMatchingEngine.kt`: `removeAll`, `binarySearch` and positional `add` |
| `matching.dfy` | `Matching` | `fillOrder`, `addOrder` and `match` of `InstrumentMatchingEngine.kt` as functions, and their properties |
| `engine.dfy` | `Engine` | the class `InstrumentMatchingEngine` |
| `system.dfy` | `EngineSystem` | the class `MatchingEngineSystem` |
| `parsing.dfy` | `Parsing` | `Utils.kt` |

## Pure parts

**Orders.** An order's quantity is a `nat` and its price a positive `real`, so every `Order` value already satisfies the constructor's `require` checks. `NewOrder` is the checked constructor: it tests the quantity first and the price second.

`Compare` is `compareTo`. It compares lexicographically by:
1. instrument symbol;
2. side, by enum order;
3. signed price (−price for BUY, +price for SELL);
4. timestamp.

Kotlin's `compareTo` may return any magnitude, but every caller reads only its sign, so `Compare` returns −1, 0 or 1.

**Fills.** `Fill` follows the guarded returns of `Order.fill` one branch at a time. Its contract states the full input/output relation of a fill.

## Imperative parts

The engine's books are `seq<Order>` fields of the class `InstrumentMatchingEngine`. Its methods reassign those fields, as the Kotlin methods change their `MutableList`s in place:
- `FillOrder` walks the contra book in a `while` loop. That loop is in `WalkContraBook`.
- `AddOrder` inserts at the position that `BinarySearch` reports. `BinarySearch` is a loop proved against `CountLess` and `HasKey`.

Each method is proved against a function of module `Matching`:
- `FillWalk` describes the walk.
- `MatchOnSide` and `Step` describe one whole `match` call.

The properties are proved about those functions, including:
- conservation of quantity;
- the touched entries form a prefix of the book;
- trades come out in book order;
- no crossing remains after a match;
- preservation of the book invariant `EngineInvariant`. It says each book holds only open orders of its instrument and side, strictly sorted best-first, and no bid crosses an offer.

`MatchingEngineSystem` has two fields:
- the engine map;
- the sequence of its keys in insertion order. Kotlin's `mutableMapOf` is a `LinkedHashMap`, and the getters visit its values in that order.

The `buyOrders` and `sellOrders` getters are loops that build one list. They are proved equal to `Flatten` of the books of that side.

## Parsing

`BuildOrder` follows `buildOrder` step by step:
1. reject a blank line;
2. trim the end;
3. split on runs of `\s`;
4. check that there are five tokens;
5. convert the side, then the quantity, then the price, in the order Kotlin evaluates the arguments;
6. run the constructor checks.

Two things are parameters: the clock reading (`now`) and `String.toFloat` (`parsePrice`, which returns `None` where it would throw). Every failure is a `BuildOrderException` value. It has a message and an optional cause, as in `Utils.kt`.

Two character classes are involved. `trimEnd` trims Kotlin's `Char.isWhitespace` characters, while the regular expression `\s` matches only space, TAB, LF, VT, FF and CR. A line that starts with a `\s` character therefore has an empty first token. It is still accepted when the other four tokens form a valid order, and the order ID is then empty (`BuildOrderLeadingSpace`).

## Model

| member | source | states |
|---|---|---|
| Orders.NewOrder | kotlin/andob/Order.kt:22-29 | construction succeeds exactly when quantity >= 0 and price > 0; a negative quantity is reported before a bad price; a built order carries the given fields |
| Orders.SignedPrice | kotlin/andob/Order.kt:31-37 | the sort key within a side: the price negated for BUY and kept for SELL; `CompareIsPriceTimePriority` states what it orders |
| Orders.Compare | kotlin/andob/Order.kt:39-43 | `compareTo` by instrument, side, signed price and timestamp, as a sign; the lemmas below state that it is a strict total order on keys (`CompareZeroIffSameKey`, `CompareAntisymmetric`, the three transitivity lemmas), that orderID and quantity do not take part (`CompareRespectsKey`) and that it is price-time priority (`CompareIsPriceTimePriority`) |
| Orders.CompareZeroIffSameKey | kotlin/andob/Order.kt:39-43 | two orders compare equal exactly when instrument, side, price and timestamp agree; order ID and quantity take no part |
| Orders.CompareAntisymmetric | kotlin/andob/Order.kt:39-43 | swapping the arguments negates the comparison |
| Orders.CompareTransitive | kotlin/andob/Order.kt:39-43 | the strict ordering is transitive, so a sorted book is well defined |
| Orders.CompareTransitiveLeLt | kotlin/andob/Order.kt:39-43 | "not after" followed by "before" gives "before" |
| Orders.CompareTransitiveLtLe | kotlin/andob/Order.kt:39-43 | "before" followed by "not after" gives "before" |
| Orders.CompareSymbols | kotlin/andob/Order.kt:12-14 | `Instrument.compareTo` as lexicographic comparison of the symbols, with result -1, 0 or 1; `CompareSymbolsZero`, `CompareSymbolsAntisymmetric` and `CompareSymbolsTransitive` make it a total order |
| Orders.CompareSymbolsZero | kotlin/andob/Order.kt:12-14 | symbol comparison is zero exactly for equal symbols |
| Orders.CompareSymbolsAntisymmetric | kotlin/andob/Order.kt:12-14 | symbol comparison is antisymmetric |
| Orders.CompareSymbolsTransitive | kotlin/andob/Order.kt:12-14 | symbol comparison is transitive |
| Orders.CompareRespectsKey | kotlin/andob/Order.kt:39-43 | replacing an order by one with the same key (e.g. another quantity) does not change any comparison |
| Orders.BuysBeforeSells | kotlin/andob/Order.kt:7-10 | for one instrument every BUY sorts before every SELL, by enum order |
| Orders.CompareIsPriceTimePriority | kotlin/andob/Order.kt:31-43 | within one instrument and side, "compares smaller" means a higher bid, a lower offer, or the same price and an earlier timestamp |
| Trades.NewTrade | kotlin/andob/Trade.kt:3-10 | a trade is built exactly when both legs have positive and equal quantities; each failing `require` is reported in order |
| Fills.Crosses | kotlin/andob/Order.kt:52-65 | the price test of `fill`: opposite sides, and a BUY pays at least the contra price or a SELL accepts at most it; `Fills.Fill` states that a trade happens exactly when both quantities are positive and `Crosses` holds |
| Fills.Fill | kotlin/andob/Order.kt:50-77 | a trade happens exactly when both quantities are positive and the orders cross (equal prices cross); it happens exactly when the aggressor's quantity drops; without one both orders come back unchanged; with one the trade is valid, both legs carry the filled quantity, new quantity plus leg equals the old quantity on both sides, one side is exhausted, and only quantities change |
| Fills.FillTakesMinimum | kotlin/andob/Order.kt:68-76 | the filled quantity is the smaller of the two open quantities |
| Fills.FillPricesAtContra | kotlin/andob/Order.kt:70-76 | the contra leg keeps the resting order's price and the aggressor leg keeps the aggressor's price |
| Books.RemoveFilled | kotlin/andob/InstrumentMatchingEngine.kt:87 | an entry survives compaction exactly when it was in the book with a positive quantity |
| Books.RemoveFilledAppend | kotlin/andob/InstrumentMatchingEngine.kt:87 | compaction works piecewise, so survivors keep their relative order |
| Books.RemoveFilledTotal | kotlin/andob/InstrumentMatchingEngine.kt:87 | compaction does not change the open quantity |
| Books.RemoveFilledKeepsOpen | kotlin/andob/InstrumentMatchingEngine.kt:87 | a book without zero entries is unchanged by compaction |
| Books.RemoveFilledDropsFilled | kotlin/andob/InstrumentMatchingEngine.kt:87 | a book of zero entries compacts to nothing |
| Books.RemoveFilledSorted | kotlin/andob/InstrumentMatchingEngine.kt:87 | compaction keeps a strictly sorted book strictly sorted |
| Books.BinarySearch | kotlin/andob/InstrumentMatchingEngine.kt:106 | on a sorted book, a non-negative result indexes an entry comparing equal; a negative result means no entry compares equal, and it is minus the number of smaller entries, minus one |
| Books.SplitIsCountLess | kotlin/andob/InstrumentMatchingEngine.kt:106 | any split point between smaller and not-smaller entries is the number of smaller entries |
| Books.CountLessSplits | kotlin/andob/InstrumentMatchingEngine.kt:106 | in a sorted book the smaller entries form a prefix |
| Books.KeyIndexUnique | kotlin/andob/InstrumentMatchingEngine.kt:106 | in a strictly sorted book at most one entry compares equal |
| Books.InsertAt | kotlin/andob/InstrumentMatchingEngine.kt:107 | `add(index, order)`: the result is one longer, holds the order at the index, and keeps the entries before and after it in order |
| Books.AddToBook | kotlin/andob/InstrumentMatchingEngine.kt:97-108 | `addOrder` on one book; `AddToBookSorted` (success and sortedness), `AddToBookRejectsEqualKey` (the failure) and `Engine.InsertIntoBook` (the binary-search code) state its behaviour |
| Books.AddToBookSorted | kotlin/andob/InstrumentMatchingEngine.kt:97-108 | with no equal-key entry the insert succeeds, keeps the book strictly sorted, and adds exactly the order |
| Books.AddToBookRejectsEqualKey | kotlin/andob/InstrumentMatchingEngine.kt:104-107 | a non-empty book holding an entry of the same key makes the insert index negative, so the insert fails |
| Books.CountNotAfterSplits | kotlin/andob/InstrumentMatchingEngine.kt:104-107 | in a sorted book the entries not after an order form a prefix and the rest compare larger |
| Books.AddAfterEqualSorted | kotlin/andob/InstrumentMatchingEngine.kt:104-107 | the corrected insert never fails, keeps a sorted book sorted, queues the order behind entries of the same key, and agrees with `addOrder` wherever that succeeds |
| Books.TotalInsertAt | kotlin/andob/InstrumentMatchingEngine.kt:107 | a positional insert adds the order's quantity to the book total |
| Books.FlattenLength | kotlin/andob/MatchingEngineSystem.kt:29-32 | the concatenation is as long as all books together |
| Books.FlattenAppend | kotlin/andob/MatchingEngineSystem.kt:29-32 | concatenating two runs of books is concatenating their concatenations |
| Books.FlattenBlock | kotlin/andob/MatchingEngineSystem.kt:29-32 | each book is one contiguous block of the concatenation |
| Books.FlattenMember | kotlin/andob/MatchingEngineSystem.kt:29-32 | an order is in the concatenation exactly when it is in one of the books |
| Matching.FillWalk | kotlin/andob/InstrumentMatchingEngine.kt:58-84 | the walk keeps the book's length, makes at most one trade per entry, never raises the aggressor's quantity, and changes no field of the aggressor but its quantity |
| Matching.WalkAdvance | kotlin/andob/InstrumentMatchingEngine.kt:63-83 | one loop step moves one rewritten entry and at most one trade into the finished part of the walk |
| Matching.WalkHalts | kotlin/andob/InstrumentMatchingEngine.kt:60-70 | the walk stops on an exhausted aggressor, an exhausted book, or a fill that changes nothing |
| Matching.WalkTouchesPrefix | kotlin/andob/InstrumentMatchingEngine.kt:58-84 | only quantities change, and only in a prefix as long as the trade list; later entries are untouched |
| Matching.WalkTradesInBookOrder | kotlin/andob/InstrumentMatchingEngine.kt:65-74 | trade k is valid and was made against book entry k, so trades come out in book order |
| Matching.WalkTradesAreFills | kotlin/andob/InstrumentMatchingEngine.kt:65-74 | every trade of the walk passes the `Trade` checks and its aggressor leg is the aggressor with only its quantity changed |
| Matching.WalkTradesFollowBook | kotlin/andob/InstrumentMatchingEngine.kt:65-83 | the contra leg of trade k is book entry k with only its quantity changed, and that entry lost exactly the traded quantity |
| Matching.WalkConserves | kotlin/andob/InstrumentMatchingEngine.kt:65-83 | traded quantity equals the aggressor's drop and the contra book's drop |
| Matching.WalkStopsAtFirstNonCrossing | kotlin/andob/InstrumentMatchingEngine.kt:60-70 | with a remainder left, every touched entry is exhausted and the next entry, if open, does not cross |
| Matching.UncrossedBidBelowAsk | kotlin/andob/InstrumentMatchingEngine.kt:5-11 | under the invariant every bid is below every offer, in particular the best ones |
| Matching.NoCrossSymmetric | kotlin/andob/Order.kt:52-65 | "no bid crosses an offer" read from either side is the same fact |
| Matching.SortedUnderQuantityChange | kotlin/andob/InstrumentMatchingEngine.kt:83 | rewriting quantities in place keeps strict sortedness, since quantity is not a sort key |
| Matching.WorseDoesNotCross | kotlin/andob/InstrumentMatchingEngine.kt:58-70 | an order that does not cross one entry does not cross any worse entry |
| Matching.BehindStopDoesNotCross | kotlin/andob/InstrumentMatchingEngine.kt:58-70 | in a sorted contra book, an order that does not cross the entry where the walk stopped crosses none of the entries behind it |
| Matching.CompactFilledPrefix | kotlin/andob/InstrumentMatchingEngine.kt:83-87 | a walked book with an exhausted prefix and an untouched rest compacts to the rest |
| Matching.CompactedAfterRemainder | kotlin/andob/InstrumentMatchingEngine.kt:83-87 | with a remainder left, the compacted contra book is the original book minus the traded prefix |
| Matching.RemainderDoesNotCross | kotlin/andob/InstrumentMatchingEngine.kt:58-87 | a remainder that rests crosses no entry left on the contra book |
| Matching.CompactedKeepsInvariant | kotlin/andob/InstrumentMatchingEngine.kt:83-87 | compacting a quantity-rewritten contra book keeps it a resting book and uncrossed with the other side |
| Matching.ContraAfterWalk | kotlin/andob/InstrumentMatchingEngine.kt:58-87 | after walk and compaction the contra book is still a resting book that crosses nothing on the other side |
| Matching.AddedEntries | kotlin/andob/InstrumentMatchingEngine.kt:97-108 | an insert adds only the given order |
| Matching.MatchOnSide | kotlin/andob/InstrumentMatchingEngine.kt:30-36 | `fillOrder` then `addOrder` of the remainder on the order's own and contra book; `MatchOnSideConserves`, `MatchOnSidePreserves`, `MatchOnSideRests` and `MatchOnSideFailureTouchesNothing` state its effect |
| Matching.Step | kotlin/andob/InstrumentMatchingEngine.kt:23-37 | `match` on the two books of an engine; `StepBySide`, `StepPreservesInvariant`, `StepConserves`, `StepLeavesBooks` and `StepFailureTouchesNothing` state its effect, and `Engine.InstrumentMatchingEngine.Match` is proved equal to it |
| Matching.MatchOnSideConserves | kotlin/andob/InstrumentMatchingEngine.kt:23-37 | the contra book loses exactly the traded quantity; on success the own book gains exactly the untraded rest |
| Matching.StepBySide | kotlin/andob/InstrumentMatchingEngine.kt:28-34 | a BUY fills against the SELL book and rests on the BUY book, and a SELL the other way round |
| Matching.MatchOnSidePreserves | kotlin/andob/InstrumentMatchingEngine.kt:23-37 | one call keeps both books resting books and uncrossed |
| Matching.StepPreservesInvariant | kotlin/andob/InstrumentMatchingEngine.kt:23-37 | `match` keeps the engine invariant whether the order fills, rests or its insert fails |
| Matching.StepConserves | kotlin/andob/InstrumentMatchingEngine.kt:23-37 | after a successful call, resting quantity plus twice the traded quantity equals resting quantity before plus the submitted quantity |
| Matching.StepFromParts | kotlin/andob/InstrumentMatchingEngine.kt:28-36 | books and result assembled from the walk and the insert are those of `match`, and they keep the invariant |
| Matching.MatchOnSideRests | kotlin/andob/InstrumentMatchingEngine.kt:33-34 | a fully filled order does not rest; a remainder rests unless the insert fails, which happens only when an equal-key entry rests, and then the own book is unchanged |
| Matching.MatchOnSideFailureTouchesNothing | kotlin/andob/InstrumentMatchingEngine.kt:30-36 | on books that keep the invariant, a failing insert comes after a walk that traded nothing, and both books are as they were |
| Matching.StepFailureTouchesNothing | kotlin/andob/InstrumentMatchingEngine.kt:23-37 | a `match` call that fails leaves the engine's two books unchanged and made no trade: the order is dropped |
| Matching.StepLeavesBooks | kotlin/andob/InstrumentMatchingEngine.kt:25-26 | an order for another instrument, or with quantity 0, changes no book and yields no trades |
| Matching.TradedAppend | kotlin/andob/InstrumentMatchingEngine.kt:72-73 | traded quantities of concatenated trade lists add up |
| Matching.MatchAll | kotlin/Main.kt:44-64 | successive `match` calls on the orders of one instrument, stopping at the first failing insert; `MatchAllPreservesInvariant` and `MatchAllConserves` state its effect |
| Matching.MatchAllPreservesInvariant | kotlin/andob/InstrumentMatchingEngine.kt:23-37 | any sequence of calls keeps the engine invariant |
| Matching.MatchAllConserves | kotlin/andob/InstrumentMatchingEngine.kt:23-37 | over a sequence of successful calls, resting quantity at the end plus twice the traded quantity equals resting quantity at the start plus all submitted quantity |
| Matching.EqualKeyOrderLost | kotlin/andob/InstrumentMatchingEngine.kt:104-107 | a BUY with the same price and timestamp as a resting BUY makes the insert fail with index -1, and the order is neither traded nor resting; the corrected insert queues it behind |
| Matching.PartialFillExample | kotlin/andob/InstrumentMatchingEngine.kt:23-37 | BUY 10 @100 against SELL 4 @100: one trade of 4, and 6 rest on the bid side |
| Matching.MultiLevelFillExample | kotlin/andob/InstrumentMatchingEngine.kt:23-37 | BUY 8 @100 against SELL 5 @99 and SELL 5 @100: trades of 5 and 3, the BUY does not rest, 2 remain at 100 |
| Matching.NoMatchExample | kotlin/andob/InstrumentMatchingEngine.kt:23-37 | BUY 5 @90 against SELL 5 @100: no trade and the BUY rests |
| Engine.InstrumentMatchingEngine.constructor | kotlin/andob/InstrumentMatchingEngine.kt:17-21 | a new engine has two empty books and satisfies the invariant |
| Engine.InstrumentMatchingEngine.BookHolds | kotlin/andob/InstrumentMatchingEngine.kt:17-21 | under the invariant every order on a book is an open order of the engine's instrument and of that side |
| Engine.InstrumentMatchingEngine.Match | kotlin/andob/InstrumentMatchingEngine.kt:23-37 | the new books and the result are those of `Step` on the old books, and the invariant is kept |
| Engine.InstrumentMatchingEngine.FillOrder | kotlin/andob/InstrumentMatchingEngine.kt:44-91 | the remainder and trades are those of the walk over the contra book, the contra book becomes the compacted walked book, and the own book is unchanged |
| Engine.InstrumentMatchingEngine.AddOrder | kotlin/andob/InstrumentMatchingEngine.kt:97-108 | the own book becomes the result of the insert, or stays as it was with the error reported; the other book is unchanged |
| Engine.InsertIntoBook | kotlin/andob/InstrumentMatchingEngine.kt:97-108 | the list work of `addOrder` (append to an empty book, else binary search and positional insert) computes exactly `AddToBook`, including the failure on an equal key |
| Engine.WalkContraBook | kotlin/andob/InstrumentMatchingEngine.kt:54-84 | the loop computes exactly the walk: remainder, rewritten book and trades |
| EngineSystem.MatchingEngineSystem.constructor | kotlin/andob/MatchingEngineSystem.kt:9-12 | a new system has no engines |
| EngineSystem.MatchingEngineSystem.SideBooks | kotlin/andob/MatchingEngineSystem.kt:30 | the list of one side's books follows the instruments' first-appearance order |
| EngineSystem.MatchingEngineSystem.Match | kotlin/andob/MatchingEngineSystem.kt:17-23 | the first order of an instrument creates exactly one fresh engine for it, appended to the key order; later orders reuse it; the routed engine has the order's instrument; its books and the result are `Step`'s; every other engine is unchanged; the map stays one engine per instrument |
| EngineSystem.MatchingEngineSystem.Orders | kotlin/andob/MatchingEngineSystem.kt:25-42 | the getter loop returns the concatenation of one side's books in key order, changing nothing |
| EngineSystem.MatchingEngineSystem.SideBooksExtend | kotlin/andob/MatchingEngineSystem.kt:29-32 | one more loop round appends the next instrument's book to the end of the result |
| EngineSystem.MatchingEngineSystem.BuyOrders | kotlin/andob/MatchingEngineSystem.kt:25-33 | `buyOrders` is the concatenation of every engine's BUY book |
| EngineSystem.MatchingEngineSystem.SellOrders | kotlin/andob/MatchingEngineSystem.kt:35-42 | `sellOrders` is the concatenation of every engine's SELL book |
| EngineSystem.MatchingEngineSystem.SideOrdersAreResting | kotlin/andob/MatchingEngineSystem.kt:25-42 | the getters report exactly the orders resting on that side of their instrument's engine, all open and of that side, and as many as all books hold |
| EngineSystem.MatchingEngineSystem.ReportedIsResting | kotlin/andob/MatchingEngineSystem.kt:25-42 | an order in a getter's result rests on that side in its own instrument's engine, and it is open and of that side |
| EngineSystem.MatchingEngineSystem.RestingIsReported | kotlin/andob/MatchingEngineSystem.kt:25-42 | an order resting on that side in its instrument's engine is in the getter's result |
| EngineSystem.MatchingEngineSystem.SideOrdersAreBlocks | kotlin/andob/MatchingEngineSystem.kt:29-32 | a getter's result is the books of the instruments that appeared before the k-th one, then the k-th instrument's book in its own order, then the books of the later ones |
| EngineSystem.MatchingEngineSystem.SideBooksAround | kotlin/andob/MatchingEngineSystem.kt:29-32 | the books gathered for the instruments before and after the k-th one are exactly the books before and after the k-th in the full list |
| Parsing.IsWhitespace | kotlin/andob/Utils.kt:14 | the characters `isNullOrBlank` and `trimEnd` treat as white space, Kotlin's `Char.isWhitespace`; `RegexSpaceIsWhitespace` relates it to the split class |
| Parsing.IsRegexSpace | kotlin/andob/Utils.kt:17 | the `\s` class of the split pattern: space, TAB, LF, VT, FF and CR |
| Parsing.RegexSpaceIsWhitespace | kotlin/andob/Utils.kt:17 | every character the split uses is also trimmed |
| Parsing.TrimEnd | kotlin/andob/Utils.kt:17 | the result is the longest prefix not ending in white space, and only white space is dropped |
| Parsing.BlankIffTrimmedEmpty | kotlin/andob/Utils.kt:14-17 | a line is blank exactly when trimming leaves nothing |
| Parsing.TrimEndKeeps | kotlin/andob/Utils.kt:17 | trimming keeps a line ending in a non-white-space character and is idempotent |
| Parsing.FirstSpace | kotlin/andob/Utils.kt:17 | the first match of `\s` starts at the first splitting character |
| Parsing.SkipSpaces | kotlin/andob/Utils.kt:17 | a greedy `\s+` match consumes the whole run of splitting characters |
| Parsing.FirstSpaceOfToken | kotlin/andob/Utils.kt:17 | after a token free of splitting characters, the first splitting character is the one right after the token |
| Parsing.SkipSeparator | kotlin/andob/Utils.kt:17 | a greedy `\s+` match over a run of splitting characters ends exactly where the next token begins |
| Parsing.Split | kotlin/andob/Utils.kt:17 | the split yields at least one token and no token holds a splitting character; `SplitRejoins` and `GapsShape` tie the tokens to the line, and `SplitInterleave` states the converse |
| Parsing.SplitLeadingSpace | kotlin/andob/Utils.kt:17 | a line starting with a splitting character yields an empty first token |
| Parsing.Run | kotlin/andob/Utils.kt:17 | the run of splitting characters a greedy `\s+` match consumes at the front: it and what the match leaves make up the string, it holds only splitting characters, and it is non-empty when the string starts with one |
| Parsing.GapsShape | kotlin/andob/Utils.kt:17 | the runs `Split` cuts out number one fewer than the tokens, and each is a non-empty run of splitting characters |
| Parsing.SplitRejoins | kotlin/andob/Utils.kt:17 | splitting loses nothing: the tokens with the cut-out runs put back between them are the line again, for every line |
| Parsing.SplitInterleave | kotlin/andob/Utils.kt:17 | tokens free of splitting characters, all but the first non-empty, with any non-empty runs of splitting characters between them split back into the same tokens |
| Parsing.SplitJoin | kotlin/andob/Utils.kt:17 | tokens joined with a run of splitting characters split back into the same tokens |
| Parsing.SplitToken | kotlin/andob/Utils.kt:17 | a token without splitting characters splits into itself |
| Parsing.SplitCons | kotlin/andob/Utils.kt:17 | a token, a run of splitting characters and a rest starting with a non-splitting character split into the token followed by the pieces of the rest |
| Parsing.JoinedFront | kotlin/andob/Utils.kt:17 | a join of two or more tokens is the first token, the separator and the join of the rest, which starts with the second token |
| Parsing.SplitJoinStep | kotlin/andob/Utils.kt:17 | if the join of the later tokens splits back into them, the join with one more token in front splits back into all of them |
| Parsing.ToUpper | kotlin/andob/Utils.kt:27-28 | upper-casing keeps the length and maps each character |
| Parsing.ToUpperIdempotent | kotlin/andob/Utils.kt:27-28 | upper-casing twice is upper-casing once |
| Parsing.ToUpperKeeps | kotlin/andob/Utils.kt:28 | an already upper-case symbol is kept |
| Parsing.ParseSide | kotlin/andob/Utils.kt:27 | `OrderSide.valueOf(side.uppercase())`; `ParseSideCaseInsensitive` and `ParseSideNames` state which strings it accepts |
| Parsing.ParseSideCaseInsensitive | kotlin/andob/Utils.kt:27 | a token names a side exactly when its upper case is the side's name, so a token and its upper case parse alike |
| Parsing.ParseSideNames | kotlin/andob/Utils.kt:27 | `BUY`, `SELL`, `buy` and `sell` parse to their sides |
| Parsing.UpperBuy | kotlin/andob/Utils.kt:27 | the lower-case side name `buy` upper-cases to `BUY` |
| Parsing.UpperSell | kotlin/andob/Utils.kt:27 | the lower-case side name `sell` upper-cases to `SELL` |
| Parsing.ParseInt | kotlin/andob/Utils.kt:28 | an accepted quantity comes from non-empty text and fits in 32 bits; `ParseIntAccepts` states exactly which texts are accepted and with what value |
| Parsing.NatToStringValue | kotlin/andob/Utils.kt:28 | printed digits read back as the number |
| Parsing.ParseDigits | kotlin/andob/Utils.kt:28 | a run of ASCII digits within 32 bits, bare or after `+`, reads as its value |
| Parsing.ParseNegatedDigits | kotlin/andob/Utils.kt:28 | a run of ASCII digits after `-`, down to -2^31, reads as the negated value |
| Parsing.ParseIntToString | kotlin/andob/Utils.kt:28 | a printed 32-bit integer, with or without `+`, reads back as itself |
| Parsing.ParseIntRejects | kotlin/andob/Utils.kt:28 | a printed integer outside 32 bits, a bare sign and a trailing non-digit are refused |
| Parsing.ParseIntAccepts | kotlin/andob/Utils.kt:28 | `toInt` succeeds with value v exactly when the text is one or more ASCII digits, bare or after `+` or `-`, whose signed value is v and fits in 32 bits |
| Parsing.ParseIntNonDigit | kotlin/andob/Utils.kt:28 | a character that is neither a digit nor a leading sign makes `toInt` fail |
| Parsing.FromTokens | kotlin/andob/Utils.kt:26-32 | the `try` block of `buildOrder`: the side, quantity and price conversions in argument order, then the constructor's checks, every failure wrapped with the line; `FromTokensSpec` states it |
| Parsing.BuildOrder | kotlin/andob/Utils.kt:12-33 | `buildOrder` with the clock and `toFloat` as parameters; `BuildOrderBlank`, `BuildOrderTokens`, `BuildOrderLeadingSpace` and `BuildOrderRoundTrip` state it |
| Parsing.FromTokensSpec | kotlin/andob/Utils.kt:26-32 | the conversions succeed exactly for a known side, a non-negative 32-bit quantity and a positive parsed price; the order carries the ID verbatim, the upper-cased symbol and the clock reading; each failure carries the line and the first failing step as its cause |
| Parsing.BuildOrderBlank | kotlin/andob/Utils.kt:14-15 | a blank line fails with "Unable to build an order. Line not found" and no cause |
| Parsing.BuildOrderTokens | kotlin/andob/Utils.kt:17-23 | a non-blank line of other than five tokens fails with the line in the message and no cause; five tokens go to the conversions in order |
| Parsing.BuildOrderLeadingSpace | kotlin/andob/Utils.kt:17-23 | a line starting with a splitting character can only yield an order with an empty ID |
| Parsing.BuildOrderRoundTrip | kotlin/andob/Utils.kt:12-33 | a line printed from an order's fields builds that order back, stamped with the clock reading |
| Parsing.PrintedTokens | kotlin/andob/Utils.kt:17 | each printed field is one non-empty token |
| Parsing.PrintedLine | kotlin/andob/Utils.kt:14-17 | a printed line is not blank and trims and splits into its fields |
| Parsing.TokensOfLine | kotlin/andob/Utils.kt:14-17 | a line joined from single tokens is not blank and trims and splits back into them |
| Parsing.JoinedEnds | kotlin/andob/Utils.kt:17 | a joined line begins and ends with the first and last token's outer characters |

## Left out

- The I/O of `kotlin/Main.kt` is not part of this model: reading stdin, the global engine, and the text rendering of orders and trades. Its loop of `match` calls is `MatchAll`.
- `@Synchronized` on `match` and the getters: every call is modelled as atomic and sequential.
- The `MatchingEngine` interface: it has signatures only. Both classes offer its three members.
- Float prices: a price is a positive `real`, so Float rounding, NaN and infinite prices are not modelled. An infinite price passes the source's `price > 0` check but cannot be represented here.
- Quantities: an order quantity is a `nat`, where Kotlin has a 32-bit `Int`. The core only takes the `min` of two quantities and subtracts the smaller from each, so it never leaves the `Int` range. A quantity read from a line is still checked against 32 bits by `ParseInt`.
- Timestamps: a `Date` is an integer count of milliseconds. The clock reading is the parameter `now`.
- `String.toFloat` is the parameter `parsePrice`.
- Parsing.ParseInt: reads ASCII digits only. `Integer.parseInt` also accepts other Unicode decimal digits.
- Parsing.ToUpperChar: maps only a-z, U+0131 and U+017F. These are the characters whose upper case is an ASCII letter, so side parsing is exact. Other case mappings of an instrument symbol are not modelled, including length-changing ones such as ß to SS.
- Orders.CompareSymbols: compares Unicode scalar values, where `String.compareTo` compares UTF-16 code units. The two orders differ only for characters outside the Basic Multilingual Plane.
- Orders.Compare: returns only the sign of `compareTo`.
- Books.BinarySearch: computes the midpoint with `/ 2` instead of `ushr 1`. The two agree because the indices are non-negative and lists stay below 2^31 entries.
- Exceptions are `Result`/`Option` values. The `IndexOutOfBoundsException` of a failed insert is `IndexOutOfBounds(index)` and carries no text.
- The exception messages of the library conversions are not modelled. The causes record which conversion failed and on what text.
- The `Trade` constructor inside `fill` cannot fail, since `Fill` proves its checks hold. `Fill` therefore takes the trade out of `NewTrade` directly.
- The null case of `isNullOrBlank`: the parameter is a non-null `String`, so only blank lines are modelled.
- Aliasing: `buyOrders` and `sellOrders` of `InstrumentMatchingEngine` are public `MutableList`s, and outside code could change them. The model gives access only through the class's methods.
- `MatchAll` (successive calls of `match`) ends at the first failing insert. In the program, that exception reaches the catch-all handler in `Main.kt` and stops the input loop.

## Findings

| source | as written | input that shows it | evidently intended | confidence | as-written member | corrected member |
|---|---|---|---|---|---|---|
| kotlin/andob/InstrumentMatchingEngine.kt:104-107 | `-idx - 1` is used as the insert position even when `binarySearch` found an entry comparing equal (`idx >= 0`). `add` then throws `IndexOutOfBoundsException`. The order neither trades nor rests: an entry of its price already rests on its side and crosses nothing, so nothing traded and the contra book is unchanged (`Matching.StepFailureTouchesNothing`). The exception reaches the catch-all in `Main.kt`, which ends the input loop. | resting BUY "1" of 5 @100.0 at time 0; new BUY "2" of 3 @100.0 at time 0 (two orders in the same millisecond at the same price) | insert after the entries of equal key (first come, first served), which never fails | not executed | Matching.EqualKeyOrderLost | Books.AddAfterEqualSorted |

The engine model (`AddToBook`, `Engine.InstrumentMatchingEngine.AddOrder`, `Step`) keeps the as-written behaviour, because that is what the program does. `Books.AddAfterEqual` is the corrected insertion. It is proved to agree with `AddToBook` on every input where `AddToBook` succeeds.
