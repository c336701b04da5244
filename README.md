# Plot marketplace: purchase resolver and account reducer

The marketplace sells rectangular plots of a shared pixel canvas. Ownership
is an append-only history of plots, and a later plot lies on top of the
earlier ones. This project models two parts of the client in Dafny and
proves properties of them.

**The purchase resolver** (`computePurchaseInfo`), modules `Models`,
`PlotMath` and `ComputePurchase`. The resolver takes a requested rectangle
and the history. It either refuses with one of three messages, or returns a
plan:

- the chunks of the request to buy;
- for each chunk, the index of the plot it is bought from;
- the plot price, the fee and the total.

The resolver is modelled as a method whose loops match the source:

- The outer loop walks the history from the top.
- The inner loop (`BuyFromPlot`) walks a work list of chunks. It splices a
  chunk out, appends the pieces left over once the plot's overlap is
  subtracted, and steps the index back.

The method's contract gives the outcome in terms of the cells of the request
and their topmost owners:

- The request is refused as too large exactly when it has more than 1000
  cells.
- Otherwise it is refused as not for sale exactly when some cell's topmost
  owner has a buyout price of 0.
- Otherwise it is refused as an invalid state exactly when some cell has no
  owner.
- Otherwise the result is a plan. Its chunks tile the request: they are
  pairwise disjoint and their cells are exactly the request's cells. Each
  chunk lies in the plot it is paired with. That plot sells, and no later
  plot overlaps the chunk. The plot price is the sum of price times area,
  and the total is the plot price plus the fee.

The defensive "do any remaining chunks overlap" check inside the inner loop
is kept as code. The invariants show it never fires: `BuyFromPlot` can only
refuse with the not-for-sale message.

The fee is computed with exact decimal division and then rendered without
decimals. The rendering rounds half up, so the fee is `plotPrice / 100`
rounded to the nearest integer, halves up. The fee is not a truncating
integer division: a plot price of 150 gives a fee of 2, not 1.
`FeeAgainstTruncation` states the difference exactly: the rounded
fee is one more than the truncated quotient when the remainder is 50 or
more. The total is the rounded value of the exact sum. Because the plot
price is whole, that sum equals the plot price plus the rounded fee.

**The account reducer** (`accountReducer`), module `Account`. It is a pure
function from a state and an action to the next state. Its contract names,
for every action, the fields it may write, and every other field keeps its
value. It also gives the value each written field receives, except the
transaction map after an addition: that map is the contract of
`AddTransactionEntries`. Lemmas cover:

- the transaction map after an addition;
- idempotence of clearing the notification count;
- loading followed by finishing the load;
- the initial state;
- the notification count after any sequence of actions.

## Model

| member | source | states |
|---|---|---|
| Models.InsideMeansCellsInside | src/data/ComputePurchaseInfo.ts:43-48 | for valid rectangles, one lies inside another (compared on bounds) exactly when all its cells do |
| PlotMath.OverlapIsSharedCell | src/data/ComputePurchaseInfo.ts:40 | the bounds-based overlap test holds exactly when the two rectangles share a cell |
| PlotMath.ComputeRectOverlap | src/data/ComputePurchaseInfo.ts:43 | the overlap of two overlapping rectangles is a valid rectangle inside both, whose cells are exactly the cells they share; when the second lies inside the first, the overlap is the second |
| PlotMath.SubtractRectangles | src/data/ComputePurchaseInfo.ts:68 | at most four valid, pairwise disjoint pieces, each inside the base and missing the hole; a cell is in the base exactly when it is in the hole or in a piece |
| PlotMath.DoAnyOverlap | src/data/ComputePurchaseInfo.ts:74 | true exactly when some two rectangles of the list overlap |
| ComputePurchase.ComputePurchaseInfo | src/data/ComputePurchaseInfo.ts:20-108 | too large exactly above 1000 cells; else not for sale exactly when some cell's topmost owner does not sell; else invalid state exactly when some cell has no owner; else a plan whose chunks tile the request, whose chunks are each bought from a selling plot they lie in with no later plot over them, whose plot price is the sum of price times area, and whose total is plot price plus fee; a request inside one selling plot with nothing above it is bought whole from that plot |
| ComputePurchase.BuyFromPlot | src/data/ComputePurchaseInfo.ts:36-82 | one pass over the work list for plot i: it refuses only with the not-for-sale message, and only when some cell's topmost owner does not sell; otherwise it keeps the tiling, the sources and the price sum, and leaves no remaining chunk overlapping plot i or anything above it |
| ComputePurchase.Buyout | src/data/ComputePurchaseInfo.ts:55-56 | a chunk's cost is zero exactly when its plot's price per pixel is zero |
| ComputePurchase.RoundHalfUp | src/data/ComputePurchaseInfo.ts:102-104 | the result is the quotient rounded to the nearest integer, halves up |
| ComputePurchase.FeePrice | src/data/ComputePurchaseInfo.ts:95 | the fee is 1% of the plot price to within half a unit |
| ComputePurchase.TotalPrice | src/data/ComputePurchaseInfo.ts:96 | the rounded total equals the plot price plus the rounded fee |
| ComputePurchase.FeeAgainstTruncation | src/data/ComputePurchaseInfo.ts:95 | the fee is the truncated hundredth of the plot price, plus one exactly when the remainder is 50 or more |
| ComputePurchase.FeeOfWholeHundreds | src/data/ComputePurchaseInfo.ts:95 | a plot price that is a multiple of 100 has a fee of exactly a hundredth of it |
| ComputePurchase.ProcessChunk | src/data/ComputePurchaseInfo.ts:43-69 | buying one overlap and replacing its chunk by the leftover pieces keeps the tiling, gives the new chunk its topmost source, keeps the remaining chunks clear of every later plot, keeps the checked prefix, and lowers the termination measure |
| ComputePurchase.StepTiling | src/data/ComputePurchaseInfo.ts:51-69 | the bought chunks plus the work list still cover exactly the request, without overlaps, after one splice-and-append step |
| ComputePurchase.StepMeasure | src/data/ComputePurchaseInfo.ts:66-71 | after a splice-and-append step, fewer chunks of the work list overlap the current plot, so the inner loop terminates despite stepping its index back |
| ComputePurchase.NotForSaleWitness | src/data/ComputePurchaseInfo.ts:55-61 | a zero price met on a remaining chunk exhibits a cell of the request whose topmost owner does not sell |
| ComputePurchase.CellsAccounted | src/data/ComputePurchaseInfo.ts:87-92 | when the walk ends, no cell's topmost owner refuses to sell, and some cell has no owner exactly when chunks remain |
| ComputePurchase.SoleSourceSells | src/data/ComputePurchaseInfo.ts:32-48 | a request inside one selling plot with nothing above it has no unsellable and no unowned cell |
| ComputePurchase.SoleChunk | src/data/ComputePurchaseInfo.ts:32-52 | in that case any plan the loop can produce is the request itself, paired with that plot |
| ComputePurchase.SinglePlotPurchase | truffle-tests/Basic.ts:66-73 | one 250 x 250 seed plot at 100 per pixel and the request (25, 40, 12, 4) give one chunk equal to the request, index 0, plot price 4800, fee 48, total 4848; the test gives only the two rectangles, so the price of 100 per pixel, and with it the three amounts, are this example's own assumption |
| Account.AccountReducer | src/reducers/account.ts:24-59 | each action writes only its own fields (metamask state and network; active account; transactions and count; count; loading flag and transactions; loading flag; nothing), and each written field other than the transaction map gets the action's value (the map is stated by `AddTransactionEntries`); the count goes up by one exactly for a new transaction; an unknown action returns the state unchanged |
| Account.AddTransactionEntries | src/reducers/account.ts:33-41 | after an addition the keys are the old keys plus the event hash, the hash maps to the new transaction, and every other entry is unchanged |
| Account.AddTransactionReplaces | src/reducers/account.ts:34-36 | adding under a hash already present replaces that entry without growing the map |
| Account.ClearIsIdempotent | src/reducers/account.ts:50-51 | clearing the notification count twice gives the same state as clearing it once |
| Account.LoadThenDone | src/reducers/account.ts:52-55 | loading then finishing leaves an empty transaction map, the loading flag false, and every other field as before |
| Account.InitialStateFacts | src/reducers/account.ts:15-22 | the initial state has unknown wallet and network, no active account, no transactions, a zero count and is not loading |
| Account.NotificationCountOfHistory | src/reducers/account.ts:43-51 | after any sequence of actions the count is the number of new transactions since the last reset, added to the starting count when there was no reset |
| Account.NotificationCountFromStart | src/reducers/account.ts:15-51 | from the initial state, the count is the number of new transactions since the last reset |

## Left out

- `PlotMath` (`src/data/PlotMath.ts`) is not part of this model. Its four
  helpers are defined from the way the resolver uses them, and their
  contracts are what the resolver relies on. Both the shape of the split
  in `SubtractRectangles` and the order of its pieces are this model's
  choice: full-width bands above and below the hole, side pieces only at
  the hole's height, returned above, below, left, right. The source may
  split the other way or order the pieces differently. It may then return
  chunks of other shapes, in a different number and order, with other
  indices. The tiling, sourcing and price properties do not depend on
  either choice.
- `ComputePurchase.ComputePurchaseInfo`: the request and every plot
  rectangle are assumed valid, with a positive width and height and a far
  corner that agrees with them. Zero-size or inconsistent rectangles,
  which the source does not reject, are not modelled.
- Prices are natural numbers. The arbitrary-precision decimal type and its
  string rendering (`toFixed(0)`) are modelled by the integer they denote.
  This assumes the library's default rounding mode (half up) and default
  precision, which represents `plotPrice / 100` exactly.
- `Buyout` and `ComputePurchaseInfo` take the buyout price per pixel as a
  `nat`. Negative or fractional buyout prices from the chain are not
  modelled.
- The result's `isValid` flag is the constructor of `PurchaseInfo`. The
  optional fields of the interface at `src/data/ComputePurchaseInfo.ts:7-17`
  are the payloads of its two constructors.
- The chunks pushed just before a not-for-sale refusal (`:51-52`) are
  local to the call and not observable, so the refusal carries only its
  message.
- `Account.AccountReducer` takes the state explicitly. The default
  parameter (`state = initialState`) is modelled by passing `InitialState`.
- `MetamaskState`, `NetworkName`, `TxType` and `TxStatus` come from an
  enumeration file that is not part of this model. Only the initial
  metamask state and network name are named. The other values are opaque
  tags that the reducer passes through.
- `Account.AccountReducer`: `notificationCount` is a `nat`. JavaScript
  numbers stop counting exactly above 2^53, which is not modelled.
- Actions other than the six handled ones are one `OtherAction` case. The
  action creators, the store setup and the rest of the application (views,
  chain access, event loading) are outside this model.
