# hyperliquid-heatmap order-book core, in Dafny

This project models the sequential logic inside `src-tauri/src/lib.rs` of
hyperliquid-heatmap. That file is a desktop client. It subscribes to the
Hyperliquid `l2Book` feed, keeps the current book and a five-minute history of
book snapshots, and draws that history as an SVG heatmap. The model has four
parts:

- **`OrderBook`** (`order_book.dfy`) models the state object `OrderBookState`
  as a class with `buy`, `sell` and `history` fields.
  - `UpdateHistory` appends a snapshot, then drops the entries that fell out
    of the window with a filtering loop that collects the kept entries and
    assigns them to the history.
  - `ApplyUpdate` is the body of the processing loop. It clears both sides,
    runs a nested insert loop over the level groups, and then updates the
    history.
  - `ProcessMessages` is the loop over received messages.
  - Each method is proved against pure specification functions: `Insert`,
    `BuySide`, `SellSide`, `Retained`/`Purged`, `Pushed` and `HistoryAfter`.
    The lemmas state what the source promises about those functions.
- **`Reconnect`** (`reconnect.dfy`) models the reconnect loop of the feed task.
  - It is a pure transition function, `Step`, over the outcome of one pass of
    the outer loop. A pass ends in a connection failure, a failed subscription
    send, or a session that streamed until it ended.
  - It also has an imperative `Run` over a finite trace of such outcomes. `Run`
    returns the wait slept before each pass and the final retry count.
- **`Heatmap`** (`heatmap.dfy`) models `generate_heatmap` as a pure function
  `Render` from the history window to the sequence of drawing primitives it
  adds to the document, in order:
  - the background;
  - one red rectangle per sell level, one green rectangle per buy level and
    one mid line per snapshot;
  - then the price axis.

  Coordinates are integers. Prices, sizes and opacities are reals.
- **`Wrappers`** (`wrappers.dfy`) holds `Option`, used for the result of
  parsing a level's price or size and for the row of a price when the price
  range is zero.

## How the model follows the code

Three behaviours of the code are easy to misread. The model follows the code
in each:

- **Stream error or end.** A stream error or a stream end does not back off.
  The subscription send has already reset the retry count to zero (line 115),
  and the `break` out of the receive loop (lines 124 and 135) leads to an
  immediate reconnect, with no wait and with the count still zero.
  `Reconnect.Step` and `Reconnect.StepFacts` state this.
- **Queue-send failure.** A failure to forward a message to the processing
  task is the same `break` (line 124). The outer loop then reconnects as
  after any other session end. This is `StreamExit.ChannelClosed`.
- **No liquidity.** With no positive size in the window, `generate_heatmap`
  returns before it adds the background (lines 216-219), so the document
  holds no primitive at all. `Heatmap.RenderEmptyIffNoLiquidity` states this.

The code computes the lowest and highest price with folds that start from
plus and minus infinity (lines 239-240). The model starts each fold from the
first price of the window instead. This agrees whenever the window holds a
price, and it always does when `Render` needs the bounds
(`Heatmap.PositiveMaxSizeHasPrices`).

## Model

| member | source | states |
|---|---|---|
| OrderBook.OrderBookState.constructor | src-tauri/src/lib.rs:57-63 | a new state has empty sides and an empty history, which satisfies the window invariant |
| OrderBook.OrderBookState.UpdateHistory | src-tauri/src/lib.rs:65-76 | the sides are unchanged; the history becomes the old one with the snapshot `(timestamp, buy, sell)` appended and every entry with `ts <= timestamp - 300000` removed; the last entry is the new snapshot; the window invariant holds |
| OrderBook.PushedWindow | src-tauri/src/lib.rs:67-75 | after an update the last entry is the pushed snapshot, every entry is newer than its timestamp minus 300000 ms, and the length is at most the old length plus one |
| OrderBook.PushedKeeps | src-tauri/src/lib.rs:74-75 | a prior entry survives an update exactly when its timestamp is after the new timestamp minus 300000 |
| OrderBook.RetainedMembers | src-tauri/src/lib.rs:75 | an entry is kept by the retain exactly when it was in the history and is newer than the cutoff |
| OrderBook.PurgedMembers | src-tauri/src/lib.rs:75 | an entry is dropped by the retain exactly when it was in the history and is not newer than the cutoff |
| OrderBook.RetainedPartition | src-tauri/src/lib.rs:75 | the kept and the dropped entries together are the old history as a multiset, and their lengths add up, so nothing else is removed |
| OrderBook.RetainedConcat | src-tauri/src/lib.rs:75 | the retain distributes over concatenation, so the kept entries stay in their original relative order |
| OrderBook.RetainedChronological | src-tauri/src/lib.rs:75 | the retain keeps a chronological history chronological |
| OrderBook.InOrderPushChronological | src-tauri/src/lib.rs:65-75 | updates that arrive in timestamp order keep the history chronological |
| OrderBook.OutOfOrderPushKeepsLaterEntry | src-tauri/src/lib.rs:74-75 | the cutoff comes from the timestamp just pushed: after an out-of-order update an entry stamped later stays in the history, which is then not chronological |
| OrderBook.SecondUpdatePurgesFirst | src-tauri/src/lib.rs:65-75 | an update at 301500 ms purges the entry of an update at 1000 ms and leaves only itself |
| OrderBook.Retained | src-tauri/src/lib.rs:75 | the entries of a history newer than a cutoff, in order; its properties are `OrderBook.RetainedMembers`, `OrderBook.RetainedPartition`, `OrderBook.RetainedConcat` and `OrderBook.RetainedChronological` |
| OrderBook.Pushed | src-tauri/src/lib.rs:65-75 | the history after one update: the snapshot appended, then every entry at or before its timestamp minus 300000 dropped; its properties are `OrderBook.PushedWindow` and `OrderBook.PushedKeeps` |
| OrderBook.Insert | src-tauri/src/lib.rs:169-182 | a side after inserting the parseable levels of one group in order, a later insert at a price overwriting an earlier one; its properties are `OrderBook.InsertKeys`, `OrderBook.InsertUnquoted`, `OrderBook.InsertLastWins` and `OrderBook.InsertSkipsUnparsed` |
| OrderBook.BuySide | src-tauri/src/lib.rs:165-174 | the buy side built from a message, from group 0 alone; its properties are `OrderBook.BuySideKeys` and `OrderBook.BuySideValue` |
| OrderBook.SellSide | src-tauri/src/lib.rs:166-176 | the sell side built from a message, from groups 1 and later in order; its properties are `OrderBook.SellSideKeys` and `OrderBook.SellSideValue` |
| OrderBook.HistoryAfter | src-tauri/src/lib.rs:161-188 | the history after a run of messages: one `Pushed` per message, at the message time, with the sides built from that message; `OrderBook.OrderBookState.ProcessMessages` is proved against it |
| OrderBook.OrderBookState.ApplyUpdate | src-tauri/src/lib.rs:165-188 | afterwards `buy` is built from group 0 alone and `sell` from groups 1 and later alone, whatever the book was before; the history is the old one updated with the new snapshot at the message time; the window invariant holds |
| OrderBook.OrderBookState.ProcessMessages | src-tauri/src/lib.rs:161-188 | after a run of messages the sides are those of the last message alone, and the history is the old one updated once per message in order; the window invariant is kept |
| OrderBook.InsertKeys | src-tauri/src/lib.rs:168-177 | after inserting a group, a price is present exactly when it was present before or some parseable level of the group has that price |
| OrderBook.InsertUnquoted | src-tauri/src/lib.rs:168-183 | a price that no parseable level of the group quotes keeps its presence and its size |
| OrderBook.InsertLastWins | src-tauri/src/lib.rs:173-177 | the last parseable level at a price sets that price's size: a later insert overwrites an earlier one |
| OrderBook.InsertSkipsUnparsed | src-tauri/src/lib.rs:170-182 | a level whose price or size failed to parse changes nothing: removing it from anywhere in the group gives the same side |
| OrderBook.BuySideKeys | src-tauri/src/lib.rs:165-174 | the buy side holds exactly the prices of the parseable levels of group 0 |
| OrderBook.BuySideValue | src-tauri/src/lib.rs:173-174 | each buy price carries the size of the last parseable level of group 0 at that price |
| OrderBook.SellSideKeys | src-tauri/src/lib.rs:166-176 | the sell side holds exactly the prices of the parseable levels of the groups from index 1 on |
| OrderBook.SellSideValue | src-tauri/src/lib.rs:175-176 | each sell price carries the size of the last parseable level at that price in the last group that quotes it |
| OrderBook.ExampleUpdate | src-tauri/src/lib.rs:165-177 | one bid at 10 for 5 and one ask at 11 for 3 give exactly those two sides |
| OrderBook.EmptyBuyGroup | src-tauri/src/lib.rs:168-177 | an empty group 0 gives an empty buy side, and a parseable level in group 1 still reaches the sell side |
| Reconnect.Wait | src-tauri/src/lib.rs:95-97 | the wait is zero exactly when the retry count is zero, otherwise at least two seconds, and never more than thirty |
| Reconnect.WaitSchedule | src-tauri/src/lib.rs:95-97 | the waits for counts 0 to 4 are 0, 2, 4, 8 and 16 seconds, and thirty from count 5 on |
| Reconnect.WaitMonotone | src-tauri/src/lib.rs:96 | a higher count never gives a shorter wait |
| Reconnect.WaitAsWrittenBelow64 | src-tauri/src/lib.rs:96 | the shift as written agrees with the intended wait for every count below 64 |
| Reconnect.WaitAsWritten | src-tauri/src/lib.rs:95-97 | the wait as the source computes it in a release build, with the shift amount reduced modulo 64; its properties are `Reconnect.WaitAsWrittenBelow64`, `Reconnect.WaitAsWrittenWrapsAt64` and `Reconnect.WaitAsWrittenPeriodic` |
| Reconnect.WaitAsWrittenWrapsAt64 | src-tauri/src/lib.rs:96 | at count 64 the shift as written gives a wait of one second where thirty was meant, and counts 65 to 68 give 2, 4, 8 and 16 seconds before count 69 reaches the cap again |
| Reconnect.WaitAsWrittenPeriodic | src-tauri/src/lib.rs:96 | the wait as written repeats every 64 counts: one second at every positive multiple of 64, otherwise the intended wait of the count modulo 64 |
| Reconnect.Step | src-tauri/src/lib.rs:91-153 | one pass of the outer loop: its wait and the count the next pass starts with; its properties are `Reconnect.StepFacts` and `Reconnect.RetryFromCounts` |
| Reconnect.StepFacts | src-tauri/src/lib.rs:91-153 | each pass waits `Wait` of its starting count; a connection or subscription-send failure adds one to the count; a sent subscription resets it to zero, so the pass after the session ends waits nothing |
| Reconnect.RetryFromCounts | src-tauri/src/lib.rs:90-153 | after a sequence of passes, the count is the number of failures since the last sent subscription, plus the starting count when every pass failed |
| Reconnect.Run | src-tauri/src/lib.rs:90-153 | the loop sleeps, before each pass, the wait for the failures since the last sent subscription; its final count is that number and equals the fold of `Step` |
| Reconnect.TwoConnectFailures | src-tauri/src/lib.rs:95-149 | after two failed connections the waits are 0, 2 and 4 seconds, and a sent subscription brings the count back to zero |
| Heatmap.MaxSize | src-tauri/src/lib.rs:212-214 | the largest size of both sides of every snapshot, folded from zero; its properties are `Heatmap.MaxSizeIsLargest` and `Heatmap.RenderEmptyIffNoLiquidity` |
| Heatmap.PriceBounds | src-tauri/src/lib.rs:233-241 | the lowest and the highest price of the window, by folds over every price; its properties are `Heatmap.PriceBoundsAreExtremes` |
| Heatmap.Render | src-tauri/src/lib.rs:205-361 | the primitives `generate_heatmap` adds to its document, in order; its properties are `Heatmap.RenderEmptyIffNoLiquidity`, `Heatmap.RenderLayout`, `Heatmap.RenderRects` and the lemmas below about the scene |
| Heatmap.Columns | src-tauri/src/lib.rs:248-297 | the columns of the snapshots in history order; its properties are `Heatmap.ColumnsSplit`, `Heatmap.ColumnsLength`, `Heatmap.ColumnsDrawLevels` and `Heatmap.ColumnsAtEntries` |
| Heatmap.Column | src-tauri/src/lib.rs:249-296 | one snapshot's sell rectangles, then its buy rectangles, then its mid line; its properties are `Heatmap.ColumnRects` and `Heatmap.ColumnAtEntry` |
| Heatmap.AskRects | src-tauri/src/lib.rs:253-266 | the red rectangles of one snapshot; its properties are `Heatmap.AskRectsLayout` |
| Heatmap.BidRects | src-tauri/src/lib.rs:268-281 | the green rectangles of one snapshot; its properties are `Heatmap.BidRectsLayout` |
| Heatmap.MidRect | src-tauri/src/lib.rs:283-296 | the one-pixel mid line of one snapshot at the row of its mid price, with opacity 0.8; its properties are `Heatmap.MidPriceDefaults` and `Heatmap.ColumnRects` |
| Heatmap.TimeX | src-tauri/src/lib.rs:247-250 | the left edge of a snapshot's column, from its offset into the five minutes before the last entry; its properties are `Heatmap.TimeXInPlot`, `Heatmap.LaterEntryStartsInMargin` and `Heatmap.RenderedColumnsInPlot` |
| Heatmap.BarWidth | src-tauri/src/lib.rs:251 | the column width for a window of `n` snapshots; its properties are `Heatmap.BarWidthCovers` |
| Heatmap.Row | src-tauri/src/lib.rs:255 | the row of a price, measured down from the top edge; its properties are `Heatmap.RowOnCanvas` and `Heatmap.RowMonotone` |
| Heatmap.Alpha | src-tauri/src/lib.rs:256 | the opacity of a level, its size over the largest size, capped at one; its properties are `Heatmap.AlphaClamp` and `Heatmap.FullAlphaIffLargest` |
| Heatmap.MidPrice | src-tauri/src/lib.rs:284-286 | the average of the best bid and the best ask, each zero for an empty side; its properties are `Heatmap.MidPriceDefaults` |
| Heatmap.TickY | src-tauri/src/lib.rs:310 | the row of tick `i` of the price axis; its properties are `Heatmap.AxisLayout` |
| Heatmap.AxisTicks | src-tauri/src/lib.rs:307-329 | the eleven marks of the price axis; its properties are `Heatmap.AxisLayout` |
| Heatmap.FoldMaxIsMax | src-tauri/src/lib.rs:212-214 | a max-fold is at least its start value and every element, and is one of them |
| Heatmap.FoldMinIsMin | src-tauri/src/lib.rs:239 | a min-fold is at most its start value and every element, and is one of them |
| Heatmap.AllSizesMembers | src-tauri/src/lib.rs:212-213 | the sizes folded are exactly the sizes of both sides of every snapshot |
| Heatmap.AllPricesMembers | src-tauri/src/lib.rs:233-237 | the prices collected are exactly the prices of both sides of every snapshot |
| Heatmap.MaxSizeIsLargest | src-tauri/src/lib.rs:212-214 | `max_size` is at least zero and every size in the window, and is zero or one of those sizes |
| Heatmap.PositiveMaxSizeHasPrices | src-tauri/src/lib.rs:212-237 | a window with a positive size has at least one price |
| Heatmap.PriceBoundsAreExtremes | src-tauri/src/lib.rs:233-241 | the lowest and highest prices are prices of the window, in order, and every price of the window lies between them |
| Heatmap.RenderEmptyIffNoLiquidity | src-tauri/src/lib.rs:212-219 | nothing at all is drawn exactly when no size in the window is positive, which includes an empty window |
| Heatmap.RenderLayout | src-tauri/src/lib.rs:216-358 | otherwise the scene is the background of width 1620, then the columns of the snapshots in history order, then the price axis; its length is two plus one per level and one per snapshot |
| Heatmap.RenderRects | src-tauri/src/lib.rs:224-358 | the rectangles of the scene are exactly those of the columns |
| Heatmap.SortedKeys | src-tauri/src/lib.rs:268 | the buy side is walked by strictly ascending price, once per key |
| Heatmap.Descending | src-tauri/src/lib.rs:253 | the sell side is walked by strictly descending price, once per key |
| Heatmap.AskRectsLayout | src-tauri/src/lib.rs:253-266 | one red rectangle per sell level, by strictly descending price, at the snapshot's column with the bar width, two pixels tall, at its price's row, with the opacity of its size |
| Heatmap.BidRectsLayout | src-tauri/src/lib.rs:268-281 | one green rectangle per buy level, by strictly ascending price, otherwise as the sell rectangles |
| Heatmap.ColumnRects | src-tauri/src/lib.rs:253-296 | every primitive of a column is a rectangle at its price's row, and every red or green one draws a level of the snapshot |
| Heatmap.ColumnsSplit | src-tauri/src/lib.rs:249-297 | the column of entry k comes after those of the entries before it and before those after it |
| Heatmap.ColumnsLength | src-tauri/src/lib.rs:249-297 | the columns hold one primitive per level and one mid line per snapshot |
| Heatmap.ColumnsDrawLevels | src-tauri/src/lib.rs:249-297 | every rectangle of the columns sits at its price's row, and every red or green one draws a level of some snapshot |
| Heatmap.AlphaClamp | src-tauri/src/lib.rs:256 | the opacity is at most one, at least zero for a size that is not negative, and exactly one for a size at or above the largest |
| Heatmap.RenderedRectsDrawLevels | src-tauri/src/lib.rs:253-281 | every red or green rectangle of the scene draws a level of some snapshot, with that level's opacity |
| Heatmap.RenderedAlphaInUnitRange | src-tauri/src/lib.rs:256-271 | when no size is negative, every level rectangle of the scene has an opacity in [0, 1] |
| Heatmap.FullAlphaIffLargest | src-tauri/src/lib.rs:212-271 | a level is drawn at full opacity exactly when its size is the largest in the window |
| Heatmap.FullAlphaAtMaximum | src-tauri/src/lib.rs:212-271 | when anything is drawn, some level is drawn at full opacity |
| Heatmap.ColumnHasFullAlpha | src-tauri/src/lib.rs:253-281 | a level whose size is the largest is drawn at full opacity in its column |
| Heatmap.BarWidthCovers | src-tauri/src/lib.rs:251 | the bar width is the plotting width per snapshot rounded up, plus one: the columns together cover the 1620-pixel plotting width, with less than one pixel per column to spare beyond the added one |
| Heatmap.RowOnCanvas | src-tauri/src/lib.rs:255 | with a positive price range, a price between the bounds is drawn between rows 0 and 1080, the lowest at the bottom edge and the highest at the top |
| Heatmap.RowMonotone | src-tauri/src/lib.rs:255 | a higher price is never drawn lower, also outside the price range, where the mid line of a snapshot with an empty side lies |
| Heatmap.RenderedLevelsOnCanvas | src-tauri/src/lib.rs:239-270 | with a positive price range every level rectangle of the scene lies on the canvas |
| Heatmap.TimeXInPlot | src-tauri/src/lib.rs:246-250 | an entry within the window that is not later than the last entry starts inside the plotting area |
| Heatmap.ColumnAtEntry | src-tauri/src/lib.rs:250-296 | every primitive of a snapshot's column is a rectangle starting at that snapshot's `time_x` |
| Heatmap.ColumnsAtEntries | src-tauri/src/lib.rs:248-297 | every primitive of the columns is a rectangle starting at the `time_x` of some entry |
| Heatmap.RenderedColumnsInPlot | src-tauri/src/lib.rs:246-296 | in a chronological history within its five-minute window, every rectangle of the scene starts inside the plotting area |
| Heatmap.LaterEntryStartsInMargin | src-tauri/src/lib.rs:246-250 | the columns are placed from the last entry's timestamp, not the largest: an entry stamped 186 ms or more after it starts past the plotting area |
| Heatmap.AxisLayout | src-tauri/src/lib.rs:306-329 | the axis has 11 ticks, 108 pixels apart from the bottom edge to the top, labelled from the lowest to the highest price in tenths of the range, with labels 5 pixels below their tick |
| Heatmap.BestBid | src-tauri/src/lib.rs:284 | the best bid is the highest buy price, or 0 for an empty side |
| Heatmap.BestAsk | src-tauri/src/lib.rs:285 | the best ask is the lowest sell price, or 0 for an empty side |
| Heatmap.MidPriceDefaults | src-tauri/src/lib.rs:284-286 | the mid line lies between the best bid and the best ask; an empty side counts as price 0, so one empty side puts it at half the other side's best price |

## Left out

- The WebSocket transport (connect, subscribe, receive), `tokio::spawn`, the
  mpsc channel, the `RwLock`, the Tauri `emit` call, `run()` and the logging
  calls are left out because they are I/O and concurrency
  (src-tauri/src/lib.rs:79-89, 100-117, 159-162, 190-200, 363-395).
  - The sleep becomes the returned wait.
  - Each pass of the reconnect loop becomes an `Attempt` outcome.
  - `ProcessMessages` stands for the processing loop. It does not call `Render`
    and emit the result per message, because `Render` is a pure function of
    the history.
- JSON decoding and `str::parse::<f64>` are left out. A message is given
  already decoded, and each level carries its parse results as `Option`s.
  Messages that fail to decode are dropped inside a session and do not show in
  the reconnect model. Text such as "NaN" or "inf" that parses to a
  non-finite float is not modelled.
- Floating point is left out: prices, sizes, opacities and the coordinate
  arithmetic are reals. There is no NaN, no infinity and no rounding.
- Reconnect.Step and Reconnect.Run use the corrected wait `Reconnect.Wait`
  rather than the shift as written. The two agree for every count below 64
  (`Reconnect.WaitAsWrittenBelow64`). From 64 consecutive failures on, the
  source instead waits `Reconnect.WaitAsWritten` in a release build and
  panics in a debug build; see "## Findings".
- Heatmap.Trunc models `as i32` as truncation toward zero. It does not model
  the cast's saturation at the i32 bounds, or NaN becoming 0.
- Heatmap.Row returns `None` when the price range is zero. The source then
  divides by zero (lines 255, 270 and 289) and gets NaN or an infinity, and
  the following i32 arithmetic is not modelled. With one empty side the mid
  price lies outside the price range, so an infinite quotient saturates the
  cast, and `1080 - i32::MIN` can then overflow.
- Heatmap.AxisLayout states the tick rows of exact arithmetic, 1080 - 108·i.
  In IEEE 754 doubles, 1.0 - 0.8 and 1.0 - 0.9 fall just below 0.2 and 0.1.
  The source therefore puts ticks 8 and 9 at rows 215 and 107 rather than 216
  and 108.
- The `{:.3}` label text, the `rgba(...)` colour strings, the SVG attributes
  and the serialisation by the `svg` crate are left out. A primitive records
  its fill kind, geometry, opacity and the price it stands for.
- Overflow of the i64 timestamp arithmetic (`timestamp - 300_000`,
  `ts - five_minutes_ago`) is not modelled. Neither is overflow of the i32
  retry count after 2^31 failures.
- `Vec::with_capacity(300)` is an allocation hint with no observable effect,
  and is left out.
- The commented-out "Large Bid/Ask" labels are not code and are left out
  (src-tauri/src/lib.rs:331-355).
- The level count field `n` is carried in `Level` but is never read, as in
  the source.

## Findings

| source | as written | input that shows it | evidently intended | confidence | as-written member | corrected member |
|---|---|---|---|---|---|---|
| src-tauri/src/lib.rs:96 | `std::cmp::min(1 << retry_count, 30)` shifts a 64-bit `1` by the unbounded retry count. From 64 consecutive failures on, a debug build panics on the overflowing shift. A release build reduces the shift amount modulo 64. It then waits 1 second at count 64 and 2, 4, 8 and 16 seconds at counts 65 to 68, instead of 30. The pattern repeats every 64 counts. | 64 consecutive connection failures (a feed down for about half an hour); the 65th pass computes `1 << 64` | the wait stays at the 30-second cap for every count from 5 on | not executed | Reconnect.WaitAsWritten (with Reconnect.WaitAsWrittenWrapsAt64) | Reconnect.Wait (with Reconnect.WaitSchedule) |
