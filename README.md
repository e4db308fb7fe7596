# Claude-Stocks loaders in Dafny

This project models the two ingestion pipelines of Claude-Stocks. Both fill a Supabase database with daily stock bars and then compute "movers": tickers whose close moved by at least `min_percent` (15 by default).

- **The batch loader** (`stock_data_loader_fast.py`) chooses its ticker table (the database's active tickers, else a CSV file). It then works on batches of 150 tickers:
  - it downloads one day of bars per batch;
  - it drops tickers without data and normalises the rows into `stocks_daily` records;
  - it upserts the records in chunks of 800.
  When something was loaded, it computes the daily movers over `[target-4, target]` and the weekly movers over `[target-10, target]`. Otherwise it exits with status 1.
- **The per-ticker loader** (`stock_data_loader.py`, class `StockDataLoader`):
  - fetches each ticker's latest bar with up to 3 attempts and exponential backoff;
  - upserts each bar and counts successes and failures;
  - computes the daily movers over `[today-2, today-1]` and the weekly movers over `[today-10, today]`, without a guard against a zero or missing previous close.
  It also reads ticker files and fills the `tickers` table in batches of 50.

## How the model is built

- **Values:**
  - Dates are day numbers (`int`) and prices are exact `real`s.
  - A NaN or missing value is `None`.
  - `round(x, 2)` is round-half-to-even on exact reals (`Records.Round2`).
- **The database** is a class (`Store.Database`). It has four maps: `stocks_daily` keyed by `(ticker, date)`, `daily_movers` keyed by `(ticker, date)`, `weekly_movers` keyed by `(ticker, week_end_date)`, and `tickers` keyed by `ticker`.
  - An upsert inserts or replaces rows by key (`Store.UpsertAll`).
  - Every write request has a number. The request fails, and leaves its table unchanged, when its number is in the set `rejected`. This stands in for a Supabase error; `Store.Accepted` picks out the writes that went through.
  - A range query (`SelectBars`) raises when its date range is in the set `refusedSelects`, and otherwise returns the stored bars of that range in no particular order. Each run selects each of its windows once, so a set of ranges can express any pattern of failed selects within a run.
- **The network** and the clock are parameters:
  - `downloads(k)` is what `yf.download` produced for batch `k`;
  - `history(ticker, attempt, start, end)` and `info(ticker, attempt)` are the replies of `stock.history` and `stock.info`;
  - the target date and "now" are day numbers;
  - the backoff sleeps are returned as a sequence of delays.
- **The mover tests are stated declaratively** on the window as a set of bars (module `Movers`):
  - `IsLastTwo`: the latest bar of a ticker and the latest one before it.
  - `IsWeekEnds`: the earliest and the latest bar of a ticker.
  - `DailyMoversOf` and `WeeklyMoversOf` say that the movers computed are exactly the movers of those bars, without repetition, in ascending ticker order.
  - The loops that sort each ticker's group and take its endpoints are proved against these predicates.
- **Chunked writes** iterate over the list of slices `Chunks(xs, size)`, the slices `xs[i:i + size]` that the source's offset loop takes in turn.
- **The per-ticker loader's unguarded division** is modelled by its float outcome (`Loader.PercentQuotient`: finite, infinite or NaN). The unguarded tests find an infinite change exactly where a zero previous close meets a nonzero current one, and otherwise decide as the batch loader's guarded tests. A mover record cannot hold an infinite change, so the loops that collect movers, and the methods above them, require that the windows they read have no such pair.

## Model

| member | source | states |
|---|---|---|
| Text.SortedUnique | stock_data_loader_fast.py:179 | the result is strictly ascending and holds exactly the names of its input: the order in which tickers are visited |
| Text.Upper | stock_data_loader.py:79 | same length, every character uppercased in place |
| Text.UpperIsUpper | stock_data_loader.py:142 | an uppercased ticker has no lowercase letter, and uppercasing twice changes nothing |
| Text.Strip | stock_data_loader.py:62 | the result is a contiguous slice of the input with only whitespace cut on either side, and it neither starts nor ends with whitespace; whitespace is the set of Python's `str.isspace` |
| Text.StripIdempotent | stock_data_loader_fast.py:113 | stripping a stripped ticker leaves it unchanged |
| Chunking.ChunksFlatten | stock_data_loader_fast.py:266-267 | the chunks concatenate back to the input, in order |
| Chunking.ChunksBounded | stock_data_loader_fast.py:266-267 | every chunk is non-empty and holds at most `chunk_size` items |
| Chunking.ChunksCount | stock_data_loader_fast.py:446 | there are `ceil(n / size)` chunks |
| Chunking.ChunksPrefix | stock_data_loader_fast.py:266-276 | the chunks before the current offset concatenate to the input before that offset |
| Chunking.ChunkTotalMonotone | stock_data_loader_fast.py:449-466 | the number of chunk writes of the first `k` lists grows with `k` |
| Records.TruncToInt | stock_data_loader_fast.py:231 | `astype('int64')` / `int()` truncates toward zero: the integer is below the value in magnitude by less than 1, and a nonzero result has the value's sign |
| Records.PercentChange | stock_data_loader_fast.py:315 | the percent change `pct` applied to the old close gives the new close |
| Records.Round2 | stock_data_loader_fast.py:323 | the result has two decimals, is within 0.005 of the input, and a tie goes to the even last digit |
| Records.Round2Exact | stock_data_loader_fast.py:323 | a value with two decimals is its own rounding |
| Movers.SortByDate | stock_data_loader_fast.py:302 | the result is sorted by date and is a permutation of the input |
| Movers.SortedGroup | stock_data_loader_fast.py:302 | a ticker's group sorted by date holds exactly the ticker's bars of the window, once each |
| Movers.LastTwoOfSorted | stock_data_loader_fast.py:307-310 | the last two rows of the sorted group are the ticker's latest bar and the latest one before it |
| Movers.WeekEndsOfSorted | stock_data_loader_fast.py:373-376 | the first and last rows of the sorted group are the ticker's earliest and latest bars |
| Movers.LastTwoUnique | stock_data_loader_fast.py:307-310 | with unique `(ticker, date)` keys, a ticker has one pair of last two bars |
| Movers.WeekEndsUnique | stock_data_loader_fast.py:373-376 | with unique keys, a ticker has one earliest and one latest bar |
| Movers.LastTwoNeedsTwoBars | stock_data_loader_fast.py:304-305 | a ticker with last two bars has at least two bars in the window |
| Movers.NoDuplicateKeysMeaning | stock_data_loader_fast.py:269-272 | rows with distinct `(ticker, date)` keys are distinct, and a key determines its row |
| Store.UpsertContents | stock_data_loader_fast.py:269-272 | after an upsert the keys are the old ones plus the rows' keys; each written key holds a row with that key, the last row wins, and every other key keeps its value |
| Store.UpsertLastWins | stock_data_loader_fast.py:269-272 | after an upsert, the key of the last row holds that row |
| Store.UpsertUntouched | stock_data_loader_fast.py:269-272 | every stored key that no row names keeps its value |
| Store.UpsertAppend | stock_data_loader_fast.py:266-272 | upserting two chunks in turn equals upserting their concatenation |
| Store.UpsertIdempotent | stock_data_loader_fast.py:269-272 | upserting the same rows twice gives the same store as upserting them once |
| Store.UpsertOutside | stock_data_loader_fast.py:269-272 | an upsert changes no key outside the rows' keys |
| Store.UpsertCongruent | stock_data_loader_fast.py:269-272 | two stores that agree outside the rows' keys agree after the upsert |
| Store.UpsertWellKeyed | stock_data_loader_fast.py:269-272 | an upsert keeps every row under its own key, and every value comes from the old store or the rows |
| Store.Accepted | stock_data_loader.py:240-241 | no more writes survive than were requested, and all survive when none is rejected |
| Store.AcceptedSnoc | stock_data_loader.py:233-241 | one more write survives exactly when its request number is not rejected |
| Store.AcceptedMembers | stock_data_loader.py:240-241 | every write that went through is one of the writes requested |
| Store.ChunkStopped | stock_data_loader_fast.py:266-276 | a refused chunk after the earlier lists were written stops the loop as `StoppedAt` says, and then some request of the whole loop was refused |
| Store.ChunkAdvanced | stock_data_loader_fast.py:266-276 | a list whose chunk requests were all accepted extends the loaded records and the store by that list, and the write count by its chunks |
| Store.Database.UpsertStocksDaily | stock_data_loader_fast.py:269-272 | one write request: it succeeds iff its number is not rejected, and then `stocks_daily` is upserted; the other tables are unchanged |
| Store.Database.UpsertDailyMover | stock_data_loader_fast.py:331-334 | upserts one daily mover on `(ticker, date)` when its request is not rejected |
| Store.Database.UpsertWeeklyMover | stock_data_loader_fast.py:401-404 | upserts one weekly mover on `(ticker, week_end_date)` when its request is not rejected |
| Store.Database.UpsertTickers | stock_data_loader.py:103 | upserts a batch of ticker rows on `ticker` when its request is not rejected |
| Store.Database.SelectBars | stock_data_loader_fast.py:286-290 | fails iff the request is refused; otherwise returns exactly the stored bars dated in `[lo, hi]`, with no two sharing a key |
| Store.WriteDailyMovers | stock_data_loader_fast.py:328-336 | every mover is upserted on its own; a failed upsert is skipped and the rest are still written |
| Store.WriteWeeklyMovers | stock_data_loader.py:311-319 | every weekly mover is upserted on its own; a failed upsert is skipped and the rest are still written |
| TickerCsv.FindTickerColumn | stock_data_loader_fast.py:103-111 | the column chosen by the heuristic exists iff the header is non-empty, and is a valid column index |
| TickerCsv.TickerColumnChoice | stock_data_loader.py:52-55 | the first of `ticker, Ticker, symbol, Symbol, TICKER, SYMBOL` present in the header is chosen, at its first position |
| TickerCsv.TickerColumnFallback | stock_data_loader.py:57-59 | with none of those names present, the first column is chosen |
| TickerCsv.FindTickerColumnTotal | stock_data_loader_fast.py:109-110 | a column is found iff the header is non-empty |
| TickerCsv.ColumnTickersFromCells | stock_data_loader.py:62 | every ticker read is the stripped text of a non-empty cell of the column; there are as many tickers as rows iff no cell is blank |
| TickerCsv.ColumnTickersCount | stock_data_loader.py:62 | the number of tickers read is the number of rows less the number of blank cells in the column |
| TickerCsv.ColumnTickersSound | stock_data_loader_fast.py:113 | every ticker read is the stripped text of some non-blank cell of the column |
| TickerCsv.ColumnTickersAppend | stock_data_loader.py:62 | reading the column of two blocks of rows gives the tickers of the first block followed by those of the second |
| TickerCsv.ColumnTickersAt | stock_data_loader.py:62 | the non-blank cell of row `r` is read, stripped, at position `r` less the blank cells above it |
| TickerCsv.ColumnTickersInOrder | stock_data_loader_fast.py:113 | every non-blank cell of the column is read, stripped, in row order (`InRowOrder`) |
| FastLoader.FetchBatchData | stock_data_loader_fast.py:158-211 | the download filter computed by the loop equals the specification `Fetched`: empty for no tickers or a failed download; otherwise the multi-ticker or single-ticker filter |
| FastLoader.KeptMembers | stock_data_loader_fast.py:179-190 | a row is kept iff it belongs to a listed ticker whose data has some close, and is tagged with that ticker |
| FastLoader.FetchedMulti | stock_data_loader_fast.py:177-193 | on a multi-ticker download, the rows kept are exactly the tagged rows of the groups with some close (so an empty or all-NaN group contributes nothing) |
| FastLoader.FetchedSingle | stock_data_loader_fast.py:194-201 | on a single-ticker download, every row is tagged with the batch's only ticker, and the rows are all kept or, when no close is present, all dropped |
| FastLoader.PrepareRecords | stock_data_loader_fast.py:213-257 | the record-building loop equals the specification `Prepared` |
| FastLoader.PreparedSound | stock_data_loader_fast.py:221-251 | every record has a close and comes from a row with its ticker and date. Its name is the mapped name, or the ticker when unmapped. Its opens, highs and lows are the numeric cells or None, its volume is the truncated number or 0, and its market cap is None |
| FastLoader.PreparedComplete | stock_data_loader_fast.py:234-252 | every row with a ticker and a numeric close yields such a record |
| FastLoader.PreparedRecords | stock_data_loader_fast.py:213-257 | both of the above, and no more records than rows |
| FastLoader.ReloadIdempotent | stock_data_loader_fast.py:259-272 | upserting the same prepared records twice gives the store of upserting them once |
| FastLoader.UpsertRecords | stock_data_loader_fast.py:259-276 | with no failure, the store is the input upserted and one write per chunk was made. With a failure, the result names the first chunk that failed, whose request was rejected; exactly the chunks before it are written, and no write follows it. There is no failure iff no chunk's request was rejected |
| Movers.DailyChange | stock_data_loader_fast.py:312-326 | a mover exists iff the previous close is present and nonzero, the current close is present, and `abs(pct) >= min_percent`; it then carries the latest bar's ticker, date and volume, both closes and the rounded change |
| Movers.WeeklyChange | stock_data_loader_fast.py:378-396 | a mover exists iff the span is within `[5, 9]` days, the start close is present and nonzero, the end close is present, and `abs(pct) >= min_percent`; it then carries both dates, both closes and the rounded change |
| FastLoader.LatestDailyMover | stock_data_loader_fast.py:302-326 | the per-ticker step yields exactly the daily change of the ticker's last two bars, and nothing for a ticker with fewer than two |
| FastLoader.WeekEndsMover | stock_data_loader_fast.py:368-396 | the per-ticker step yields the weekly change of the ticker's first and last bars when it has at least 5 bars, and nothing otherwise |
| Movers.DailyLoopStep | stock_data_loader_fast.py:301-326 | one turn of the ticker loop keeps its invariant: the movers found so far are sound, cover the tickers visited, and are in ascending order before the tickers still to visit |
| Movers.WeeklyLoopStep | stock_data_loader_fast.py:367-396 | the same invariant for the weekly loop |
| Movers.DailyMoversFromLoop | stock_data_loader_fast.py:301 | once every ticker of the window has been visited, the invariant gives `DailyMoversOf` |
| Movers.WeeklyMoversFromLoop | stock_data_loader_fast.py:367 | once every ticker has been visited, the invariant gives `WeeklyMoversOf` |
| FastLoader.DetectDailyMovers | stock_data_loader_fast.py:296-326 | the movers are exactly the daily movers of the window's tickers, with no repetition, in ascending ticker order |
| FastLoader.DetectWeeklyMovers | stock_data_loader_fast.py:362-396 | the movers are exactly the weekly movers of the window's tickers (at least 5 bars, span 5 to 9 days), with no repetition, in ascending ticker order |
| FastLoader.CalculateDailyMovers | stock_data_loader_fast.py:278-343 | when the select of `[target-4, target]` raises, no mover is found or written. Otherwise the movers are those of the stored bars dated in that window; each is upserted on its own, a failed upsert being skipped. `stocks_daily` is unchanged |
| FastLoader.CalculateWeeklyMovers | stock_data_loader_fast.py:345-413 | when the select of `[target-10, target]` raises, no mover is found or written. Otherwise the movers are those of the stored bars dated in that window, upserted one by one as above |
| FastLoader.OneMoverAtDefaultThreshold | stock_data_loader_fast.py:317 | at 15%, a ticker going from 100 to 120 is the one mover (+20.0) and one going from 100 to 105 is not |
| FastLoader.LoadTickersFromCsv | stock_data_loader_fast.py:94-132 | returns the corrected ticker table `TickerTable` (see Findings); `CorrectionAgrees` says when it exists |
| FastLoader.AlignedTickers | stock_data_loader_fast.py:113-125 | the corrected table has one entry per ticker read, with that ticker and a name. Without a name column the name is the ticker. With one, and no blank ticker cell, the names are the name cells, falling back to the raw ticker cell |
| FastLoader.TickerTableAsWritten | stock_data_loader_fast.py:113-125 | the loader as written: the ticker list drops blank cells but the name list does not, and lists of different lengths make the table constructor raise, hence an exit |
| FastLoader.BlankTickerCellAbortsLoad | stock_data_loader_fast.py:113-125 | a file with a name column and one blank ticker cell makes the loader as written exit, while the corrected one reads its one ticker |
| FastLoader.CorrectionAgrees | stock_data_loader_fast.py:99-132 | where the as-written loader produces a table, the corrected one produces the same table. The corrected one fails only on an unreadable file or an empty header. The two differ exactly when a name column sits beside a blank ticker cell |
| FastLoader.NameMapKeys | stock_data_loader_fast.py:441 | the ticker map's keys are exactly the tickers of the table |
| FastLoader.NameMapLastWins | stock_data_loader_fast.py:441 | a ticker listed twice maps to the name of its last occurrence |
| FastLoader.BatchesPartition | stock_data_loader_fast.py:446-451 | the batches partition the ticker list in order. There are `ceil(n / 150)` of them, each non-empty and at most 150 long |
| FastLoader.ExitStatus | stock_data_loader_fast.py:488-493 | the status is 0 iff the run completed, and 1 otherwise |
| FastLoader.LoadBatch | stock_data_loader_fast.py:456-472 | the batch's records are those prepared from its filtered download. With every chunk request accepted they are upserted, one write per chunk. Otherwise the first refused chunk is named: the requests before it were accepted, its own was the last one issued, and the store holds exactly the earlier chunks' records. The movers tables are unchanged |
| FastLoader.LoadBatchAt | stock_data_loader_fast.py:449-472 | turn `k` of the batch loop loads batch `k` with its download, as above, and its records are entry `k` of the run's schedule |
| FastLoader.LoadBatches | stock_data_loader_fast.py:445-473 | there is no failure iff no chunk request of any batch was refused. Then `total_records` is the number of records of all batches, the store is all of them upserted in batch order, and one write per chunk was made. A failure stops the loop at the first refused chunk (`StoppedAt`): the earlier batches and the earlier chunks of its batch are written, and no request follows the refused one. The movers tables are unchanged |
| FastLoader.LoadAndReport | stock_data_loader_fast.py:440-493 | with the ticker table chosen: the run fails iff some chunk request was refused, and then stops as `StoppedAt` says. Otherwise the store holds all the loaded records, and the run completes iff some record was loaded. A completed run computes the movers over both windows at 15%, none for a window whose select raised (`MoversFound`), and writes them after the chunk writes (`MoversWritten`); any other run leaves the movers tables unchanged |
| FastLoader.FinishRun | stock_data_loader_fast.py:476-493 | a refused chunk ends the run as failed; otherwise the run completes iff `total_records > 0`, and only then are the movers computed (`MoversFound`) and written; `stocks_daily` is unchanged |
| FastLoader.ChooseTickers | stock_data_loader_fast.py:428-436 | the ticker table is the database's rows when there are any, else the table the corrected `LoadTickersFromCsv` reads from the file (see Findings) |
| FastLoader.ScheduleOf | stock_data_loader_fast.py:449-466 | the schedule of a run gives each batch the records prepared from its own download with the run's name map |
| FastLoader.RunLoader | stock_data_loader_fast.py:415-493 | the run (with the file read by the corrected `LoadTickersFromCsv`, see Findings) exits without tickers iff neither the database nor the file gives a table, and then nothing is written. Otherwise the batches are loaded on the schedule of the chosen table: the run fails iff some chunk request was refused, and then stops as `StoppedAt` says; else the store holds all loaded records, and it completes iff some record was loaded. A completed run computes the movers over both windows at 15%, none for a window whose select raised, and writes them after the chunk writes; any other run leaves the movers tables unchanged |
| Loader.TryFetch | stock_data_loader.py:115-154 | an attempt returns None iff the history is empty; it fails iff `history` raises, or the history is non-empty and `info` raises or the last volume is NaN. A record carries the uppercased ticker, the long name, else the short name, else the ticker, the last row's date, prices and truncated volume, and the reply's market cap |
| Loader.RetrySchedule | stock_data_loader.py:114-162 | at most `max_retries` attempts are made. After failed attempt `j` the loop sleeps `2^j`, and only when another attempt follows. The first attempt that returns decides the result, and the last failure returns None |
| Loader.StockDataLoader.FetchStockData | stock_data_loader.py:112-162 | the retry loop equals the retry specification. The default request day is yesterday. The delays and the result follow the schedule above, and a record has the uppercased ticker |
| Loader.RetryKeepsNonZero | stock_data_loader.py:148 | a fetched record's close is one of the history's closes, so it is nonzero when they all are |
| Loader.PercentQuotient | stock_data_loader.py:219 | the float quotient is finite iff both closes are present and the previous one is nonzero, and then applying it to the previous close gives the current one; it is infinite iff the previous close is zero and the current one is present and nonzero; NaN otherwise |
| Loader.UnguardedDailyChange | stock_data_loader.py:214-230 | the per-ticker loader's daily test has an infinite change iff the previous close is zero and the current one is not; otherwise it finds a mover iff the batch loader's guarded test does, and the same mover |
| Loader.UnguardedWeeklyChange | stock_data_loader.py:286-308 | the weekly test (span first, then the change) has an infinite change iff the span is within `[5, 9]` and the start close is zero while the end close is not; otherwise it agrees with the batch loader's guarded test |
| Loader.NonZeroWindows | stock_data_loader.py:219 | with no zero close stored, no window divides by zero |
| Loader.NonZeroClosesSuffice | stock_data_loader.py:219 | with no zero close stored and none in any history, both windows of `run_daily_update` are free of a division by zero once the fetched bars are written, whichever writes are rejected |
| Loader.PresentMembers | stock_data_loader.py:340-342 | every bar fetched is one of the fetch results |
| Loader.LatestDailyMover | stock_data_loader.py:207-230 | the per-ticker step gives the unguarded test of the ticker's last two bars, and nothing for a ticker with fewer than two. A finite mover is sound and is the batch loader's mover; an infinite change is possible only where the window divides by zero |
| Loader.WeekEndsMover | stock_data_loader.py:279-308 | the per-ticker step gives the unguarded weekly test of the ticker's first and last bars when it has at least 5, and nothing otherwise; a finite mover is sound and is the batch loader's mover; an infinite change only where the window divides by zero |
| Loader.DetectDailyMovers | stock_data_loader.py:200-230 | the movers are exactly the daily movers of the window, ascending, without repetition |
| Loader.DetectWeeklyMovers | stock_data_loader.py:272-308 | the movers are exactly the weekly movers of the window, ascending, without repetition |
| Loader.StockDataLoader.CalculateAndInsertDailyMovers | stock_data_loader.py:176-248 | when the select of `[today-2, today-1]` raises, no mover is found or written. Otherwise the movers are those of the stored bars dated in that window, each upserted on its own, a failed upsert being skipped |
| Loader.StockDataLoader.CalculateAndInsertWeeklyMovers | stock_data_loader.py:250-326 | when the select of `[today-10, today]` raises, no mover is found or written. Otherwise the movers are those of the stored bars dated in that window, each upserted on its own |
| Loader.CsvTickersMeaning | stock_data_loader.py:46-67 | an unreadable file or an empty header yields no tickers. Otherwise there is one ticker per non-blank cell of the chosen column, in row order, each the stripped cell, and every ticker comes from such a cell |
| Loader.StockDataLoader.LoadTickersFromCsv | stock_data_loader.py:46-67 | returns the tickers of the chosen column |
| Loader.TickerRecords | stock_data_loader.py:73-93 | one row per ticker, in order, each built from that ticker's info lookup |
| Loader.TickerRecordsShape | stock_data_loader.py:78-92 | every row is uppercased and active. A failed lookup gives the ticker as name and "Unknown" as sector. A lookup with neither name falls back to the ticker |
| Loader.TickerBatches | stock_data_loader.py:97-100 | the batches of 50 rows concatenate to all the rows; there are `ceil(n / 50)` of them, each at most 50 long |
| Loader.AcceptedBatchStep | stock_data_loader.py:99-106 | one more batch changes the table iff its write was not rejected |
| Loader.UpsertTickerBatches | stock_data_loader.py:97-106 | one write per batch; the table is every accepted batch upserted in order, and a failed batch does not stop the later ones |
| Loader.StockDataLoader.InsertTickersToDb | stock_data_loader.py:69-110 | the rows built from the lookups are written in batches of 50, failed batches skipped; only `tickers` changes |
| Loader.StockDataLoader.InsertStockData | stock_data_loader.py:164-174 | one write of the bar; a failure is swallowed and leaves `stocks_daily` unchanged |
| Loader.StockDataLoader.FetchAndInsert | stock_data_loader.py:338-344 | the bar fetched with the defaults (yesterday, 3 attempts) is written when there is one, with one write request, and only then; the other tables are unchanged |
| Loader.FetchesAt | stock_data_loader.py:335-338 | entry `i` of the fetches is the retried fetch of ticker `i` |
| Loader.LoadStep | stock_data_loader.py:338-344 | one ticker's turn extends the store by its accepted bar, if any, so the store stays the bars fetched so far upserted in order; the count of fetched bars grows by one iff a bar was fetched |
| Loader.StockDataLoader.FetchAndInsertAll | stock_data_loader.py:332-347 | `successful + failed` is the number of tickers and `successful` the number of bars fetched; the store is those bars upserted in order, less the rejected writes |
| Loader.StockDataLoader.RunDailyUpdate | stock_data_loader.py:328-363 | the counters and the store as above. With no success no mover is computed, and the movers tables and the write count are unchanged. Otherwise both windows' movers are computed at 15%, none for a window whose select raised (`UpdateMoversFound`), and written after the bar writes (`MoversWritten`) |
| Loader.StockDataLoader.CalculateMovers | stock_data_loader.py:357-363 | the daily movers, then the weekly movers, are computed and written iff some ticker was fetched, none for a window whose select raised; `stocks_daily` is unchanged |

## Left out

- `query_stocks.py` is not part of this model: each of its methods only builds a server-side query.
- `get_tickers_from_db` is a parameter:
  - its paginated query is given as the list of rows it returned (`dbTickers`);
  - an empty list stands for its exit, which the bare `except:` of `main` catches before falling back to the file.
- `get_last_market_day` is left out. It probes the network, so the target date is a parameter.
- The `calculate_percent_changes` remote procedure call is left out (its SQL is not in the repository), and so is Supabase client creation.
- The network calls are oracle parameters. `yf.download`, `stock.history` and `stock.info` are modelled this way. The `.execute()` of a write fails iff its request number is in `rejected`, and that of a range select iff its date range is in `refusedSelects`. yfinance's threaded download is not modelled.
- `time.sleep` is modelled only as the returned backoff delays. The per-ticker, per-batch and checkpoint pauses of `insert_tickers_to_db` and `run_daily_update` are not modelled, so `batch_delay` and `batch_size` have no counterpart.
- Logging and `created_at` timestamps are not modelled. An exit is a returned outcome (`FastLoader.ExitStatus`).
- `stock_data_loader.py`'s `main` is glue and is not modelled as a member; its steps are `LoadTickersFromCsv` and `RunDailyUpdate`.
- Floating point is replaced by exact reals:
  - `Records.Round2` rounds exact reals half-to-even, as Python does on the binary value only approximately;
  - parsing is an `Option`, and NaN and inf are not values;
  - `Records.PercentChange` states the exact ratio.
- Loader.DetectDailyMovers, Loader.DetectWeeklyMovers, the two `CalculateAndInsert` methods, Loader.StockDataLoader.CalculateMovers and Loader.StockDataLoader.RunDailyUpdate require that no zero previous close meets a nonzero current one in the windows they read (`DailyDivisible`, `WeeklyDivisible`; for `RunDailyUpdate`, on the store as it is once the fetched bars are written). With such a pair the source appends a mover with an infinite change, which a `DailyMover` or `WeeklyMover` cannot hold. `Loader.LatestDailyMover` and `Loader.WeekEndsMover` have no such requirement and report that case as `InfiniteMover`; `Loader.NonZeroClosesSuffice` gives a sufficient condition.
- Loader.PercentQuotient does not carry the sign of an infinite quotient; the threshold test does not need it.
- Text.Upper uppercases ASCII letters only; Python's `str.upper` is Unicode-aware. Text.Strip cuts the characters of Python's `str.isspace`.
- Store.UpsertAll lets the later row win when one upsert request holds two rows with the same key. PostgreSQL rejects such a batch. The batch loader never builds one from a well-formed download.
- Store.Database.UpsertTickers and Loader.StockDataLoader.InsertTickersToDb: a batch of 50 rows holds two rows for one ticker when the ticker file lists it twice, or in two letter cases, since the rows are uppercased. The model then lets the later row win, where PostgreSQL rejects the whole batch, which the source logs and skips.
- Loader.InfoName treats a key present with a `None` value like an absent key. In the source, `info.get` would then return `None`.
- FastLoader.Download names each ticker's group once. A download with two groups of one name is not modelled.
- FastLoader.UpsertRecords and Loader.UpsertTickerBatches require a chunk size above 0: the source's `range` raises on a step of 0, and its callers pass 800 and 50.
- FastLoader.CalculateDailyMovers, FastLoader.CalculateWeeklyMovers, Loader.StockDataLoader.CalculateAndInsertDailyMovers and Loader.StockDataLoader.CalculateAndInsertWeeklyMovers model their outer `try`/`except` only for a failed select (`Store.Database.SelectBars` returns `None`). No other statement of their bodies can raise in the model: stored volumes are integers, closes are present or `None`, and a failed mover upsert is caught inside the loop.
- Store.Database.SelectBars returns the whole window in one response. A server-side cap on the rows of one response, which the paged ticker query of `get_tickers_from_db` points to, is not modelled; with such a cap the unpaged select would see only part of the window.
- Loader.TryFetch does not model a `float()` or `int()` failure other than a NaN volume, nor a non-integer `marketCap`.
- FastLoader.LoadTickersFromCsv and Loader.CsvTickers take the file as an already parsed table or "unreadable". CSV parsing itself is not modelled.

## Findings

| source | as written | input that shows it | evidently intended | confidence | as-written member | corrected member |
|---|---|---|---|---|---|---|
| stock_data_loader_fast.py:113-125 | the ticker list drops blank ticker cells but the name list keeps one entry per row, so the table constructor receives lists of different lengths, raises, and the loader exits with status 1 | a file with header `ticker,name` and rows `AAPL,Apple` and `,Orphan` | drop a row with a blank ticker cell together with its name, giving the table `[(AAPL, Apple)]` | not executed | FastLoader.TickerTableAsWritten, FastLoader.BlankTickerCellAbortsLoad | FastLoader.TickerTable, FastLoader.CorrectionAgrees |
