/**
 * The per-ticker loader (`stock_data_loader.py`): `StockDataLoader` fetches
 * each ticker's latest bar with retries, upserts it, and then computes the
 * daily and weekly movers with the percent change left unguarded.
 */
module Loader {
  import opened Wrappers
  import opened Records
  import opened Chunking
  import Text
  import opened Movers
  import opened Store
  import TickerCsv

  // ---------------------------------------------------------------------------
  // The yfinance replies
  // ---------------------------------------------------------------------------

  /** One row of `stock.history(...)`; a NaN price or volume is `None`. */
  datatype HistoryRow = HistoryRow(date: Date, open: Option<real>, high: Option<real>, low: Option<real>,
                                   close: Option<real>, volume: Option<real>)

  /** `stock.history(start, end)`: it raised, or returned these rows in date order. */
  datatype HistoryReply = HistoryRaised | History(rows: seq<HistoryRow>)

  /** `stock.info`: it raised, or returned a dictionary with these keys present (`None`: absent). */
  datatype InfoReply =
    | InfoRaised
    | Info(longName: Option<string>, shortName: Option<string>, sector: Option<string>, marketCap: Option<int>)

  /** `info.get('longName', info.get('shortName', ticker))`. */
  function InfoName(longName: Option<string>, shortName: Option<string>, ticker: string): string
  {
    if longName.Some? then longName.value else if shortName.Some? then shortName.value else ticker
  }

  /** How one pass through the `try` block of `fetch_stock_data` ends. */
  datatype Attempt = Returned(data: Option<DailyBar>) | Failed

  /**
   * One attempt: an empty history returns `None` at once; otherwise the last
   * row becomes the record, and a raise from `history`, from `info` or from
   * `int()` on a NaN volume makes the attempt fail.
   */
  function TryFetch(ticker: string, history: HistoryReply, info: InfoReply): (a: Attempt)
    ensures a == Returned(None) <==> history.History? && history.rows == []
    ensures a.Failed? <==>
      || history.HistoryRaised?
      || (history.rows != [] && (info.InfoRaised? || history.rows[|history.rows| - 1].volume.None?))
    ensures a.Returned? && a.data.Some? ==>
      var last := history.rows[|history.rows| - 1];
      && history.History? && history.rows != [] && info.Info? && last.volume.Some?
      && a.data.value.ticker == Text.Upper(ticker)
      && a.data.value.companyName == InfoName(info.longName, info.shortName, ticker)
      && a.data.value.date == last.date
      && a.data.value.open == last.open && a.data.value.high == last.high && a.data.value.low == last.low
      && a.data.value.close == last.close
      && a.data.value.volume == TruncToInt(last.volume.value)
      && a.data.value.marketCap == info.marketCap
  {
    match history
    case HistoryRaised => Failed
    case History(rows) =>
      if rows == [] then Returned(None)
      else
        match info
        case InfoRaised => Failed
        case Info(longName, shortName, _, marketCap) =>
          var last := rows[|rows| - 1];
          if last.volume.None? then Failed
          else
            Returned(Some(DailyBar(Text.Upper(ticker), InfoName(longName, shortName, ticker), last.date,
                                   last.open, last.high, last.low, last.close,
                                   TruncToInt(last.volume.value), marketCap)))
  }

  /** The day the request is about: `date`, else yesterday. */
  function RequestDay(date: Option<Date>, now: Date): Date
  {
    if date.Some? then date.value else now - 1
  }

  /** Attempt `k` for `ticker`, over the history window `[day - 5, day + 1)`. */
  function AttemptAt(ticker: string, day: Date, history: (string, nat, Date, Date) -> HistoryReply,
                     info: (string, nat) -> InfoReply, k: nat): Attempt
  {
    TryFetch(ticker, history(ticker, k, day - 5, day + 1), info(ticker, k))
  }

  function Pow2(k: nat): (p: nat)
    ensures p >= 1
  {
    if k == 0 then 1 else 2 * Pow2(k - 1)
  }

  /** The result of `fetch_stock_data`, and the backoff delays (in seconds) it slept. */
  datatype FetchResult = FetchResult(data: Option<DailyBar>, delays: seq<nat>)

  /** The retry loop from attempt `k` on, with `delays` slept so far. */
  function RetryFrom(ticker: string, day: Date, maxRetries: int, history: (string, nat, Date, Date) -> HistoryReply,
                     info: (string, nat) -> InfoReply, k: nat, delays: seq<nat>): FetchResult
    decreases maxRetries - k
  {
    if k >= maxRetries then FetchResult(None, delays)
    else
      match AttemptAt(ticker, day, history, info, k)
      case Returned(x) => FetchResult(x, delays)
      case Failed =>
        if k < maxRetries - 1 then RetryFrom(ticker, day, maxRetries, history, info, k + 1, delays + [Pow2(k)])
        else FetchResult(None, delays)
  }

  /** What `fetch_stock_data(ticker, date, max_retries)` returns. */
  function FetchedData(ticker: string, day: Date, maxRetries: int, history: (string, nat, Date, Date) -> HistoryReply,
                       info: (string, nat) -> InfoReply): Option<DailyBar>
  {
    RetryFrom(ticker, day, maxRetries, history, info, 0, []).data
  }

  /**
   * The retry schedule: attempt `j` failed and was followed by a sleep of
   * `2^j` seconds for every recorded delay; the attempt after the last delay
   * decides the result, and it is the final attempt when it fails too. No
   * more than `maxRetries` attempts are made.
   */
  lemma {:induction false} RetrySchedule(ticker: string, day: Date, maxRetries: int,
                                         history: (string, nat, Date, Date) -> HistoryReply,
                                         info: (string, nat) -> InfoReply, k: nat, delays: seq<nat>)
    requires |delays| == k && (k == 0 || k < maxRetries)
    requires forall j :: 0 <= j < k ==> delays[j] == Pow2(j) && AttemptAt(ticker, day, history, info, j).Failed?
    ensures var r := RetryFrom(ticker, day, maxRetries, history, info, k, delays);
      && k <= |r.delays| && r.delays[..k] == delays
      && (forall j :: 0 <= j < |r.delays| ==> r.delays[j] == Pow2(j) && AttemptAt(ticker, day, history, info, j).Failed?)
      && (maxRetries <= 0 ==> r == FetchResult(None, []))
      && (maxRetries > 0 ==>
            && |r.delays| < maxRetries
            && match AttemptAt(ticker, day, history, info, |r.delays|)
               case Returned(x) => r.data == x
               case Failed => r.data.None? && |r.delays| == maxRetries - 1)
    decreases maxRetries - k
  {
    if k < maxRetries {
      match AttemptAt(ticker, day, history, info, k)
      case Returned(x) =>
      case Failed =>
        if k < maxRetries - 1 {
          var next := delays + [Pow2(k)];
          RetrySchedule(ticker, day, maxRetries, history, info, k + 1, next);
          var r := RetryFrom(ticker, day, maxRetries, history, info, k + 1, next);
          assert r.delays[..k] == r.delays[..k + 1][..k];
        }
    }
  }

  /** A history with no zero close. */
  predicate NoZeroClose(reply: HistoryReply)
  {
    reply.History? ==> forall j :: 0 <= j < |reply.rows| ==> reply.rows[j].close != Some(0.0)
  }

  /** A fetched bar carries the close of a history row, so it is nonzero when every history's is. */
  lemma {:induction false} RetryKeepsNonZero(ticker: string, day: Date, maxRetries: int,
                                             history: (string, nat, Date, Date) -> HistoryReply,
                                             info: (string, nat) -> InfoReply, k: nat, delays: seq<nat>)
    requires forall t, a, s, e :: NoZeroClose(history(t, a, s, e))
    ensures var r := RetryFrom(ticker, day, maxRetries, history, info, k, delays);
      r.data.Some? ==> r.data.value.close != Some(0.0)
    decreases maxRetries - k
  {
    if k < maxRetries {
      var reply := history(ticker, k, day - 5, day + 1);
      assert NoZeroClose(reply);
      if AttemptAt(ticker, day, history, info, k).Failed? && k < maxRetries - 1 {
        RetryKeepsNonZero(ticker, day, maxRetries, history, info, k + 1, delays + [Pow2(k)]);
      }
    }
  }

  // ---------------------------------------------------------------------------
  // Mover helpers without the zero guard
  // ---------------------------------------------------------------------------

  /** The float value of `((curr - prev) / prev) * 100`: a finite number, an infinity or NaN. */
  datatype Quotient = Finite(value: real) | Infinite | NaN

  /**
   * The percent change as floats compute it: a NaN close gives NaN, `x / 0.0`
   * is infinite for a nonzero `x` and NaN for `0 / 0`, and a nonzero previous
   * close gives the exact change.
   */
  function PercentQuotient(prev: Option<real>, curr: Option<real>): (q: Quotient)
    ensures q.Finite? <==> prev.Some? && curr.Some? && prev.value != 0.0
    ensures q.Finite? ==> prev.value + prev.value * q.value / 100.0 == curr.value
    ensures q.Infinite? <==> prev == Some(0.0) && curr.Some? && curr.value != 0.0
  {
    if prev.None? || curr.None? then NaN
    else if prev.value != 0.0 then Finite(PercentChange(prev.value, curr.value))
    else if curr.value == 0.0 then NaN
    else Infinite
  }

  /** `abs(q) >= minPercent` on floats: NaN fails every comparison and an infinity passes every finite bound. */
  predicate MeetsThreshold(q: Quotient, minPercent: real)
  {
    match q
    case Finite(v) => Abs(v) >= minPercent
    case Infinite => true
    case NaN => false
  }

  /** What the unguarded per-ticker test appends: nothing, a mover, or a mover whose change is infinite. */
  datatype MoverTest<M> = NoMover | Mover(mover: M) | InfiniteMover

  /** A zero previous close against a nonzero current one: the change is infinite. */
  predicate DividesByZero(prev: DailyBar, curr: DailyBar)
  {
    prev.close == Some(0.0) && curr.close.Some? && curr.close.value != 0.0
  }

  /**
   * The daily test of this loader, without the zero guard. An infinite change
   * passes the threshold; otherwise it decides exactly as the guarded test of
   * the batch loader.
   */
  function UnguardedDailyChange(prev: DailyBar, curr: DailyBar, minPercent: real): (t: MoverTest<DailyMover>)
    ensures t.InfiniteMover? <==> DividesByZero(prev, curr)
    ensures t.Mover? <==> DailyChange(prev, curr, minPercent).Some?
    ensures t.Mover? ==> t.mover == DailyChange(prev, curr, minPercent).value
  {
    var q := PercentQuotient(prev.close, curr.close);
    if !MeetsThreshold(q, minPercent) then NoMover
    else if q.Finite? then
      Mover(DailyMover(curr.ticker, curr.date, prev.close.value, curr.close.value, Round2(q.value), curr.volume))
    else InfiniteMover
  }

  /** The weekly test of this loader: the span first, then the change without the zero guard. */
  function UnguardedWeeklyChange(first: DailyBar, last: DailyBar, minPercent: real): (t: MoverTest<WeeklyMover>)
    ensures t.InfiniteMover? <==> 5 <= last.date - first.date <= 9 && DividesByZero(first, last)
    ensures t.Mover? <==> WeeklyChange(first, last, minPercent).Some?
    ensures t.Mover? ==> t.mover == WeeklyChange(first, last, minPercent).value
  {
    var days := last.date - first.date;
    if days < 5 || days > 9 then NoMover
    else
      var q := PercentQuotient(first.close, last.close);
      if !MeetsThreshold(q, minPercent) then NoMover
      else if q.Finite? then
        Mover(WeeklyMover(last.ticker, first.date, last.date, first.close.value, last.close.value, Round2(q.value)))
      else InfiniteMover
  }

  /** The finite mover a test found, if any. */
  function FiniteMover<M>(t: MoverTest<M>): Option<M>
  {
    if t.Mover? then Some(t.mover) else None
  }

  /** Every last-two pair of the window divides by a nonzero close. */
  ghost predicate DailyDivisible(bars: set<DailyBar>)
  {
    forall t, p, c :: IsLastTwo(bars, t, p, c) ==> !DividesByZero(p, c)
  }

  /** Every week the weekly test would divide over has a nonzero start close. */
  ghost predicate WeeklyDivisible(bars: set<DailyBar>)
  {
    forall t, f, l :: IsWeekEnds(bars, t, f, l) && |TickerBars(bars, t)| >= 5 && 5 <= l.date - f.date <= 9 ==>
      !DividesByZero(f, l)
  }

  /** The two windows `run_daily_update` computes movers over, taken on `now`, have no division by zero. */
  ghost predicate UpdateDivisible(store: map<BarKey, DailyBar>, now: Date)
  {
    DailyDivisible(Window(store, now - 2, now - 1)) && WeeklyDivisible(Window(store, now - 10, now))
  }

  /** No stored bar has a zero close. */
  ghost predicate StoreClosesNonZero(store: map<BarKey, DailyBar>)
  {
    forall b :: b in store.Values ==> b.close != Some(0.0)
  }

  lemma NonZeroWindows(store: map<BarKey, DailyBar>, lo: Date, hi: Date)
    requires StoreClosesNonZero(store)
    ensures DailyDivisible(Window(store, lo, hi))
    ensures WeeklyDivisible(Window(store, lo, hi))
  {
  }

  /**
   * With no zero close stored and none in any history, the windows of
   * `run_daily_update` have no division by zero once the fetched bars are
   * written, whichever writes are rejected.
   */
  lemma NonZeroClosesSuffice(store: map<BarKey, DailyBar>, tickers: seq<string>, now: Date,
                             history: (string, nat, Date, Date) -> HistoryReply, info: (string, nat) -> InfoReply,
                             start: nat, rejected: set<nat>)
    requires WellKeyed(store, BarKeyOf) && StoreClosesNonZero(store)
    requires forall t, a, s, e :: NoZeroClose(history(t, a, s, e))
    ensures UpdateDivisible(UpsertAll(store, Accepted(FetchedBars(tickers, now, history, info), start, rejected), BarKeyOf),
                            now)
  {
    var fetches := Fetches(tickers, now, history, info);
    var bars := Accepted(Present(fetches), start, rejected);
    AcceptedMembers(Present(fetches), start, rejected);
    PresentMembers(fetches);
    forall b | b in bars ensures b.close != Some(0.0) {
      var j :| 0 <= j < |fetches| && fetches[j] == Some(b);
      FetchesAt(tickers, now, history, info, j);
      RetryKeepsNonZero(tickers[j], now - 1, 3, history, info, 0, []);
    }
    UpsertWellKeyed(store, bars, BarKeyOf);
    NonZeroWindows(UpsertAll(store, bars, BarKeyOf), now - 2, now - 1);
    NonZeroWindows(UpsertAll(store, bars, BarKeyOf), now - 10, now);
  }

  /** The loop body of `calculate_and_insert_daily_movers` for ticker `t`: the unguarded test of its last two bars. */
  method LatestDailyMover(rows: seq<DailyBar>, t: string, minPercent: real) returns (test: MoverTest<DailyMover>)
    requires NoDuplicateKeys(rows)
    ensures test.Mover? ==> test.mover.ticker == t && DailySound(Members(rows), minPercent, test.mover)
    ensures forall p, c :: IsLastTwo(Members(rows), t, p, c) ==> UnguardedDailyChange(p, c, minPercent) == test
    ensures (forall p, c :: !IsLastTwo(Members(rows), t, p, c)) ==> test == NoMover
    ensures forall p, c :: IsLastTwo(Members(rows), t, p, c) ==> DailyChange(p, c, minPercent) == FiniteMover(test)
    ensures DailyDivisible(Members(rows)) ==> !test.InfiniteMover?
  {
    NoDuplicateKeysMeaning(rows);
    ghost var bars := Members(rows);
    var group := SortByDate(OfTicker(rows, t));
    SortedGroup(rows, t);
    if |group| < 2 {
      forall p, c ensures !IsLastTwo(bars, t, p, c) {
        if IsLastTwo(bars, t, p, c) {
          LastTwoNeedsTwoBars(bars, t, p, c);
        }
      }
      return NoMover;
    }
    var prev, curr := group[|group| - 2], group[|group| - 1];
    LastTwoOfSorted(bars, t, group);
    forall p, c | IsLastTwo(bars, t, p, c) ensures p == prev && c == curr {
      LastTwoUnique(bars, t, p, c, prev, curr);
    }
    test := UnguardedDailyChange(prev, curr, minPercent);
  }

  /** The loop body of `calculate_and_insert_weekly_movers` for ticker `t`: the unguarded test of its first and last bars. */
  method WeekEndsMover(rows: seq<DailyBar>, t: string, minPercent: real) returns (test: MoverTest<WeeklyMover>)
    requires NoDuplicateKeys(rows)
    ensures test.Mover? ==> test.mover.ticker == t && WeeklySound(Members(rows), minPercent, test.mover)
    ensures forall f, l :: IsWeekEnds(Members(rows), t, f, l) && |TickerBars(Members(rows), t)| >= 5 ==>
      UnguardedWeeklyChange(f, l, minPercent) == test
    ensures |TickerBars(Members(rows), t)| < 5 ==> test == NoMover
    ensures forall f, l :: IsWeekEnds(Members(rows), t, f, l) && |TickerBars(Members(rows), t)| >= 5 ==>
      WeeklyChange(f, l, minPercent) == FiniteMover(test)
    ensures WeeklyDivisible(Members(rows)) ==> !test.InfiniteMover?
  {
    NoDuplicateKeysMeaning(rows);
    ghost var bars := Members(rows);
    var group := SortByDate(OfTicker(rows, t));
    SortedGroup(rows, t);
    if |group| < 5 {
      return NoMover;
    }
    var first, last := group[0], group[|group| - 1];
    WeekEndsOfSorted(bars, t, group);
    forall f, l | IsWeekEnds(bars, t, f, l) ensures f == first && l == last {
      WeekEndsUnique(bars, t, f, l, first, last);
    }
    test := UnguardedWeeklyChange(first, last, minPercent);
  }

  /**
   * The ticker loop of `calculate_and_insert_daily_movers`. The source would
   * also append a mover with an infinite change, which a `DailyMover` cannot
   * hold, so no pair of the window may divide by zero.
   */
  method DetectDailyMovers(rows: seq<DailyBar>, minPercent: real) returns (movers: seq<DailyMover>)
    requires NoDuplicateKeys(rows) && DailyDivisible(Members(rows))
    ensures DailyMoversOf(Members(rows), minPercent, movers)
  {
    var tickers := Text.SortedUnique(TickerColumn(rows));
    movers := [];
    for k := 0 to |tickers|
      invariant DailyLoopInv(rows, minPercent, tickers, k, movers)
    {
      var test := LatestDailyMover(rows, tickers[k], minPercent);
      DailyLoopStep(rows, minPercent, tickers, k, movers, FiniteMover(test));
      if test.Mover? {
        movers := movers + [test.mover];
      }
    }
    DailyMoversFromLoop(rows, minPercent, tickers, movers);
  }

  /** The ticker loop of `calculate_and_insert_weekly_movers`, under the same proviso. */
  method DetectWeeklyMovers(rows: seq<DailyBar>, minPercent: real) returns (movers: seq<WeeklyMover>)
    requires NoDuplicateKeys(rows) && WeeklyDivisible(Members(rows))
    ensures WeeklyMoversOf(Members(rows), minPercent, movers)
  {
    var tickers := Text.SortedUnique(TickerColumn(rows));
    movers := [];
    for k := 0 to |tickers|
      invariant WeeklyLoopInv(rows, minPercent, tickers, k, movers)
    {
      var test := WeekEndsMover(rows, tickers[k], minPercent);
      WeeklyLoopStep(rows, minPercent, tickers, k, movers, FiniteMover(test));
      if test.Mover? {
        movers := movers + [test.mover];
      }
    }
    WeeklyMoversFromLoop(rows, minPercent, tickers, movers);
  }

  // ---------------------------------------------------------------------------
  // Ticker files and the tickers table
  // ---------------------------------------------------------------------------

  /** The tickers `load_tickers_from_csv` returns; a file that cannot be read gives none. */
  function CsvTickers(csv: TickerCsv.Csv): seq<string>
  {
    match csv
    case Unreadable => []
    case Table(header, rows) =>
      match TickerCsv.TickerColumnOf(header)
      case None => []
      case Some(col) => TickerCsv.ColumnTickers(rows, col)
  }

  /**
   * A file that cannot be read or has no column yields no tickers. Otherwise
   * there is one ticker per non-blank cell of the ticker column, in row order:
   * the cell of row `r` gives the stripped ticker at position `r` less the
   * number of blank cells above it, and every ticker comes from such a cell.
   */
  lemma CsvTickersMeaning(csv: TickerCsv.Csv)
    ensures csv.Unreadable? || csv.header == [] ==> CsvTickers(csv) == []
    ensures csv.Table? && csv.header != [] ==>
      var col := TickerCsv.TickerColumnOf(csv.header).value;
      && col < |csv.header|
      && |CsvTickers(csv)| == |csv.rows| - TickerCsv.Blanks(csv.rows, col)
      && TickerCsv.InRowOrder(CsvTickers(csv), csv.rows, col)
      && forall s :: s in CsvTickers(csv) ==>
           exists r :: 0 <= r < |csv.rows| && TickerCsv.CellAt(csv.rows[r], col).Some?
                       && s == Text.Strip(TickerCsv.CellAt(csv.rows[r], col).value)
  {
    if csv.Table? {
      TickerCsv.FindTickerColumnTotal(csv.header);
      if csv.header != [] {
        var col := TickerCsv.TickerColumnOf(csv.header).value;
        assert CsvTickers(csv) == TickerCsv.ColumnTickers(csv.rows, col);
        TickerCsv.ColumnTickersFromCells(csv.rows, col);
        TickerCsv.ColumnTickersCount(csv.rows, col);
        TickerCsv.ColumnTickersInOrder(csv.rows, col);
      }
    }
  }

  /** The row `insert_tickers_to_db` builds for a ticker from its info lookup. */
  function TickerRecord(ticker: string, info: InfoReply): TickerRow
  {
    match info
    case InfoRaised => TickerRow(Text.Upper(ticker), ticker, "Unknown", true)
    case Info(longName, shortName, sector, _) =>
      TickerRow(Text.Upper(ticker), InfoName(longName, shortName, ticker),
                if sector.Some? then sector.value else "Unknown", true)
  }

  function TickerRecords(tickers: seq<string>, info: (string, nat) -> InfoReply): (rows: seq<TickerRow>)
    ensures |rows| == |tickers|
    ensures forall i :: 0 <= i < |tickers| ==> rows[i] == TickerRecord(tickers[i], info(tickers[i], 0))
  {
    if tickers == [] then [] else TickerRecords(tickers[..|tickers| - 1], info) + [TickerRecord(tickers[|tickers| - 1], info(tickers[|tickers| - 1], 0))]
  }

  /**
   * Every ticker row is uppercased and active; when the lookup fails the name
   * is the ticker as given and the sector "Unknown".
   */
  lemma TickerRecordsShape(tickers: seq<string>, info: (string, nat) -> InfoReply)
    ensures forall i :: 0 <= i < |tickers| ==>
      var r := TickerRecords(tickers, info)[i];
      && r.ticker == Text.Upper(tickers[i]) && r.active
      && (info(tickers[i], 0).InfoRaised? ==> r.companyName == tickers[i] && r.sector == "Unknown")
      && (info(tickers[i], 0).Info? && info(tickers[i], 0).longName.None? && info(tickers[i], 0).shortName.None? ==>
            r.companyName == tickers[i])
  {
  }

  /** The batches of 50 rows `insert_tickers_to_db` writes, in order, and their number. */
  lemma TickerBatches(tickers: seq<string>, info: (string, nat) -> InfoReply)
    ensures Flatten(Chunks(TickerRecords(tickers, info), 50)) == TickerRecords(tickers, info)
    ensures |Chunks(TickerRecords(tickers, info), 50)| == CeilDiv(|tickers|, 50)
    ensures forall b :: b in Chunks(TickerRecords(tickers, info), 50) ==> 0 < |b| <= 50
  {
    ChunksFlatten(TickerRecords(tickers, info), 50);
    ChunksCount(TickerRecords(tickers, info), 50);
    ChunksBounded(TickerRecords(tickers, info), 50);
  }

  /** One more batch: its rows are upserted after the earlier ones exactly when its write was accepted. */
  lemma AcceptedBatchStep<K, V>(m: map<K, V>, batches: seq<seq<V>>, k: nat, start: nat, rejected: set<nat>, key: V -> K)
    requires k < |batches|
    ensures UpsertAll(m, Flatten(Accepted(batches[..k + 1], start, rejected)), key)
         == if start + k in rejected then UpsertAll(m, Flatten(Accepted(batches[..k], start, rejected)), key)
            else UpsertAll(UpsertAll(m, Flatten(Accepted(batches[..k], start, rejected)), key), batches[k], key)
  {
    var done := Accepted(batches[..k], start, rejected);
    assert batches[..k + 1] == batches[..k] + [batches[k]];
    AcceptedSnoc(batches[..k], batches[k], start, rejected);
    var step: seq<seq<V>> := if start + k in rejected then [] else [batches[k]];
    FlattenAppend(done, step);
    assert Flatten(step) == if start + k in rejected then [] else batches[k];
    UpsertAppend(m, Flatten(done), Flatten(step), key);
    assert Flatten(done) + [] == Flatten(done);
  }

  /** The batch loop of `insert_tickers_to_db`: every slice is written, whether or not an earlier one failed. */
  method UpsertTickerBatches(db: Database, rows: seq<TickerRow>, size: nat)
    requires db.Valid() && size > 0
    modifies db
    ensures db.Valid()
    ensures db.writes == old(db.writes) + |Chunks(rows, size)|
    ensures db.tickers == UpsertAll(old(db.tickers), Flatten(Accepted(Chunks(rows, size), old(db.writes), db.rejected)), TickerKey)
    ensures db.stocksDaily == old(db.stocksDaily)
    ensures db.dailyMovers == old(db.dailyMovers) && db.weeklyMovers == old(db.weeklyMovers)
  {
    ghost var batches := Chunks(rows, size);
    var i, k := 0, 0;
    while i < |rows|
      invariant 0 <= i <= |rows|
      invariant k <= |batches|
      invariant Chunks(rows[i..], size) == batches[k..]
      invariant db.Valid()
      invariant db.writes == old(db.writes) + k
      invariant db.tickers == UpsertAll(old(db.tickers), Flatten(Accepted(batches[..k], old(db.writes), db.rejected)), TickerKey)
      invariant db.stocksDaily == old(db.stocksDaily)
      invariant db.dailyMovers == old(db.dailyMovers) && db.weeklyMovers == old(db.weeklyMovers)
    {
      var end := Min(i + size, |rows|);
      ChunkAdvance(rows, size, i, k);
      AcceptedBatchStep(old(db.tickers), batches, k, old(db.writes), db.rejected, TickerKey);
      var ok := db.UpsertTickers(rows[i..end]);
      i, k := end, k + 1;
    }
    ChunksDone(rows, size, k);
    assert batches[..k] == batches;
  }

  /**
   * One turn of the ticker loop: the store holds the accepted bars of the
   * first `i + 1` fetches, and the count of fetched bars grows by one exactly
   * when this ticker's fetch returned a bar.
   */
  lemma LoadStep(store0: map<BarKey, DailyBar>, fetches: seq<Option<DailyBar>>, i: nat, start: nat, rejected: set<nat>,
                 data: Option<DailyBar>, w: nat, before: map<BarKey, DailyBar>, after: map<BarKey, DailyBar>)
    requires i < |fetches| && data == fetches[i] && w == start + |Present(fetches[..i])|
    requires before == UpsertAll(store0, Accepted(Present(fetches[..i]), start, rejected), BarKeyOf)
    requires after == if data.Some? then UpsertAll(before, Accepted([data.value], w, rejected), BarKeyOf) else before
    ensures after == UpsertAll(store0, Accepted(Present(fetches[..i + 1]), start, rejected), BarKeyOf)
    ensures |Present(fetches[..i + 1])| == |Present(fetches[..i])| + if fetches[i].Some? then 1 else 0
  {
    var fetched := Present(fetches[..i]);
    assert fetches[..i + 1][..i] == fetches[..i];
    if fetches[i].Some? {
      var b := fetches[i].value;
      assert Present(fetches[..i + 1]) == fetched + [b];
      AcceptedSnoc(fetched, b, start, rejected);
      var step := Accepted([b], start + |fetched|, rejected);
      assert step == if start + |fetched| in rejected then [] else [b];
      UpsertAppend(store0, Accepted(fetched, start, rejected), step, BarKeyOf);
    } else {
      assert Present(fetches[..i + 1]) == fetched + [];
      assert fetched + [] == fetched;
    }
  }

  class StockDataLoader {
    const supabase: Database

    /** The Supabase client is given; creating it from the URL and key is not modelled. */
    constructor (supabase: Database)
      ensures this.supabase == supabase
    {
      this.supabase := supabase;
    }

    method LoadTickersFromCsv(csv: TickerCsv.Csv) returns (tickers: seq<string>)
      ensures tickers == CsvTickers(csv)
    {
      match csv {
        case Unreadable =>
          tickers := [];
        case Table(header, rows) =>
          var col := TickerCsv.FindTickerColumn(header);
          if col.None? {
            return [];
          }
          tickers := TickerCsv.ColumnTickers(rows, col.value);
      }
    }

    /**
     * `insert_tickers_to_db`: build one row per ticker, then upsert them in
     * batches of 50; a failed batch is logged and the later ones still written.
     */
    method InsertTickersToDb(tickers: seq<string>, info: (string, nat) -> InfoReply)
      requires supabase.Valid()
      modifies supabase
      ensures supabase.Valid()
      ensures supabase.writes == old(supabase.writes) + |Chunks(TickerRecords(tickers, info), 50)|
      ensures supabase.tickers == UpsertAll(old(supabase.tickers),
        Flatten(Accepted(Chunks(TickerRecords(tickers, info), 50), old(supabase.writes), supabase.rejected)), TickerKey)
      ensures supabase.stocksDaily == old(supabase.stocksDaily)
      ensures supabase.dailyMovers == old(supabase.dailyMovers) && supabase.weeklyMovers == old(supabase.weeklyMovers)
    {
      var tickerData: seq<TickerRow> := [];
      for i := 0 to |tickers|
        invariant tickerData == TickerRecords(tickers[..i], info)
      {
        assert tickers[..i + 1][..i] == tickers[..i];
        tickerData := tickerData + [TickerRecord(tickers[i], info(tickers[i], 0))];
      }
      assert tickers[..|tickers|] == tickers;
      UpsertTickerBatches(supabase, tickerData, 50);
    }

    /**
     * `fetch_stock_data`: up to `maxRetries` attempts, sleeping `2^k` seconds
     * after failed attempt `k` unless it was the last; `date` defaults to
     * yesterday on the first attempt.
     */
    method FetchStockData(ticker: string, date: Option<Date>, maxRetries: int, now: Date,
                          history: (string, nat, Date, Date) -> HistoryReply, info: (string, nat) -> InfoReply)
      returns (data: Option<DailyBar>, delays: seq<nat>)
      ensures FetchResult(data, delays) == RetryFrom(ticker, RequestDay(date, now), maxRetries, history, info, 0, [])
      ensures forall j :: 0 <= j < |delays| ==>
        delays[j] == Pow2(j) && AttemptAt(ticker, RequestDay(date, now), history, info, j).Failed?
      ensures maxRetries <= 0 ==> data.None? && delays == []
      ensures maxRetries > 0 ==>
        && |delays| < maxRetries
        && match AttemptAt(ticker, RequestDay(date, now), history, info, |delays|)
           case Returned(x) => data == x
           case Failed => data.None? && |delays| == maxRetries - 1
      ensures data.Some? ==> data.value.ticker == Text.Upper(ticker)
    {
      ghost var day := RequestDay(date, now);
      RetrySchedule(ticker, day, maxRetries, history, info, 0, []);
      var d := date;
      delays := [];
      var attempt: nat := 0;
      while attempt < maxRetries
        invariant |delays| == attempt
        invariant d == date || (date.None? && d == Some(now - 1))
        invariant RetryFrom(ticker, day, maxRetries, history, info, 0, [])
               == RetryFrom(ticker, day, maxRetries, history, info, attempt, delays)
        decreases maxRetries - attempt
      {
        if d.None? {
          d := Some(now - 1);
        }
        var reply := history(ticker, attempt, d.value - 5, d.value + 1);
        var result := TryFetch(ticker, reply, info(ticker, attempt));
        if result.Returned? {
          return result.data, delays;
        }
        if attempt < maxRetries - 1 {
          delays := delays + [Pow2(attempt)];
        } else {
          return None, delays;
        }
        attempt := attempt + 1;
      }
      data := None;
    }

    /** `insert_stock_data`: one upsert on `(ticker, date)`; a failure is logged. */
    method InsertStockData(data: DailyBar)
      requires supabase.Valid()
      modifies supabase
      ensures supabase.Valid()
      ensures supabase.writes == old(supabase.writes) + 1
      ensures supabase.stocksDaily == UpsertAll(old(supabase.stocksDaily), Accepted([data], old(supabase.writes), supabase.rejected), BarKeyOf)
      ensures supabase.dailyMovers == old(supabase.dailyMovers) && supabase.weeklyMovers == old(supabase.weeklyMovers)
      ensures supabase.tickers == old(supabase.tickers)
    {
      var _ := supabase.UpsertStocksDaily([data]);
    }

    /**
     * `calculate_and_insert_daily_movers`: the bars dated `[today - 2, today - 1]`,
     * their movers, each upserted on its own. When the select raises, the
     * outer handler logs it and no mover is computed or written.
     */
    method CalculateAndInsertDailyMovers(today: Date, minPercent: real) returns (movers: seq<DailyMover>)
      requires supabase.Valid()
      requires DailyDivisible(Window(supabase.stocksDaily, today - 2, today - 1))
      modifies supabase
      ensures supabase.Valid()
      ensures (today - 2, today - 1) in supabase.refusedSelects ==> movers == []
      ensures (today - 2, today - 1) !in supabase.refusedSelects ==>
        DailyMoversOf(Window(supabase.stocksDaily, today - 2, today - 1), minPercent, movers)
      ensures supabase.writes == old(supabase.writes) + |movers|
      ensures supabase.dailyMovers
           == UpsertAll(old(supabase.dailyMovers), Accepted(movers, old(supabase.writes), supabase.rejected), DailyMoverKey)
      ensures supabase.stocksDaily == old(supabase.stocksDaily) && supabase.weeklyMovers == old(supabase.weeklyMovers)
      ensures supabase.tickers == old(supabase.tickers)
    {
      var yesterday := today - 1;
      var twoDaysAgo := yesterday - 1;
      var selected := supabase.SelectBars(twoDaysAgo, yesterday);
      if selected.None? {
        return [];
      }
      var rows := selected.value;
      assert Members(rows) == Window(supabase.stocksDaily, today - 2, today - 1);
      if rows == [] {
        return [];
      }
      movers := DetectDailyMovers(rows, minPercent);
      WriteDailyMovers(supabase, movers);
    }

    /** `calculate_and_insert_weekly_movers`: the bars dated `[today - 10, today]`; nothing when the select raises. */
    method CalculateAndInsertWeeklyMovers(today: Date, minPercent: real) returns (movers: seq<WeeklyMover>)
      requires supabase.Valid()
      requires WeeklyDivisible(Window(supabase.stocksDaily, today - 10, today))
      modifies supabase
      ensures supabase.Valid()
      ensures (today - 10, today) in supabase.refusedSelects ==> movers == []
      ensures (today - 10, today) !in supabase.refusedSelects ==>
        WeeklyMoversOf(Window(supabase.stocksDaily, today - 10, today), minPercent, movers)
      ensures supabase.writes == old(supabase.writes) + |movers|
      ensures supabase.weeklyMovers
           == UpsertAll(old(supabase.weeklyMovers), Accepted(movers, old(supabase.writes), supabase.rejected), WeeklyMoverKey)
      ensures supabase.stocksDaily == old(supabase.stocksDaily) && supabase.dailyMovers == old(supabase.dailyMovers)
      ensures supabase.tickers == old(supabase.tickers)
    {
      var tenDaysAgo := today - 10;
      var selected := supabase.SelectBars(tenDaysAgo, today);
      if selected.None? {
        return [];
      }
      var rows := selected.value;
      assert Members(rows) == Window(supabase.stocksDaily, today - 10, today);
      if rows == [] {
        return [];
      }
      movers := DetectWeeklyMovers(rows, minPercent);
      WriteWeeklyMovers(supabase, movers);
    }

    /** One turn of the ticker loop of `run_daily_update`: fetch with the default date and 3 attempts, insert what came back. */
    method FetchAndInsert(ticker: string, now: Date,
                          history: (string, nat, Date, Date) -> HistoryReply, info: (string, nat) -> InfoReply)
      returns (data: Option<DailyBar>)
      requires supabase.Valid()
      modifies supabase
      ensures supabase.Valid()
      ensures data == FetchedData(ticker, now - 1, 3, history, info)
      ensures supabase.writes == old(supabase.writes) + (if data.Some? then 1 else 0)
      ensures supabase.stocksDaily
           == if data.Some? then UpsertAll(old(supabase.stocksDaily), Accepted([data.value], old(supabase.writes), supabase.rejected), BarKeyOf)
              else old(supabase.stocksDaily)
      ensures supabase.dailyMovers == old(supabase.dailyMovers) && supabase.weeklyMovers == old(supabase.weeklyMovers)
      ensures supabase.tickers == old(supabase.tickers)
    {
      var delays;
      data, delays := FetchStockData(ticker, None, 3, now, history, info);
      if data.Some? {
        InsertStockData(data.value);
      }
    }

    /** One turn of the loop in `FetchAndInsertAll`: the store after ticker `i`, in terms of the fetches so far. */
    method FetchAndInsertNext(tickers: seq<string>, now: Date,
                              history: (string, nat, Date, Date) -> HistoryReply, info: (string, nat) -> InfoReply,
                              i: nat, ghost fetches: seq<Option<DailyBar>>, ghost store0: map<BarKey, DailyBar>, ghost start: nat)
      returns (data: Option<DailyBar>)
      requires i < |tickers| && fetches == Fetches(tickers, now, history, info)
      requires supabase.Valid()
      requires supabase.stocksDaily == UpsertAll(store0, Accepted(Present(fetches[..i]), start, supabase.rejected), BarKeyOf)
      requires supabase.writes == start + |Present(fetches[..i])|
      modifies supabase
      ensures supabase.Valid()
      ensures data == fetches[i]
      ensures |Present(fetches[..i + 1])| == |Present(fetches[..i])| + if data.Some? then 1 else 0
      ensures supabase.writes == start + |Present(fetches[..i + 1])|
      ensures supabase.stocksDaily == UpsertAll(store0, Accepted(Present(fetches[..i + 1]), start, supabase.rejected), BarKeyOf)
      ensures supabase.dailyMovers == old(supabase.dailyMovers) && supabase.weeklyMovers == old(supabase.weeklyMovers)
      ensures supabase.tickers == old(supabase.tickers)
    {
      data := FetchAndInsert(tickers[i], now, history, info);
      FetchesAt(tickers, now, history, info, i);
      LoadStep(store0, fetches, i, start, supabase.rejected, data, old(supabase.writes),
               old(supabase.stocksDaily), supabase.stocksDaily);
    }

    /** The ticker loop of `run_daily_update`, counting the tickers fetched and those that were not. */
    method FetchAndInsertAll(tickers: seq<string>, now: Date,
                             history: (string, nat, Date, Date) -> HistoryReply, info: (string, nat) -> InfoReply)
      returns (successful: nat, failed: nat)
      requires supabase.Valid()
      modifies supabase
      ensures supabase.Valid()
      ensures successful + failed == |tickers|
      ensures successful == |FetchedBars(tickers, now, history, info)|
      ensures supabase.writes == old(supabase.writes) + successful
      ensures supabase.stocksDaily == UpsertAll(old(supabase.stocksDaily),
        Accepted(FetchedBars(tickers, now, history, info), old(supabase.writes), supabase.rejected), BarKeyOf)
      ensures supabase.dailyMovers == old(supabase.dailyMovers) && supabase.weeklyMovers == old(supabase.weeklyMovers)
      ensures supabase.tickers == old(supabase.tickers)
    {
      ghost var fetches := Fetches(tickers, now, history, info);
      ghost var store0, start, daily0, weekly0, tickers0 :=
        supabase.stocksDaily, supabase.writes, supabase.dailyMovers, supabase.weeklyMovers, supabase.tickers;
      successful, failed := 0, 0;
      for i := 0 to |tickers|
        invariant supabase.Valid()
        invariant successful + failed == i
        invariant successful == |Present(fetches[..i])|
        invariant supabase.writes == start + successful
        invariant supabase.stocksDaily == UpsertAll(store0, Accepted(Present(fetches[..i]), start, supabase.rejected), BarKeyOf)
        invariant supabase.dailyMovers == daily0 && supabase.weeklyMovers == weekly0 && supabase.tickers == tickers0
      {
        var data := FetchAndInsertNext(tickers, now, history, info, i, fetches, store0, start);
        if data.Some? {
          successful := successful + 1;
        } else {
          failed := failed + 1;
        }
      }
      AllFetched(tickers, now, history, info, fetches);
    }

    /**
     * `run_daily_update`: fetch and insert each ticker's bar, counting
     * successes (a fetched bar, even when its insert fails) and failures, then
     * compute the movers only when something was fetched.
     */
    method RunDailyUpdate(tickers: seq<string>, now: Date,
                          history: (string, nat, Date, Date) -> HistoryReply, info: (string, nat) -> InfoReply)
      returns (successful: nat, failed: nat, daily: seq<DailyMover>, weekly: seq<WeeklyMover>)
      requires supabase.Valid()
      requires FetchedBars(tickers, now, history, info) != [] ==>
        UpdateDivisible(UpsertAll(supabase.stocksDaily,
          Accepted(FetchedBars(tickers, now, history, info), supabase.writes, supabase.rejected), BarKeyOf), now)
      modifies supabase
      ensures supabase.Valid()
      ensures successful + failed == |tickers|
      ensures successful == |FetchedBars(tickers, now, history, info)|
      ensures supabase.stocksDaily == UpsertAll(old(supabase.stocksDaily),
        Accepted(FetchedBars(tickers, now, history, info), old(supabase.writes), supabase.rejected), BarKeyOf)
      ensures successful == 0 ==>
        && daily == [] && weekly == []
        && supabase.dailyMovers == old(supabase.dailyMovers) && supabase.weeklyMovers == old(supabase.weeklyMovers)
        && supabase.writes == old(supabase.writes)
      ensures successful > 0 ==>
        && UpdateMoversFound(supabase.refusedSelects, now, supabase.stocksDaily, daily, weekly)
        && MoversWritten(supabase, daily, weekly,
                         old(supabase.writes) + successful, old(supabase.dailyMovers), old(supabase.weeklyMovers))
      ensures supabase.tickers == old(supabase.tickers)
    {
      successful, failed := FetchAndInsertAll(tickers, now, history, info);
      daily, weekly := CalculateMovers(now, successful, old(supabase.writes) + successful,
                                       old(supabase.dailyMovers), old(supabase.weeklyMovers));
    }

    /**
     * The end of `run_daily_update`: the daily movers, then the weekly movers,
     * are computed and written only when some ticker was fetched. The ghost
     * parameters name the current write count and movers tables.
     */
    method CalculateMovers(now: Date, successful: nat,
                           ghost from: nat, ghost daily0: map<BarKey, DailyMover>, ghost weekly0: map<BarKey, WeeklyMover>)
      returns (daily: seq<DailyMover>, weekly: seq<WeeklyMover>)
      requires supabase.Valid()
      requires from == supabase.writes && daily0 == supabase.dailyMovers && weekly0 == supabase.weeklyMovers
      requires successful > 0 ==> UpdateDivisible(supabase.stocksDaily, now)
      modifies supabase
      ensures supabase.Valid()
      ensures supabase.stocksDaily == old(supabase.stocksDaily) && supabase.tickers == old(supabase.tickers)
      ensures successful == 0 ==>
        && daily == [] && weekly == []
        && supabase.dailyMovers == daily0 && supabase.weeklyMovers == weekly0
        && supabase.writes == from
      ensures successful > 0 ==>
        && UpdateMoversFound(supabase.refusedSelects, now, supabase.stocksDaily, daily, weekly)
        && MoversWritten(supabase, daily, weekly, from, daily0, weekly0)
    {
      if successful > 0 {
        daily := CalculateAndInsertDailyMovers(now, MIN_PERCENT);
        weekly := CalculateAndInsertWeeklyMovers(now, MIN_PERCENT);
      } else {
        daily, weekly := [], [];
      }
    }
  }

  /**
   * The movers `run_daily_update` found in `store`: for each of its two
   * windows, none when the select was refused, otherwise exactly the window's movers.
   */
  ghost predicate UpdateMoversFound(refused: set<(Date, Date)>, now: Date, store: map<BarKey, DailyBar>,
                                    daily: seq<DailyMover>, weekly: seq<WeeklyMover>)
  {
    && ((now - 2, now - 1) in refused ==> daily == [])
    && ((now - 2, now - 1) !in refused ==> DailyMoversOf(Window(store, now - 2, now - 1), MIN_PERCENT, daily))
    && ((now - 10, now) in refused ==> weekly == [])
    && ((now - 10, now) !in refused ==> WeeklyMoversOf(Window(store, now - 10, now), MIN_PERCENT, weekly))
  }

  /** What `fetch_stock_data(ticker)` returns for each ticker of the list (the default date, 3 attempts). */
  function Fetches(tickers: seq<string>, now: Date, history: (string, nat, Date, Date) -> HistoryReply,
                   info: (string, nat) -> InfoReply): (r: seq<Option<DailyBar>>)
    ensures |r| == |tickers|
  {
    if tickers == [] then []
    else Fetches(tickers[..|tickers| - 1], now, history, info)
         + [FetchedData(tickers[|tickers| - 1], now - 1, 3, history, info)]
  }

  /** Entry `j` of `Fetches` is the retried fetch of ticker `j`. */
  lemma {:induction false} FetchesAt(tickers: seq<string>, now: Date, history: (string, nat, Date, Date) -> HistoryReply,
                                     info: (string, nat) -> InfoReply, j: nat)
    requires j < |tickers|
    ensures Fetches(tickers, now, history, info)[j] == FetchedData(tickers[j], now - 1, 3, history, info)
    decreases |tickers|
  {
    var n := |tickers|;
    if j < n - 1 {
      FetchesAt(tickers[..n - 1], now, history, info, j);
      assert tickers[..n - 1][j] == tickers[j];
    }
  }

  /** The values present in a sequence of options, in order. */
  function Present(s: seq<Option<DailyBar>>): (r: seq<DailyBar>)
    ensures |r| <= |s|
  {
    if s == [] then [] else Present(s[..|s| - 1]) + (if s[|s| - 1].Some? then [s[|s| - 1].value] else [])
  }

  /** Every value present is one of the options. */
  lemma {:induction false} PresentMembers(s: seq<Option<DailyBar>>)
    ensures forall b :: b in Present(s) ==> Some(b) in s
    decreases |s|
  {
    if s != [] {
      PresentMembers(s[..|s| - 1]);
    }
  }

  /** Once every ticker has been tried, the bars present are the fetched bars. */
  lemma AllFetched(tickers: seq<string>, now: Date, history: (string, nat, Date, Date) -> HistoryReply,
                   info: (string, nat) -> InfoReply, fetches: seq<Option<DailyBar>>)
    requires fetches == Fetches(tickers, now, history, info)
    ensures Present(fetches[..|tickers|]) == FetchedBars(tickers, now, history, info)
  {
    assert fetches[..|tickers|] == fetches;
  }

  /** The bars `run_daily_update` fetched, in ticker order. */
  function FetchedBars(tickers: seq<string>, now: Date, history: (string, nat, Date, Date) -> HistoryReply,
                       info: (string, nat) -> InfoReply): seq<DailyBar>
  {
    Present(Fetches(tickers, now, history, info))
  }
}
