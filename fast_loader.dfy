/**
 * The batch loader (`stock_data_loader_fast.py`): download one day of bars for
 * batches of tickers, normalise them into `stocks_daily` rows, upsert them in
 * chunks, then compute the daily and weekly movers from the stored window.
 */
module FastLoader {
  import opened Wrappers
  import opened Records
  import opened Chunking
  import Text
  import opened Movers
  import opened Store
  import TickerCsv

  /** Tickers downloaded at once. */
  const BATCH_SIZE: nat := 150
  /** Records upserted at once. */
  const UPSERT_CHUNK: nat := 800

  // ---------------------------------------------------------------------------
  // The downloaded frame
  // ---------------------------------------------------------------------------

  /** A cell of the downloaded frame before `pd.to_numeric(errors='coerce')`. */
  datatype Cell = Blank | Number(value: real) | NonNumeric(text: string)

  /** One row of one ticker's part of the download, after `reset_index()`. */
  datatype RawBar = RawBar(date: Date, open: Cell, high: Cell, low: Cell, close: Cell, volume: Cell)

  /** One row of the combined frame that `fetch_batch_data` returns. */
  datatype RawRow = RawRow(date: Date, open: Cell, high: Cell, low: Cell, close: Cell, volume: Cell,
                           ticker: Option<string>)

  /**
   * What `yf.download` produced for a batch: it raised, it returned the flat
   * columns of a single ticker, or it returned `(ticker, field)` columns, one
   * group per ticker (each name once).
   */
  datatype Download =
    | DownloadFailed
    | SingleTicker(bars: seq<RawBar>)
    | MultiTicker(groups: seq<(string, seq<RawBar>)>)

  function Tagged(b: RawBar, t: string): RawRow
  {
    RawRow(b.date, b.open, b.high, b.low, b.close, b.volume, Some(t))
  }

  /** `ticker_data['ticker'] = t`. */
  function Tag(bars: seq<RawBar>, t: string): (rows: seq<RawRow>)
    ensures |rows| == |bars|
    ensures forall i :: 0 <= i < |bars| ==> rows[i] == Tagged(bars[i], t)
  {
    if bars == [] then [] else [Tagged(bars[0], t)] + Tag(bars[1..], t)
  }

  /** `not ticker_data['close'].isna().all()`, which also fails on an empty frame. */
  predicate HasClose(bars: seq<RawBar>)
  {
    exists i :: 0 <= i < |bars| && !bars[i].close.Blank?
  }

  function GroupNames(groups: seq<(string, seq<RawBar>)>): (names: seq<string>)
    ensures |names| == |groups|
    ensures forall i :: 0 <= i < |groups| ==> names[i] == groups[i].0
  {
    if groups == [] then [] else [groups[0].0] + GroupNames(groups[1..])
  }

  /** `data[t]`: the bars of the group named `t`. */
  function Lookup(groups: seq<(string, seq<RawBar>)>, t: string): seq<RawBar>
  {
    if groups == [] then []
    else if groups[0].0 == t then groups[0].1
    else Lookup(groups[1..], t)
  }

  /** The rows one ticker contributes: none when its data is empty or has no close. */
  function Piece(groups: seq<(string, seq<RawBar>)>, t: string): seq<RawRow>
  {
    var bars := Lookup(groups, t);
    if HasClose(bars) then Tag(bars, t) else []
  }

  /** The rows the multi-ticker loop collects over `names`, in order. */
  function Kept(names: seq<string>, groups: seq<(string, seq<RawBar>)>): seq<RawRow>
  {
    if names == [] then []
    else Kept(names[..|names| - 1], groups) + Piece(groups, names[|names| - 1])
  }

  /** The frame `fetch_batch_data` returns for a batch and its download. */
  function Fetched(tickers: seq<string>, download: Download): seq<RawRow>
  {
    if tickers == [] then []
    else match download
      case DownloadFailed => []
      case SingleTicker(bars) => if HasClose(bars) then Tag(bars, tickers[0]) else []
      case MultiTicker(groups) => Kept(Text.SortedUnique(GroupNames(groups)), groups)
  }

  /** The post-download filtering of `fetch_batch_data`. */
  method FetchBatchData(tickers: seq<string>, download: Download) returns (rows: seq<RawRow>)
    ensures rows == Fetched(tickers, download)
  {
    if tickers == [] {
      return [];
    }
    match download {
      case DownloadFailed =>
        rows := [];
      case SingleTicker(bars) =>
        rows := [];
        if HasClose(bars) {
          rows := Tag(bars, tickers[0]);
        }
      case MultiTicker(groups) =>
        var names := Text.SortedUnique(GroupNames(groups));
        rows := [];
        for k := 0 to |names|
          invariant rows == Kept(names[..k], groups)
        {
          var bars := Lookup(groups, names[k]);
          assert names[..k + 1][..k] == names[..k];
          if HasClose(bars) {
            rows := rows + Tag(bars, names[k]);
          }
        }
        assert names[..|names|] == names;
    }
  }

  lemma {:induction false} KeptMembers(names: seq<string>, groups: seq<(string, seq<RawBar>)>)
    ensures forall r :: r in Kept(names, groups) <==>
      exists t :: t in names && HasClose(Lookup(groups, t)) && r in Tag(Lookup(groups, t), t)
  {
    if names != [] {
      var init, last := names[..|names| - 1], names[|names| - 1];
      KeptMembers(init, groups);
      assert names == init + [last];
      assert Kept(names, groups) == Kept(init, groups) + Piece(groups, last);
      forall r | r in Kept(names, groups)
        ensures exists t :: t in names && HasClose(Lookup(groups, t)) && r in Tag(Lookup(groups, t), t)
      {
        if r in Kept(init, groups) {
          var t :| t in init && HasClose(Lookup(groups, t)) && r in Tag(Lookup(groups, t), t);
          assert t in names;
        } else {
          assert last in names && HasClose(Lookup(groups, last)) && r in Tag(Lookup(groups, last), last);
        }
      }
      forall r | exists t :: t in names && HasClose(Lookup(groups, t)) && r in Tag(Lookup(groups, t), t)
        ensures r in Kept(names, groups)
      {
        var t :| t in names && HasClose(Lookup(groups, t)) && r in Tag(Lookup(groups, t), t);
        if t in init {
          assert r in Kept(init, groups);
        } else {
          assert t == last;
          assert r in Piece(groups, last);
        }
      }
    }
  }

  /**
   * A multi-ticker download keeps exactly the rows of the tickers that have a
   * close, each tagged with its own ticker, and raises nothing.
   */
  lemma FetchedMulti(tickers: seq<string>, groups: seq<(string, seq<RawBar>)>)
    requires tickers != []
    ensures forall r :: r in Fetched(tickers, MultiTicker(groups)) <==>
      exists t :: t in GroupNames(groups) && HasClose(Lookup(groups, t)) && r in Tag(Lookup(groups, t), t)
    ensures forall r :: r in Fetched(tickers, MultiTicker(groups)) ==>
      r.ticker.Some? && r.ticker.value in GroupNames(groups) && HasClose(Lookup(groups, r.ticker.value))
  {
    var names := Text.SortedUnique(GroupNames(groups));
    var fetched := Fetched(tickers, MultiTicker(groups));
    assert fetched == Kept(names, groups);
    KeptMembers(names, groups);
    RowsOfNames(names, groups, fetched);
    TaggedRows(names, groups, fetched);
  }

  /** Rows drawn from the groups of `names` are drawn from the download's groups when the names are the same. */
  lemma RowsOfNames(names: seq<string>, groups: seq<(string, seq<RawBar>)>, kept: seq<RawRow>)
    requires forall r :: r in kept <==>
      exists t :: t in names && HasClose(Lookup(groups, t)) && r in Tag(Lookup(groups, t), t)
    requires forall t :: t in names <==> t in GroupNames(groups)
    ensures forall r :: r in kept <==>
      exists t :: t in GroupNames(groups) && HasClose(Lookup(groups, t)) && r in Tag(Lookup(groups, t), t)
  {
    forall r
      ensures r in kept <==>
        exists t :: t in GroupNames(groups) && HasClose(Lookup(groups, t)) && r in Tag(Lookup(groups, t), t)
    {
      if r in kept {
        var t :| t in names && HasClose(Lookup(groups, t)) && r in Tag(Lookup(groups, t), t);
        assert t in GroupNames(groups);
      }
      if exists t :: t in GroupNames(groups) && HasClose(Lookup(groups, t)) && r in Tag(Lookup(groups, t), t) {
        var t :| t in GroupNames(groups) && HasClose(Lookup(groups, t)) && r in Tag(Lookup(groups, t), t);
        assert t in names;
      }
    }
  }

  /** Every kept row carries the name of a group with some close. */
  lemma TaggedRows(names: seq<string>, groups: seq<(string, seq<RawBar>)>, kept: seq<RawRow>)
    requires forall r :: r in kept ==>
      exists t :: t in names && HasClose(Lookup(groups, t)) && r in Tag(Lookup(groups, t), t)
    requires forall t :: t in names ==> t in GroupNames(groups)
    ensures forall r :: r in kept ==>
      r.ticker.Some? && r.ticker.value in GroupNames(groups) && HasClose(Lookup(groups, r.ticker.value))
  {
    forall r | r in kept
      ensures r.ticker.Some? && r.ticker.value in GroupNames(groups) && HasClose(Lookup(groups, r.ticker.value))
    {
      var t :| t in names && HasClose(Lookup(groups, t)) && r in Tag(Lookup(groups, t), t);
      var bars := Lookup(groups, t);
      var i :| 0 <= i < |bars| && Tag(bars, t)[i] == r;
      assert r == Tagged(bars[i], t);
    }
  }


  /** A single-ticker download is tagged with the batch's only ticker, or dropped when it has no close. */
  lemma FetchedSingle(tickers: seq<string>, bars: seq<RawBar>)
    requires tickers != []
    ensures forall r :: r in Fetched(tickers, SingleTicker(bars)) ==> r.ticker == Some(tickers[0])
    ensures |Fetched(tickers, SingleTicker(bars))| == if HasClose(bars) then |bars| else 0
  {
  }

  // ---------------------------------------------------------------------------
  // prepare_records
  // ---------------------------------------------------------------------------

  /** `pd.to_numeric(..., errors='coerce')`: a non-number becomes NaN. */
  function ToNumeric(c: Cell): Option<real>
  {
    match c
    case Number(x) => Some(x)
    case _ => None
  }

  /** `pd.to_numeric(..., errors='coerce').fillna(0).astype('int64')`. */
  function VolumeOf(c: Cell): int
  {
    match c
    case Number(x) => TruncToInt(x)
    case _ => 0
  }

  /** `df['ticker'].map(ticker_map).fillna(df['ticker'])`: the mapped name, else the ticker. */
  function CompanyName(tickerMap: map<string, Option<string>>, t: string): string
  {
    if t in tickerMap && tickerMap[t].Some? then tickerMap[t].value else t
  }

  /** The record one row becomes; `None` when `dropna(subset=['ticker', 'close'])` removes it. */
  function NormalizeRow(r: RawRow, tickerMap: map<string, Option<string>>): Option<DailyBar>
  {
    match r.ticker
    case None => None
    case Some(t) =>
      match ToNumeric(r.close)
      case None => None
      case Some(_) =>
        Some(DailyBar(t, CompanyName(tickerMap, t), r.date, ToNumeric(r.open), ToNumeric(r.high),
                      ToNumeric(r.low), ToNumeric(r.close), VolumeOf(r.volume), None))
  }

  function Prepared(rows: seq<RawRow>, tickerMap: map<string, Option<string>>): seq<DailyBar>
  {
    if rows == [] then []
    else
      Prepared(rows[..|rows| - 1], tickerMap)
      + match NormalizeRow(rows[|rows| - 1], tickerMap) case Some(b) => [b] case None => []
  }

  method PrepareRecords(rows: seq<RawRow>, tickerMap: map<string, Option<string>>) returns (records: seq<DailyBar>)
    ensures records == Prepared(rows, tickerMap)
  {
    if rows == [] {
      return [];
    }
    records := [];
    for i := 0 to |rows|
      invariant records == Prepared(rows[..i], tickerMap)
    {
      assert rows[..i + 1][..i] == rows[..i];
      var b := NormalizeRow(rows[i], tickerMap);
      if b.Some? {
        records := records + [b.value];
      }
    }
    assert rows[..|rows|] == rows;
  }

  /** A record is what its source row says, with the fields `prepare_records` fills in. */
  predicate RecordOf(b: DailyBar, r: RawRow, tickerMap: map<string, Option<string>>)
  {
    && r.ticker == Some(b.ticker)
    && b.companyName == CompanyName(tickerMap, b.ticker)
    && b.date == r.date
    && b.open == ToNumeric(r.open) && b.high == ToNumeric(r.high) && b.low == ToNumeric(r.low)
    && b.close == ToNumeric(r.close)
    && b.volume == VolumeOf(r.volume)
    && b.marketCap == None
  }

  /** Every prepared record comes from a row of the frame and has a close. */
  lemma {:induction false} PreparedSound(rows: seq<RawRow>, tickerMap: map<string, Option<string>>)
    ensures |Prepared(rows, tickerMap)| <= |rows|
    ensures forall b :: b in Prepared(rows, tickerMap) ==>
      b.close.Some? && exists i :: 0 <= i < |rows| && RecordOf(b, rows[i], tickerMap)
  {
    if rows != [] {
      var init, last := rows[..|rows| - 1], rows[|rows| - 1];
      PreparedSound(init, tickerMap);
      var tail := match NormalizeRow(last, tickerMap) case Some(b) => [b] case None => [];
      var p := Prepared(rows, tickerMap);
      assert p == Prepared(init, tickerMap) + tail;
      forall b | b in p ensures b.close.Some? && exists i :: 0 <= i < |rows| && RecordOf(b, rows[i], tickerMap) {
        if b in Prepared(init, tickerMap) {
          var i :| 0 <= i < |init| && RecordOf(b, init[i], tickerMap);
          assert rows[i] == init[i];
        } else {
          assert b in tail;
          assert RecordOf(b, rows[|rows| - 1], tickerMap);
        }
      }
    }
  }

  /** Every row with a ticker and a numeric close yields a record. */
  lemma {:induction false} PreparedComplete(rows: seq<RawRow>, tickerMap: map<string, Option<string>>)
    ensures forall i :: 0 <= i < |rows| && rows[i].ticker.Some? && ToNumeric(rows[i].close).Some? ==>
      exists b :: b in Prepared(rows, tickerMap) && RecordOf(b, rows[i], tickerMap)
  {
    if rows != [] {
      var init, last := rows[..|rows| - 1], rows[|rows| - 1];
      PreparedComplete(init, tickerMap);
      var tail := match NormalizeRow(last, tickerMap) case Some(b) => [b] case None => [];
      var p := Prepared(rows, tickerMap);
      assert p == Prepared(init, tickerMap) + tail;
      forall i | 0 <= i < |rows| && rows[i].ticker.Some? && ToNumeric(rows[i].close).Some?
        ensures exists b :: b in p && RecordOf(b, rows[i], tickerMap)
      {
        if i < |init| {
          assert rows[i] == init[i];
          var b :| b in Prepared(init, tickerMap) && RecordOf(b, init[i], tickerMap);
          assert b in p;
        } else {
          var b := NormalizeRow(last, tickerMap).value;
          assert b in tail && rows[i] == last;
          assert b in p && RecordOf(b, rows[i], tickerMap);
        }
      }
    }
  }

  lemma PreparedRecords(rows: seq<RawRow>, tickerMap: map<string, Option<string>>)
    ensures |Prepared(rows, tickerMap)| <= |rows|
    ensures forall b :: b in Prepared(rows, tickerMap) ==>
      b.close.Some? && exists i :: 0 <= i < |rows| && RecordOf(b, rows[i], tickerMap)
    ensures forall i :: 0 <= i < |rows| && rows[i].ticker.Some? && ToNumeric(rows[i].close).Some? ==>
      exists b :: b in Prepared(rows, tickerMap) && RecordOf(b, rows[i], tickerMap)
  {
    PreparedSound(rows, tickerMap);
    PreparedComplete(rows, tickerMap);
  }

  // ---------------------------------------------------------------------------
  // upsert_records
  // ---------------------------------------------------------------------------

  /**
   * `upsert_records`: the records are written chunk by chunk, the slices
   * `records[i:i + chunk_size]` in order; the first chunk whose write fails
   * stops the loop (the exception is re-raised), and the chunks before it stay
   * written. The result names the failing chunk.
   */
  method UpsertRecords(db: Database, records: seq<DailyBar>, chunkSize: nat) returns (failed: Option<nat>)
    requires db.Valid() && chunkSize > 0
    modifies db
    ensures db.Valid()
    ensures db.dailyMovers == old(db.dailyMovers) && db.weeklyMovers == old(db.weeklyMovers)
    ensures db.tickers == old(db.tickers)
    ensures failed.None? ==>
      && db.stocksDaily == UpsertAll(old(db.stocksDaily), records, BarKeyOf)
      && db.writes == old(db.writes) + |Chunks(records, chunkSize)|
    ensures failed.Some? ==>
      && failed.value < |Chunks(records, chunkSize)|
      && old(db.writes) + failed.value in db.rejected
      && db.writes == old(db.writes) + failed.value + 1
      && db.stocksDaily == UpsertAll(old(db.stocksDaily), Flatten(Chunks(records, chunkSize)[..failed.value]), BarKeyOf)
    ensures failed.None? <==> NoneRejected(db.rejected, old(db.writes), |Chunks(records, chunkSize)|)
    ensures failed.Some? ==> NoneRejected(db.rejected, old(db.writes), failed.value)
  {
    if records == [] {
      return None;
    }
    ghost var store0, start, daily0, weekly0, tickers0 := db.stocksDaily, db.writes, db.dailyMovers, db.weeklyMovers, db.tickers;
    ghost var rejected := db.rejected;
    var chunks := Chunks(records, chunkSize);
    var k := 0;
    while k < |chunks|
      invariant k <= |chunks|
      invariant db.Valid() && db.rejected == rejected
      invariant db.writes == start + k
      invariant NoneRejected(rejected, start, k)
      invariant db.stocksDaily == UpsertAll(store0, Flatten(chunks[..k]), BarKeyOf)
      invariant db.dailyMovers == daily0 && db.weeklyMovers == weekly0 && db.tickers == tickers0
    {
      var ok := db.UpsertStocksDaily(chunks[k]);
      if !ok {
        return Some(k);
      }
      FlattenSnoc(chunks, k);
      UpsertAppend(store0, Flatten(chunks[..k]), chunks[k], BarKeyOf);
      k := k + 1;
    }
    ChunksFlatten(records, chunkSize);
    assert chunks[..k] == chunks;
    failed := None;
  }

  // ---------------------------------------------------------------------------
  // calculate_daily_movers / calculate_weekly_movers
  // ---------------------------------------------------------------------------

  /** One iteration of the ticker loop: group, sort by date, test the last two bars. */
  method LatestDailyMover(rows: seq<DailyBar>, t: string, minPercent: real) returns (m: Option<DailyMover>)
    requires NoDuplicateKeys(rows)
    ensures m.Some? ==> m.value.ticker == t && DailySound(Members(rows), minPercent, m.value)
    ensures forall p, c :: IsLastTwo(Members(rows), t, p, c) ==> DailyChange(p, c, minPercent) == m
    ensures m.None? ==> forall p, c :: IsLastTwo(Members(rows), t, p, c) ==> DailyChange(p, c, minPercent).None?
  {
    NoDuplicateKeysMeaning(rows);
    ghost var bars := Members(rows);
    var group := SortByDate(OfTicker(rows, t));
    SortedGroup(rows, t);
    if |group| < 2 {
      forall p, c ensures !IsLastTwo(bars, t, p, c) {
        if IsLastTwo(bars, t, p, c) {
          LastTwoNeedsTwoBars(bars, t, p, c);
        }
      }
      return None;
    }
    var prev, curr := group[|group| - 2], group[|group| - 1];
    LastTwoOfSorted(bars, t, group);
    forall p, c | IsLastTwo(bars, t, p, c) ensures p == prev && c == curr {
      LastTwoUnique(bars, t, p, c, prev, curr);
    }
    m := DailyChange(prev, curr, minPercent);
  }

  /** The loop of `calculate_daily_movers` over the tickers of the window, in ascending order. */
  method DetectDailyMovers(rows: seq<DailyBar>, minPercent: real) returns (movers: seq<DailyMover>)
    requires NoDuplicateKeys(rows)
    ensures DailyMoversOf(Members(rows), minPercent, movers)
  {
    var tickers := Text.SortedUnique(TickerColumn(rows));
    movers := [];
    for k := 0 to |tickers|
      invariant DailyLoopInv(rows, minPercent, tickers, k, movers)
    {
      var m := LatestDailyMover(rows, tickers[k], minPercent);
      DailyLoopStep(rows, minPercent, tickers, k, movers, m);
      if m.Some? {
        movers := movers + [m.value];
      }
    }
    DailyMoversFromLoop(rows, minPercent, tickers, movers);
  }

  /** One iteration of the weekly ticker loop: at least 5 bars, then the first and the last one. */
  method WeekEndsMover(rows: seq<DailyBar>, t: string, minPercent: real) returns (m: Option<WeeklyMover>)
    requires NoDuplicateKeys(rows)
    ensures m.Some? ==> m.value.ticker == t && WeeklySound(Members(rows), minPercent, m.value)
    ensures forall f, l :: IsWeekEnds(Members(rows), t, f, l) && |TickerBars(Members(rows), t)| >= 5 ==>
      WeeklyChange(f, l, minPercent) == m
    ensures |TickerBars(Members(rows), t)| < 5 ==> m.None?
  {
    NoDuplicateKeysMeaning(rows);
    ghost var bars := Members(rows);
    var group := SortByDate(OfTicker(rows, t));
    SortedGroup(rows, t);
    if |group| < 5 {
      return None;
    }
    var first, last := group[0], group[|group| - 1];
    WeekEndsOfSorted(bars, t, group);
    forall f, l | IsWeekEnds(bars, t, f, l) ensures f == first && l == last {
      WeekEndsUnique(bars, t, f, l, first, last);
    }
    m := WeeklyChange(first, last, minPercent);
  }

  /** The loop of `calculate_weekly_movers` over the tickers of the window, in ascending order. */
  method DetectWeeklyMovers(rows: seq<DailyBar>, minPercent: real) returns (movers: seq<WeeklyMover>)
    requires NoDuplicateKeys(rows)
    ensures WeeklyMoversOf(Members(rows), minPercent, movers)
  {
    var tickers := Text.SortedUnique(TickerColumn(rows));
    movers := [];
    for k := 0 to |tickers|
      invariant WeeklyLoopInv(rows, minPercent, tickers, k, movers)
    {
      var m := WeekEndsMover(rows, tickers[k], minPercent);
      WeeklyLoopStep(rows, minPercent, tickers, k, movers, m);
      if m.Some? {
        movers := movers + [m.value];
      }
    }
    WeeklyMoversFromLoop(rows, minPercent, tickers, movers);
  }

  /**
   * `calculate_daily_movers`: the bars dated `[target - 4, target]` (from
   * `two_days_ago = yesterday - 3` with `yesterday = target - 1`), their movers,
   * each upserted on its own. When the select raises, the outer handler logs
   * it and no mover is computed or written.
   */
  method CalculateDailyMovers(db: Database, targetDate: Date, minPercent: real) returns (movers: seq<DailyMover>)
    requires db.Valid()
    modifies db
    ensures db.Valid()
    ensures (targetDate - 4, targetDate) in db.refusedSelects ==> movers == []
    ensures (targetDate - 4, targetDate) !in db.refusedSelects ==>
      DailyMoversOf(Window(db.stocksDaily, targetDate - 4, targetDate), minPercent, movers)
    ensures db.writes == old(db.writes) + |movers|
    ensures db.dailyMovers == UpsertAll(old(db.dailyMovers), Accepted(movers, old(db.writes), db.rejected), DailyMoverKey)
    ensures db.stocksDaily == old(db.stocksDaily) && db.weeklyMovers == old(db.weeklyMovers)
    ensures db.tickers == old(db.tickers)
  {
    var yesterday := targetDate - 1;
    var twoDaysAgo := yesterday - 3;
    var selected := db.SelectBars(twoDaysAgo, targetDate);
    if selected.None? {
      return [];
    }
    var rows := selected.value;
    assert Members(rows) == Window(db.stocksDaily, targetDate - 4, targetDate);
    if rows == [] {
      return [];
    }
    movers := DetectDailyMovers(rows, minPercent);
    WriteDailyMovers(db, movers);
  }

  /**
   * `calculate_weekly_movers`: the bars dated `[target - 10, target]`, their
   * movers, each upserted on its own; nothing when the select raises.
   */
  method CalculateWeeklyMovers(db: Database, targetDate: Date, minPercent: real) returns (movers: seq<WeeklyMover>)
    requires db.Valid()
    modifies db
    ensures db.Valid()
    ensures (targetDate - 10, targetDate) in db.refusedSelects ==> movers == []
    ensures (targetDate - 10, targetDate) !in db.refusedSelects ==>
      WeeklyMoversOf(Window(db.stocksDaily, targetDate - 10, targetDate), minPercent, movers)
    ensures db.writes == old(db.writes) + |movers|
    ensures db.weeklyMovers
         == UpsertAll(old(db.weeklyMovers), Accepted(movers, old(db.writes), db.rejected), WeeklyMoverKey)
    ensures db.stocksDaily == old(db.stocksDaily) && db.dailyMovers == old(db.dailyMovers)
    ensures db.tickers == old(db.tickers)
  {
    var tenDaysAgo := targetDate - 10;
    var selected := db.SelectBars(tenDaysAgo, targetDate);
    if selected.None? {
      return [];
    }
    var rows := selected.value;
    assert Members(rows) == Window(db.stocksDaily, targetDate - 10, targetDate);
    if rows == [] {
      return [];
    }
    movers := DetectWeeklyMovers(rows, minPercent);
    WriteWeeklyMovers(db, movers);
  }

  // ---------------------------------------------------------------------------
  // load_tickers_from_csv
  // ---------------------------------------------------------------------------

  /** One row of the `(ticker, company_name)` table the loader works from. */
  datatype TickerEntry = TickerEntry(ticker: string, companyName: Option<string>)

  /** The `company_name` column, else the `name` column. */
  function NameColumnOf(header: seq<string>): Option<nat>
  {
    if "company_name" in header then TickerCsv.IndexOf(header, "company_name") else TickerCsv.IndexOf(header, "name")
  }

  /** `df[name_col].fillna(df[ticker_col])`: one name per row, a blank name replaced by the raw ticker cell. */
  function NameCells(rows: seq<seq<Option<string>>>, nameCol: nat, tickerCol: nat): (names: seq<Option<string>>)
    ensures |names| == |rows|
  {
    if rows == [] then []
    else
      [if TickerCsv.CellAt(rows[0], nameCol).Some? then TickerCsv.CellAt(rows[0], nameCol)
       else TickerCsv.CellAt(rows[0], tickerCol)]
      + NameCells(rows[1..], nameCol, tickerCol)
  }

  function Somes(ts: seq<string>): (r: seq<Option<string>>)
    ensures |r| == |ts| && forall i :: 0 <= i < |ts| ==> r[i] == Some(ts[i])
  {
    if ts == [] then [] else [Some(ts[0])] + Somes(ts[1..])
  }

  /** `pd.DataFrame({'ticker': tickers, 'company_name': names})` for two lists of one length. */
  function ZipEntries(ts: seq<string>, ns: seq<Option<string>>): (r: seq<TickerEntry>)
    requires |ts| == |ns|
    ensures |r| == |ts| && forall i :: 0 <= i < |ts| ==> r[i] == TickerEntry(ts[i], ns[i])
  {
    if ts == [] then [] else [TickerEntry(ts[0], ns[0])] + ZipEntries(ts[1..], ns[1..])
  }

  /**
   * `load_tickers_from_csv` as written; `None` is `sys.exit(1)`. The ticker
   * list drops blank cells but the name list has one entry per row, so with a
   * name column and a blank ticker cell the two lengths differ and the table
   * constructor raises.
   */
  function TickerTableAsWritten(csv: TickerCsv.Csv): Option<seq<TickerEntry>>
  {
    match csv
    case Unreadable => None
    case Table(header, rows) =>
      match TickerCsv.TickerColumnOf(header)
      case None => None
      case Some(col) =>
        var tickers := TickerCsv.ColumnTickers(rows, col);
        match NameColumnOf(header)
        case None => Some(ZipEntries(tickers, Somes(tickers)))
        case Some(nameCol) =>
          var names := NameCells(rows, nameCol, col);
          if |names| != |tickers| then None else Some(ZipEntries(tickers, names))
  }

  /** An entry per row with a ticker cell, its name read from the same row. */
  function AlignedEntries(rows: seq<seq<Option<string>>>, col: nat, nameCol: Option<nat>): seq<TickerEntry>
  {
    if rows == [] then []
    else
      var rest := AlignedEntries(rows[1..], col, nameCol);
      match TickerCsv.CellAt(rows[0], col)
      case None => rest
      case Some(cell) =>
        var t := Text.Strip(cell);
        var name :=
          if nameCol.None? then Some(t)
          else if TickerCsv.CellAt(rows[0], nameCol.value).Some? then TickerCsv.CellAt(rows[0], nameCol.value)
          else Some(cell);
        [TickerEntry(t, name)] + rest
  }

  /** The corrected loader: the same column choice, with ticker and name taken from the same rows. */
  function TickerTable(csv: TickerCsv.Csv): Option<seq<TickerEntry>>
  {
    match csv
    case Unreadable => None
    case Table(header, rows) =>
      match TickerCsv.TickerColumnOf(header)
      case None => None
      case Some(col) => Some(AlignedEntries(rows, col, NameColumnOf(header)))
  }

  method LoadTickersFromCsv(csv: TickerCsv.Csv) returns (table: Option<seq<TickerEntry>>)
    ensures table == TickerTable(csv)
  {
    match csv {
      case Unreadable =>
        table := None;
      case Table(header, rows) =>
        var col := TickerCsv.FindTickerColumn(header);
        if col.None? {
          return None;
        }
        table := Some(AlignedEntries(rows, col.value, NameColumnOf(header)));
    }
  }

  /** Each entry kept carries the ticker read from its row and some company name. */
  lemma {:induction false} AlignedShape(rows: seq<seq<Option<string>>>, col: nat, nameCol: Option<nat>)
    ensures |AlignedEntries(rows, col, nameCol)| == |TickerCsv.ColumnTickers(rows, col)|
    ensures forall i :: 0 <= i < |AlignedEntries(rows, col, nameCol)| ==>
      AlignedEntries(rows, col, nameCol)[i].ticker == TickerCsv.ColumnTickers(rows, col)[i]
      && AlignedEntries(rows, col, nameCol)[i].companyName.Some?
  {
    if rows != [] {
      AlignedShape(rows[1..], col, nameCol);
      var es, es' := AlignedEntries(rows, col, nameCol), AlignedEntries(rows[1..], col, nameCol);
      var ts, ts' := TickerCsv.ColumnTickers(rows, col), TickerCsv.ColumnTickers(rows[1..], col);
      if TickerCsv.CellAt(rows[0], col).Some? {
        assert ts == [Text.Strip(TickerCsv.CellAt(rows[0], col).value)] + ts';
        assert ts[1..] == ts';
        assert es[1..] == es';
        assert es[0].ticker == ts[0] && es[0].companyName.Some?;
        forall i | 1 <= i < |es| ensures es[i].ticker == ts[i] && es[i].companyName.Some? {
          assert es[i] == es[1..][i - 1] && ts[i] == ts[1..][i - 1];
        }
      } else {
        assert es == es' && ts == ts';
      }
    }
  }

  /** Without a name column, every ticker is its own company name. */
  lemma {:induction false} AlignedWithoutNames(rows: seq<seq<Option<string>>>, col: nat)
    ensures AlignedEntries(rows, col, None)
      == ZipEntries(TickerCsv.ColumnTickers(rows, col), Somes(TickerCsv.ColumnTickers(rows, col)))
  {
    if rows != [] {
      AlignedWithoutNames(rows[1..], col);
      var ts := TickerCsv.ColumnTickers(rows, col);
      var ts' := TickerCsv.ColumnTickers(rows[1..], col);
      if TickerCsv.CellAt(rows[0], col).Some? {
        assert ts == [Text.Strip(TickerCsv.CellAt(rows[0], col).value)] + ts';
        assert ts[1..] == ts';
        assert Somes(ts)[1..] == Somes(ts');
      }
    }
  }

  /** With a name column and no blank ticker cell, the names are the rows' name cells. */
  lemma {:induction false} AlignedWithNames(rows: seq<seq<Option<string>>>, col: nat, nameCol: nat)
    requires |TickerCsv.ColumnTickers(rows, col)| == |rows|
    ensures AlignedEntries(rows, col, Some(nameCol))
      == ZipEntries(TickerCsv.ColumnTickers(rows, col), NameCells(rows, nameCol, col))
  {
    if rows != [] {
      TickerCsv.ColumnTickersFromCells(rows, col);
      assert TickerCsv.CellAt(rows[0], col).Some?;
      var ts := TickerCsv.ColumnTickers(rows, col);
      var ts' := TickerCsv.ColumnTickers(rows[1..], col);
      assert ts == [Text.Strip(TickerCsv.CellAt(rows[0], col).value)] + ts';
      AlignedWithNames(rows[1..], col, nameCol);
      assert ts[1..] == ts';
      assert NameCells(rows, nameCol, col)[1..] == NameCells(rows[1..], nameCol, col);
    }
  }

  lemma AlignedTickers(rows: seq<seq<Option<string>>>, col: nat, nameCol: Option<nat>)
    ensures |AlignedEntries(rows, col, nameCol)| == |TickerCsv.ColumnTickers(rows, col)|
    ensures forall i :: 0 <= i < |AlignedEntries(rows, col, nameCol)| ==>
      AlignedEntries(rows, col, nameCol)[i].ticker == TickerCsv.ColumnTickers(rows, col)[i]
      && AlignedEntries(rows, col, nameCol)[i].companyName.Some?
    ensures nameCol.None? ==>
      AlignedEntries(rows, col, nameCol)
        == ZipEntries(TickerCsv.ColumnTickers(rows, col), Somes(TickerCsv.ColumnTickers(rows, col)))
    ensures nameCol.Some? && |TickerCsv.ColumnTickers(rows, col)| == |rows| ==>
      AlignedEntries(rows, col, nameCol)
        == ZipEntries(TickerCsv.ColumnTickers(rows, col), NameCells(rows, nameCol.value, col))
  {
    AlignedShape(rows, col, nameCol);
    if nameCol.None? {
      AlignedWithoutNames(rows, col);
    } else if |TickerCsv.ColumnTickers(rows, col)| == |rows| {
      AlignedWithNames(rows, col, nameCol.value);
    }
  }

  /**
   * Where the loader as written produces a table the correction produces the
   * same one; the correction never exits on a readable table with a column;
   * and the two differ exactly when a name column sits beside a blank ticker cell.
   */
  lemma CorrectionAgrees(csv: TickerCsv.Csv)
    ensures TickerTableAsWritten(csv).Some? ==> TickerTable(csv) == TickerTableAsWritten(csv)
    ensures TickerTable(csv).Some? <==> csv.Table? && csv.header != []
    ensures TickerTableAsWritten(csv).None? && TickerTable(csv).Some? <==>
      && csv.Table? && csv.header != [] && NameColumnOf(csv.header).Some?
      && exists r :: 0 <= r < |csv.rows| && TickerCsv.CellAt(csv.rows[r], TickerCsv.TickerColumnOf(csv.header).value).None?
  {
    if csv.Table? {
      var col := TickerCsv.TickerColumnOf(csv.header);
      TickerCsv.FindTickerColumnTotal(csv.header);
      if col.Some? {
        AlignedTickers(csv.rows, col.value, NameColumnOf(csv.header));
        TickerCsv.ColumnTickersFromCells(csv.rows, col.value);
      }
    }
  }

  /**
   * A file with a `name` column and one row whose ticker cell is empty: the
   * loader as written exits, although the file names a ticker; the correction
   * loads that ticker with its name.
   */
  lemma BlankTickerCellAbortsLoad()
    ensures var csv := TickerCsv.Table(["ticker", "name"], [[Some("AAPL"), Some("Apple")], [None, Some("Orphan")]]);
      TickerTableAsWritten(csv) == None
      && TickerTable(csv) == Some([TickerEntry("AAPL", Some("Apple"))])
  {
    var rows: seq<seq<Option<string>>> := [[Some("AAPL"), Some("Apple")], [None, Some("Orphan")]];
    ExampleColumns();
    ExampleTickers();
    ExampleEntries();
    assert |NameCells(rows, 1, 0)| == 2;
  }

  /** Where the example header puts its ticker and name columns. */
  lemma ExampleColumns()
    ensures TickerCsv.TickerColumnOf(["ticker", "name"]) == Some(0)
    ensures NameColumnOf(["ticker", "name"]) == Some(1)
  {
    var header: seq<string> := ["ticker", "name"];
    assert header[0] == "ticker";
    TickerCsv.TickerColumnChoice(header, 0);
    assert "company_name" !in header;
    assert header[1] == "name";
  }

  /** The example ticker cell has no surrounding whitespace. */
  lemma StripExampleTicker()
    ensures Text.Strip("AAPL") == "AAPL"
  {
    Text.StripClean("AAPL");
  }

  /** The example rows give one ticker. */
  lemma ExampleTickers()
    ensures TickerCsv.ColumnTickers([[Some("AAPL"), Some("Apple")], [None, Some("Orphan")]], 0) == ["AAPL"]
  {
    var rows: seq<seq<Option<string>>> := [[Some("AAPL"), Some("Apple")], [None, Some("Orphan")]];
    StripExampleTicker();
    assert |rows[1..][1..]| == 0;
    assert TickerCsv.ColumnTickers(rows[1..], 0) == [];
  }

  /** The corrected reading of the example rows gives one entry. */
  lemma ExampleEntries()
    ensures AlignedEntries([[Some("AAPL"), Some("Apple")], [None, Some("Orphan")]], 0, Some(1))
         == [TickerEntry("AAPL", Some("Apple"))]
  {
    var rows: seq<seq<Option<string>>> := [[Some("AAPL"), Some("Apple")], [None, Some("Orphan")]];
    StripExampleTicker();
    assert |rows[1..][1..]| == 0;
    assert AlignedEntries(rows[1..], 0, Some(1)) == [];
  }




  // ---------------------------------------------------------------------------
  // main
  // ---------------------------------------------------------------------------

  /** `dict(zip(df['ticker'], df['company_name']))`: a later entry for the same ticker wins. */
  function NameMap(entries: seq<TickerEntry>): map<string, Option<string>>
  {
    if entries == [] then map[]
    else NameMap(entries[..|entries| - 1])[entries[|entries| - 1].ticker := entries[|entries| - 1].companyName]
  }

  /** The map has exactly the listed tickers. */
  lemma {:induction false} NameMapKeys(entries: seq<TickerEntry>)
    ensures forall t :: t in NameMap(entries) <==> exists i :: 0 <= i < |entries| && entries[i].ticker == t
  {
    if entries != [] {
      var init := entries[..|entries| - 1];
      NameMapKeys(init);
      forall t ensures t in NameMap(entries) <==> exists i :: 0 <= i < |entries| && entries[i].ticker == t {
        if t in NameMap(init) {
          var i :| 0 <= i < |init| && init[i].ticker == t;
          assert entries[i] == init[i];
        }
        if exists i :: 0 <= i < |entries| && entries[i].ticker == t {
          var i :| 0 <= i < |entries| && entries[i].ticker == t;
          if i < |init| {
            assert init[i] == entries[i];
          }
        }
      }
    }
  }

  /** Each ticker maps to the name of its last entry. */
  lemma {:induction false} NameMapLastWins(entries: seq<TickerEntry>, i: nat)
    requires i < |entries|
    requires forall j :: i < j < |entries| ==> entries[j].ticker != entries[i].ticker
    ensures entries[i].ticker in NameMap(entries)
    ensures NameMap(entries)[entries[i].ticker] == entries[i].companyName
    decreases |entries|
  {
    var init := entries[..|entries| - 1];
    if i < |init| {
      assert init[i] == entries[i];
      assert entries[|entries| - 1].ticker != entries[i].ticker;
      forall j | i < j < |init| ensures init[j].ticker != init[i].ticker {
        assert init[j] == entries[j];
      }
      NameMapLastWins(init, i);
    }
  }

  /** `df['ticker'].tolist()`. */
  function TickerList(entries: seq<TickerEntry>): (ts: seq<string>)
    ensures |ts| == |entries| && forall i :: 0 <= i < |entries| ==> ts[i] == entries[i].ticker
  {
    if entries == [] then [] else [entries[0].ticker] + TickerList(entries[1..])
  }

  /** The batches of `BATCH_SIZE` tickers, in order. */
  function Batches(entries: seq<TickerEntry>): seq<seq<string>>
  {
    Chunks(TickerList(entries), BATCH_SIZE)
  }

  /** The batches partition the ticker list in order, and there are `ceil(n / BATCH_SIZE)` of them. */
  lemma BatchesPartition(entries: seq<TickerEntry>)
    ensures Flatten(Batches(entries)) == TickerList(entries)
    ensures |Batches(entries)| == CeilDiv(|entries|, BATCH_SIZE)
    ensures forall b :: b in Batches(entries) ==> 0 < |b| <= BATCH_SIZE
  {
    ChunksFlatten(TickerList(entries), BATCH_SIZE);
    ChunksCount(TickerList(entries), BATCH_SIZE);
    ChunksBounded(TickerList(entries), BATCH_SIZE);
  }

  /** The ticker table of a run: the active tickers of the database, else the CSV file. */
  function SelectedTickers(dbTickers: seq<TickerEntry>, csv: TickerCsv.Csv): Option<seq<TickerEntry>>
  {
    if dbTickers != [] then Some(dbTickers) else TickerTable(csv)
  }

  /** The start of `main`: the active tickers of the database, else those of the ticker file. */
  method ChooseTickers(dbTickers: seq<TickerEntry>, csv: TickerCsv.Csv) returns (selected: Option<seq<TickerEntry>>)
    ensures selected == SelectedTickers(dbTickers, csv)
  {
    if dbTickers != [] {
      selected := Some(dbTickers);
    } else {
      selected := LoadTickersFromCsv(csv);
    }
  }

  /**
   * `recs` is the record schedule of a run over `batches`: `recs(k)` is what
   * batch `k` prepares from its download `downloads(k)`.
   */
  ghost predicate Schedule(recs: nat -> seq<DailyBar>, batches: seq<seq<string>>, downloads: nat -> Download,
                           tickerMap: map<string, Option<string>>)
  {
    forall k {:trigger batches[k]} :: 0 <= k < |batches| ==>
      recs(k) == Prepared(Fetched(batches[k], downloads(k)), tickerMap)
  }

  /** The record schedule of a run over the ticker table `entries`. */
  ghost method ScheduleOf(entries: seq<TickerEntry>, downloads: nat -> Download) returns (recs: nat -> seq<DailyBar>)
    ensures Schedule(recs, Batches(entries), downloads, NameMap(entries))
  {
    recs := (k: nat) =>
      if k < |Batches(entries)| then Prepared(Fetched(Batches(entries)[k], downloads(k)), NameMap(entries)) else [];
  }

  /** How a run of `main` ends. */
  datatype RunOutcome =
    | NoTickers                       // load_tickers_from_csv exits
    | UpsertFailed(at: ChunkFailure)  // upsert_records re-raises out of main
    | NoDataLoaded                    // total_records == 0: sys.exit(1)
    | Completed(totalRecords: nat, daily: seq<DailyMover>, weekly: seq<WeeklyMover>)

  /** The process exit status: only a completed run exits with 0. */
  function ExitStatus(outcome: RunOutcome): (status: int)
    ensures status == 0 <==> outcome.Completed?
    ensures status != 0 ==> status == 1
  {
    if outcome.Completed? then 0 else 1
  }

  /**
   * One turn of the batch loop of `main`: download, filter and prepare the
   * batch, then upsert its records unless there are none. `failed` names the
   * chunk whose write was refused, which ends the run.
   */
  method LoadBatch(db: Database, batch: seq<string>, download: Download, tickerMap: map<string, Option<string>>)
    returns (records: seq<DailyBar>, failed: Option<nat>)
    requires db.Valid()
    modifies db
    ensures db.Valid()
    ensures records == Prepared(Fetched(batch, download), tickerMap)
    ensures db.dailyMovers == old(db.dailyMovers) && db.weeklyMovers == old(db.weeklyMovers)
    ensures db.tickers == old(db.tickers)
    ensures failed.None? <==> NoneRejected(db.rejected, old(db.writes), |Chunks(records, UPSERT_CHUNK)|)
    ensures failed.None? ==>
      && db.stocksDaily == UpsertAll(old(db.stocksDaily), records, BarKeyOf)
      && db.writes == old(db.writes) + |Chunks(records, UPSERT_CHUNK)|
    ensures failed.Some? ==>
      && failed.value < |Chunks(records, UPSERT_CHUNK)|
      && NoneRejected(db.rejected, old(db.writes), failed.value)
      && old(db.writes) + failed.value in db.rejected
      && db.writes == old(db.writes) + failed.value + 1
      && db.stocksDaily == UpsertAll(old(db.stocksDaily), Flatten(Chunks(records, UPSERT_CHUNK)[..failed.value]), BarKeyOf)
  {
    var df := FetchBatchData(batch, download);
    if df == [] {
      return [], None;
    }
    records := PrepareRecords(df, tickerMap);
    if records != [] {
      failed := UpsertRecords(db, records, UPSERT_CHUNK);
    } else {
      failed := None;
    }
  }

  /** Turn `k` of the batch loop, whose records are `recs(k)`. */
  method LoadBatchAt(db: Database, batches: seq<seq<string>>, downloads: nat -> Download,
                     tickerMap: map<string, Option<string>>, ghost recs: nat -> seq<DailyBar>, k: nat)
    returns (records: seq<DailyBar>, failed: Option<nat>)
    requires db.Valid() && k < |batches|
    requires Schedule(recs, batches, downloads, tickerMap)
    modifies db
    ensures db.Valid()
    ensures records == recs(k)
    ensures db.dailyMovers == old(db.dailyMovers) && db.weeklyMovers == old(db.weeklyMovers)
    ensures db.tickers == old(db.tickers)
    ensures failed.None? <==> NoneRejected(db.rejected, old(db.writes), |Chunks(records, UPSERT_CHUNK)|)
    ensures failed.None? ==>
      && db.stocksDaily == UpsertAll(old(db.stocksDaily), records, BarKeyOf)
      && db.writes == old(db.writes) + |Chunks(records, UPSERT_CHUNK)|
    ensures failed.Some? ==>
      && failed.value < |Chunks(records, UPSERT_CHUNK)|
      && NoneRejected(db.rejected, old(db.writes), failed.value)
      && old(db.writes) + failed.value in db.rejected
      && db.writes == old(db.writes) + failed.value + 1
      && db.stocksDaily == UpsertAll(old(db.stocksDaily), Flatten(Chunks(records, UPSERT_CHUNK)[..failed.value]), BarKeyOf)
  {
    records, failed := LoadBatch(db, batches[k], downloads(k), tickerMap);
  }

  /**
   * The batch loop of `main`: download, prepare and upsert each batch of
   * `batches` in turn, skipping a batch whose fetch is empty; a refused chunk
   * write stops the loop. `recs` is the run's record schedule.
   */
  method LoadBatches(db: Database, batches: seq<seq<string>>, downloads: nat -> Download,
                     tickerMap: map<string, Option<string>>, ghost recs: nat -> seq<DailyBar>)
    returns (total: nat, failed: Option<ChunkFailure>)
    requires db.Valid()
    requires Schedule(recs, batches, downloads, tickerMap)
    modifies db
    ensures db.Valid()
    ensures db.dailyMovers == old(db.dailyMovers) && db.weeklyMovers == old(db.weeklyMovers)
    ensures db.tickers == old(db.tickers)
    ensures failed.None? <==> NoneRejected(db.rejected, old(db.writes), ChunkTotal(recs, UPSERT_CHUNK, |batches|))
    ensures failed.None? ==>
      && total == |LoadedOf(recs, |batches|)|
      && db.stocksDaily == UpsertAll(old(db.stocksDaily), LoadedOf(recs, |batches|), BarKeyOf)
      && db.writes == old(db.writes) + ChunkTotal(recs, UPSERT_CHUNK, |batches|)
    ensures failed.Some? ==>
      StoppedAt(recs, |batches|, UPSERT_CHUNK, BarKeyOf, failed.value,
                db.rejected, old(db.writes), db.writes, old(db.stocksDaily), db.stocksDaily)
  {
    ghost var store0, start, daily0, weekly0, tickers0 := db.stocksDaily, db.writes, db.dailyMovers, db.weeklyMovers, db.tickers;
    total := 0;
    for k := 0 to |batches|
      invariant db.Valid()
      invariant total == |LoadedOf(recs, k)|
      invariant db.writes == start + ChunkTotal(recs, UPSERT_CHUNK, k)
      invariant NoneRejected(db.rejected, start, ChunkTotal(recs, UPSERT_CHUNK, k))
      invariant db.stocksDaily == UpsertAll(store0, LoadedOf(recs, k), BarKeyOf)
      invariant db.dailyMovers == daily0 && db.weeklyMovers == weekly0 && db.tickers == tickers0
    {
      ghost var before, w := db.stocksDaily, db.writes;
      var records, chunkFailed := LoadBatchAt(db, batches, downloads, tickerMap, recs, k);
      if chunkFailed.Some? {
        failed := Some(ChunkFailure(k, chunkFailed.value));
        ChunkStopped(recs, |batches|, UPSERT_CHUNK, BarKeyOf, failed.value, db.rejected,
                     start, w, db.writes, store0, before, db.stocksDaily);
        return total, failed;
      }
      ChunkAdvanced(recs, UPSERT_CHUNK, BarKeyOf, k, db.rejected, start, w, store0, before, db.stocksDaily);
      total := total + |records|;
    }
    failed := None;
  }

  /**
   * The movers a completed run found in `store`: for each of the two windows,
   * none when its select was refused, otherwise exactly the window's movers.
   */
  ghost predicate MoversFound(refused: set<(Date, Date)>, targetDate: Date, store: map<BarKey, DailyBar>,
                              daily: seq<DailyMover>, weekly: seq<WeeklyMover>)
  {
    && ((targetDate - 4, targetDate) in refused ==> daily == [])
    && ((targetDate - 4, targetDate) !in refused ==>
          DailyMoversOf(Window(store, targetDate - 4, targetDate), MIN_PERCENT, daily))
    && ((targetDate - 10, targetDate) in refused ==> weekly == [])
    && ((targetDate - 10, targetDate) !in refused ==>
          WeeklyMoversOf(Window(store, targetDate - 10, targetDate), MIN_PERCENT, weekly))
  }

  /**
   * `main` once its ticker table `entries` is chosen: load the batches in
   * order, then compute the movers only when some record was loaded. The
   * movers' write requests follow the chunk writes of the batches. `recs` is
   * the run's record schedule.
   */
  method LoadAndReport(db: Database, entries: seq<TickerEntry>, targetDate: Date, downloads: nat -> Download,
                       ghost recs: nat -> seq<DailyBar>)
    returns (outcome: RunOutcome)
    requires db.Valid()
    requires Schedule(recs, Batches(entries), downloads, NameMap(entries))
    modifies db
    ensures db.Valid()
    ensures !outcome.NoTickers?
    ensures !outcome.Completed? ==>
      db.dailyMovers == old(db.dailyMovers) && db.weeklyMovers == old(db.weeklyMovers)
    ensures db.tickers == old(db.tickers)
    ensures outcome.UpsertFailed?
        <==> !NoneRejected(db.rejected, old(db.writes), ChunkTotal(recs, UPSERT_CHUNK, |Batches(entries)|))
    ensures outcome.UpsertFailed? ==>
      StoppedAt(recs, |Batches(entries)|, UPSERT_CHUNK, BarKeyOf, outcome.at,
                db.rejected, old(db.writes), db.writes, old(db.stocksDaily), db.stocksDaily)
    ensures outcome.NoDataLoaded? || outcome.Completed? ==>
      && db.stocksDaily == UpsertAll(old(db.stocksDaily), LoadedOf(recs, |Batches(entries)|), BarKeyOf)
      && (outcome.Completed? <==> |LoadedOf(recs, |Batches(entries)|)| > 0)
    ensures outcome.NoDataLoaded? ==> db.writes == old(db.writes) + ChunkTotal(recs, UPSERT_CHUNK, |Batches(entries)|)
    ensures outcome.Completed? ==>
      && outcome.totalRecords == |LoadedOf(recs, |Batches(entries)|)|
      && MoversFound(db.refusedSelects, targetDate, db.stocksDaily, outcome.daily, outcome.weekly)
      && MoversWritten(db, outcome.daily, outcome.weekly, old(db.writes) + ChunkTotal(recs, UPSERT_CHUNK, |Batches(entries)|),
                       old(db.dailyMovers), old(db.weeklyMovers))
  {
    var total, failed := LoadBatches(db, Batches(entries), downloads, NameMap(entries), recs);
    outcome := FinishRun(db, total, failed, targetDate, old(db.writes) + ChunkTotal(recs, UPSERT_CHUNK, |Batches(entries)|),
                         db.stocksDaily, old(db.dailyMovers), old(db.weeklyMovers));
  }

  /**
   * The end of `main` once the batch loop is over: a refused chunk write
   * ends the run; otherwise `total` records were loaded, and the movers are
   * computed and stored only when it is positive. `store0`, `daily0` and
   * `weekly0` name the tables at this point, and `from` the write count when
   * no chunk write was refused.
   */
  method FinishRun(db: Database, total: nat, failed: Option<ChunkFailure>, targetDate: Date, ghost from: nat,
                   ghost store0: map<BarKey, DailyBar>, ghost daily0: map<BarKey, DailyMover>,
                   ghost weekly0: map<BarKey, WeeklyMover>)
    returns (outcome: RunOutcome)
    requires db.Valid()
    requires failed.None? ==> from == db.writes
    requires store0 == db.stocksDaily && daily0 == db.dailyMovers && weekly0 == db.weeklyMovers
    modifies db
    ensures db.Valid()
    ensures !outcome.NoTickers?
    ensures outcome.UpsertFailed? <==> failed.Some?
    ensures outcome.UpsertFailed? ==> outcome.at == failed.value
    ensures outcome.Completed? <==> failed.None? && total > 0
    ensures db.stocksDaily == store0 && db.tickers == old(db.tickers)
    ensures !outcome.Completed? ==>
      db.dailyMovers == daily0 && db.weeklyMovers == weekly0 && db.writes == old(db.writes)
    ensures outcome.Completed? ==>
      && outcome.totalRecords == total
      && MoversFound(db.refusedSelects, targetDate, store0, outcome.daily, outcome.weekly)
      && MoversWritten(db, outcome.daily, outcome.weekly, from, daily0, weekly0)
  {
    if failed.Some? {
      outcome := UpsertFailed(failed.value);
    } else if total > 0 {
      var daily := CalculateDailyMovers(db, targetDate, MIN_PERCENT);
      ghost var weeklyFrom := db.writes;
      var weekly := CalculateWeeklyMovers(db, targetDate, MIN_PERCENT);
      assert weeklyFrom == from + |daily|;
      outcome := Completed(total, daily, weekly);
    } else {
      outcome := NoDataLoaded;
    }
  }

  /**
   * `main`: pick the ticker table, download and load the batches in order
   * (a batch whose fetch is empty is skipped), and compute the movers only
   * when some record was loaded. `dbTickers` is what the paginated
   * `get_tickers_from_db` query returned and `downloads(k)` the download of
   * batch `k`; the ticker file is read by the corrected `LoadTickersFromCsv`.
   */
  method RunLoader(db: Database, dbTickers: seq<TickerEntry>, csv: TickerCsv.Csv, targetDate: Date,
                   downloads: nat -> Download)
    returns (outcome: RunOutcome, ghost recs: nat -> seq<DailyBar>)
    requires db.Valid()
    modifies db
    ensures db.Valid()
    ensures outcome.NoTickers? <==> SelectedTickers(dbTickers, csv).None?
    ensures outcome.NoTickers? ==> db.stocksDaily == old(db.stocksDaily) && db.writes == old(db.writes)
    ensures !outcome.Completed? ==>
      db.dailyMovers == old(db.dailyMovers) && db.weeklyMovers == old(db.weeklyMovers)
    ensures db.tickers == old(db.tickers)
    ensures SelectedTickers(dbTickers, csv).Some? ==>
      Schedule(recs, Batches(SelectedTickers(dbTickers, csv).value), downloads,
               NameMap(SelectedTickers(dbTickers, csv).value))
    ensures SelectedTickers(dbTickers, csv).Some? ==>
      (outcome.UpsertFailed?
       <==> !NoneRejected(db.rejected, old(db.writes),
                          ChunkTotal(recs, UPSERT_CHUNK, |Batches(SelectedTickers(dbTickers, csv).value)|)))
    ensures outcome.UpsertFailed? ==>
      StoppedAt(recs, |Batches(SelectedTickers(dbTickers, csv).value)|, UPSERT_CHUNK, BarKeyOf, outcome.at,
                db.rejected, old(db.writes), db.writes, old(db.stocksDaily), db.stocksDaily)
    ensures outcome.NoDataLoaded? || outcome.Completed? ==>
      && db.stocksDaily
         == UpsertAll(old(db.stocksDaily), LoadedOf(recs, |Batches(SelectedTickers(dbTickers, csv).value)|), BarKeyOf)
      && (outcome.Completed? <==> |LoadedOf(recs, |Batches(SelectedTickers(dbTickers, csv).value)|)| > 0)
    ensures outcome.NoDataLoaded? ==>
      db.writes == old(db.writes) + ChunkTotal(recs, UPSERT_CHUNK, |Batches(SelectedTickers(dbTickers, csv).value)|)
    ensures outcome.Completed? ==>
      && outcome.totalRecords == |LoadedOf(recs, |Batches(SelectedTickers(dbTickers, csv).value)|)|
      && MoversFound(db.refusedSelects, targetDate, db.stocksDaily, outcome.daily, outcome.weekly)
      && MoversWritten(db, outcome.daily, outcome.weekly,
                       old(db.writes) + ChunkTotal(recs, UPSERT_CHUNK, |Batches(SelectedTickers(dbTickers, csv).value)|),
                       old(db.dailyMovers), old(db.weeklyMovers))
  {
    var selected := ChooseTickers(dbTickers, csv);
    if selected.None? {
      return NoTickers, (k: nat) => [];
    }
    recs := ScheduleOf(selected.value, downloads);
    outcome := LoadAndReport(db, selected.value, targetDate, downloads, recs);
  }

  /** Loading the same batch twice leaves the store as loading it once. */
  lemma ReloadIdempotent(store: map<BarKey, DailyBar>, rows: seq<RawRow>, tickerMap: map<string, Option<string>>)
    ensures var records := Prepared(rows, tickerMap);
      UpsertAll(UpsertAll(store, records, BarKeyOf), records, BarKeyOf) == UpsertAll(store, records, BarKeyOf)
  {
    UpsertIdempotent(store, Prepared(rows, tickerMap), BarKeyOf);
  }

  /**
   * Two tickers with two bars each, at the default threshold: A goes from 100
   * to 120 and B from 100 to 105, so A alone is a mover, at +20%.
   */
  lemma OneMoverAtDefaultThreshold(movers: seq<DailyMover>)
    requires DailyMoversOf(ExampleBars(), MIN_PERCENT, movers)
    ensures movers == [DailyMover("A", 11, 100.0, 120.0, 20.0, 7)]
  {
    var a1 := DailyBar("A", "A", 10, None, None, None, Some(100.0), 5, None);
    var a2 := DailyBar("A", "A", 11, None, None, None, Some(120.0), 7, None);
    var expected := DailyMover("A", 11, 100.0, 120.0, 20.0, 7);
    assert IsLastTwo(ExampleBars(), "A", a1, a2);
    ExampleLastTwo("A", a1, a2);
    assert DailyCovered(ExampleBars(), MIN_PERCENT, "A", movers);
    assert expected in movers;
    forall i | 0 <= i < |movers| ensures movers[i] == expected {
      assert DailySound(ExampleBars(), MIN_PERCENT, movers[i]);
      var p, c :| IsLastTwo(ExampleBars(), movers[i].ticker, p, c) && DailyChange(p, c, MIN_PERCENT) == Some(movers[i]);
      ExampleLastTwo(movers[i].ticker, p, c);
    }
    if |movers| > 1 {
      assert Text.LexLess(movers[0].ticker, movers[1].ticker);
      Text.LexLessIrreflexive(expected.ticker);
    }
  }

  /** Two tickers over two days: "A" rises from 100 to 120, "B" from 100 to 105. */
  function ExampleBars(): set<DailyBar>
  {
    {DailyBar("A", "A", 10, None, None, None, Some(100.0), 5, None),
     DailyBar("A", "A", 11, None, None, None, Some(120.0), 7, None),
     DailyBar("B", "B", 10, None, None, None, Some(100.0), 5, None),
     DailyBar("B", "B", 11, None, None, None, Some(105.0), 9, None)}
  }

  /** The daily test on the last two bars of either example ticker. */
  lemma ExampleLastTwo(t: string, p: DailyBar, c: DailyBar)
    requires IsLastTwo(ExampleBars(), t, p, c)
    ensures DailyChange(p, c, MIN_PERCENT) == if t == "A" then Some(DailyMover("A", 11, 100.0, 120.0, 20.0, 7)) else None
  {
    var a1 := DailyBar("A", "A", 10, None, None, None, Some(100.0), 5, None);
    var a2 := DailyBar("A", "A", 11, None, None, None, Some(120.0), 7, None);
    var b1 := DailyBar("B", "B", 10, None, None, None, Some(100.0), 5, None);
    var b2 := DailyBar("B", "B", 11, None, None, None, Some(105.0), 9, None);
    assert ExampleBars() == {a1, a2, b1, b2};
    assert "A" != "B" by { assert "A"[0] != "B"[0]; }
    if t == "A" {
      assert p == a1 && c == a2;
      Round2Exact(20.0);
    } else {
      assert p == b1 && c == b2;
    }
  }

}
