/**
 * The records the loaders write: daily bars (`stocks_daily`), daily and weekly
 * movers (`daily_movers`, `weekly_movers`) and ticker rows (`tickers`), each with
 * the unique key its table upserts on, and the percent-change arithmetic the
 * mover calculations share.
 */
module Records {
  import opened Wrappers

  /** A calendar date as a day number; `timedelta(days=k)` is `+ k`. */
  type Date = int

  /**
   * One row of `stocks_daily`. A missing or NaN price is `None`; `created_at`
   * is not modelled.
   */
  datatype DailyBar = DailyBar(
    ticker: string,
    companyName: string,
    date: Date,
    open: Option<real>,
    high: Option<real>,
    low: Option<real>,
    close: Option<real>,
    volume: int,
    marketCap: Option<int>)

  /** `on_conflict='ticker,date'`. */
  type BarKey = (string, Date)

  function BarKeyOf(b: DailyBar): BarKey
  {
    (b.ticker, b.date)
  }

  /** One row of `daily_movers`. */
  datatype DailyMover = DailyMover(
    ticker: string,
    date: Date,
    previousClose: real,
    currentClose: real,
    percentChange: real,
    volume: int)

  function DailyMoverKey(m: DailyMover): BarKey
  {
    (m.ticker, m.date)
  }

  /** One row of `weekly_movers`. */
  datatype WeeklyMover = WeeklyMover(
    ticker: string,
    weekStartDate: Date,
    weekEndDate: Date,
    weekStartClose: real,
    weekEndClose: real,
    percentChange: real)

  /** `on_conflict='ticker,week_end_date'`. */
  function WeeklyMoverKey(m: WeeklyMover): BarKey
  {
    (m.ticker, m.weekEndDate)
  }

  /** One row of `tickers`, keyed on `ticker`. */
  datatype TickerRow = TickerRow(ticker: string, companyName: string, sector: string, active: bool)

  function TickerKey(r: TickerRow): string
  {
    r.ticker
  }

  /** The default `min_percent` of every mover calculation. */
  const MIN_PERCENT: real := 15.0

  function Abs(x: real): real
  {
    if x < 0.0 then -x else x
  }

  /** `int(x)` (and `astype('int64')`) on a finite float: truncation toward zero. */
  function TruncToInt(x: real): (r: int)
    ensures Abs(r as real) <= Abs(x) < Abs(r as real) + 1.0
    ensures r != 0 ==> (r > 0 <==> x > 0.0)
  {
    if x >= 0.0 then x.Floor else -((-x).Floor)
  }

  /** `((to - from) / from) * 100`: applying the change to `from` gives back `to`. */
  function PercentChange(from: real, to: real): (pct: real)
    requires from != 0.0
    ensures from + from * pct / 100.0 == to
  {
    (to - from) / from * 100.0
  }

  /**
   * `round(x, 2)` on an exact real, rounding half to even as Python does: the
   * result is a whole number of hundredths within half a hundredth of `x`.
   */
  function Round2(x: real): (r: real)
    ensures r * 100.0 == (r * 100.0).Floor as real
    ensures -0.005 <= r - x <= 0.005
    ensures x * 100.0 - (x * 100.0).Floor as real == 0.5 ==> (r * 100.0).Floor % 2 == 0
  {
    var y := x * 100.0;
    var n := y.Floor;
    var f := y - n as real;
    var k := if f > 0.5 then n + 1 else if f < 0.5 then n else if n % 2 == 0 then n else n + 1;
    assert (k as real / 100.0) * 100.0 == k as real;
    k as real / 100.0
  }

  /** A value that already is a whole number of hundredths is left unchanged. */
  lemma Round2Exact(x: real)
    requires x * 100.0 == (x * 100.0).Floor as real
    ensures Round2(x) == x
  {
  }
}
