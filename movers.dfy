/**
 * What both mover calculations share: grouping the window's bars by ticker,
 * ordering a group by date (`sort_values('date')`) and the declarative meaning
 * of "the last two bars" and "the first and last bar" of a ticker in a window.
 * A window is a set of bars: the store returns it in no particular order.
 */
module Movers {
  import opened Wrappers
  import opened Records
  import Text

  /** The bars of a query result, as a set. */
  ghost function Members(rows: seq<DailyBar>): set<DailyBar>
  {
    set b | b in rows
  }

  /** No two rows share a `(ticker, date)` key, as the table's unique constraint ensures. */
  predicate NoDuplicateKeys(rows: seq<DailyBar>)
  {
    forall i, j :: 0 <= i < j < |rows| ==> BarKeyOf(rows[i]) != BarKeyOf(rows[j])
  }

  /** Within a set of bars, a key determines the bar. */
  ghost predicate KeysUnique(bars: set<DailyBar>)
  {
    forall a, b :: a in bars && b in bars && BarKeyOf(a) == BarKeyOf(b) ==> a == b
  }

  predicate Distinct<T(==)>(s: seq<T>)
  {
    forall i, j :: 0 <= i < j < |s| ==> s[i] != s[j]
  }

  /** The bars of ticker `t`. */
  ghost function TickerBars(bars: set<DailyBar>, t: string): set<DailyBar>
  {
    set b | b in bars && b.ticker == t
  }

  /** `df['ticker']`. */
  function TickerColumn(rows: seq<DailyBar>): (r: seq<string>)
    ensures |r| == |rows|
    ensures forall i :: 0 <= i < |rows| ==> r[i] == rows[i].ticker
  {
    if rows == [] then [] else [rows[0].ticker] + TickerColumn(rows[1..])
  }

  /** `df[df['ticker'] == t]`, keeping the rows' order. */
  function OfTicker(rows: seq<DailyBar>, t: string): (g: seq<DailyBar>)
    ensures forall b :: b in g <==> b in rows && b.ticker == t
    ensures Distinct(rows) ==> Distinct(g)
  {
    if rows == [] then []
    else if rows[0].ticker == t then [rows[0]] + OfTicker(rows[1..], t)
    else OfTicker(rows[1..], t)
  }

  predicate SortedByDate(s: seq<DailyBar>)
  {
    forall i, j :: 0 <= i < j < |s| ==> s[i].date <= s[j].date
  }

  function InsertByDate(b: DailyBar, s: seq<DailyBar>): (r: seq<DailyBar>)
    requires SortedByDate(s)
    ensures SortedByDate(r)
    ensures multiset(r) == multiset(s) + multiset{b}
  {
    if s == [] then [b]
    else if b.date <= s[0].date then [b] + s
    else
      var rest := InsertByDate(b, s[1..]);
      InsertStep(b, s, rest);
      [s[0]] + rest
  }

  lemma InsertStep(b: DailyBar, s: seq<DailyBar>, rest: seq<DailyBar>)
    requires s != [] && SortedByDate(s) && s[0].date < b.date
    requires SortedByDate(rest) && multiset(rest) == multiset(s[1..]) + multiset{b}
    ensures SortedByDate([s[0]] + rest)
    ensures multiset([s[0]] + rest) == multiset(s) + multiset{b}
  {
    assert s == [s[0]] + s[1..];
    forall x | x in rest ensures s[0].date <= x.date {
      assert x in multiset(rest);
    }
  }

  /** `sort_values('date')`: a stable insertion sort on the date. */
  function SortByDate(s: seq<DailyBar>): (r: seq<DailyBar>)
    ensures SortedByDate(r)
    ensures multiset(r) == multiset(s)
  {
    if s == [] then []
    else
      assert s == s[..|s| - 1] + [s[|s| - 1]];
      InsertByDate(s[|s| - 1], SortByDate(s[..|s| - 1]))
  }

  /**
   * `curr` is the latest bar of `t` and `prev` the latest one before it: the
   * last two rows of the ticker's group once it is sorted by date.
   */
  ghost predicate IsLastTwo(bars: set<DailyBar>, t: string, prev: DailyBar, curr: DailyBar)
  {
    && prev in bars && curr in bars
    && prev.ticker == t && curr.ticker == t
    && prev.date < curr.date
    && forall b :: b in bars && b.ticker == t && b != curr ==> b.date <= prev.date
  }

  /** `first` and `last` are the earliest and the latest bar of `t`. */
  ghost predicate IsWeekEnds(bars: set<DailyBar>, t: string, first: DailyBar, last: DailyBar)
  {
    && first in bars && last in bars
    && first.ticker == t && last.ticker == t
    && forall b :: b in bars && b.ticker == t ==> first.date <= b.date <= last.date
  }

  lemma {:induction false} TwoOccurrences<T>(s: seq<T>, i: nat, j: nat)
    requires i < j < |s| && s[i] == s[j]
    ensures multiset(s)[s[i]] >= 2
  {
    assert s == s[..i] + [s[i]] + s[i + 1..j] + [s[j]] + s[j + 1..];
  }

  lemma {:induction false} DistinctAtMostOnce<T>(s: seq<T>, x: T)
    requires Distinct(s)
    ensures multiset(s)[x] <= 1
    decreases |s|
  {
    if s != [] {
      var init := s[..|s| - 1];
      assert s == init + [s[|s| - 1]];
      assert Distinct(init);
      DistinctAtMostOnce(init, x);
    }
  }

  /** A permutation of a sequence without repetitions has none either. */
  lemma DistinctPermutation<T>(a: seq<T>, b: seq<T>)
    requires Distinct(a) && multiset(a) == multiset(b)
    ensures Distinct(b)
  {
    forall i, j | 0 <= i < j < |b| ensures b[i] != b[j] {
      if b[i] == b[j] {
        TwoOccurrences(b, i, j);
        DistinctAtMostOnce(a, b[i]);
      }
    }
  }

  /** Without repetitions, a sequence has as many elements as the set of its elements. */
  lemma {:induction false} DistinctCardinality<T>(s: seq<T>)
    requires Distinct(s)
    ensures |set x | x in s| == |s|
    decreases |s|
  {
    if s != [] {
      var init := s[..|s| - 1];
      var last := s[|s| - 1];
      assert Distinct(init);
      DistinctCardinality(init);
      assert (set x | x in s) == (set x | x in init) + {last};
      assert last !in init;
    }
  }

  /** Distinct keys make the rows distinct and the keys unique among their members. */
  lemma NoDuplicateKeysMeaning(rows: seq<DailyBar>)
    requires NoDuplicateKeys(rows)
    ensures Distinct(rows)
    ensures KeysUnique(Members(rows))
  {
    forall a, b | a in Members(rows) && b in Members(rows) && BarKeyOf(a) == BarKeyOf(b)
      ensures a == b
    {
      var i :| 0 <= i < |rows| && rows[i] == a;
      var j :| 0 <= j < |rows| && rows[j] == b;
      assert i == j by {
        if i < j {
        } else if j < i {
        }
      }
    }
  }

  /**
   * The ticker's group sorted by date: the same bars, in date order, without
   * repetition, as many as the ticker has in the window.
   */
  lemma SortedGroup(rows: seq<DailyBar>, t: string)
    requires NoDuplicateKeys(rows)
    ensures var g := SortByDate(OfTicker(rows, t));
      && SortedByDate(g) && Distinct(g)
      && (forall b :: b in g <==> b in TickerBars(Members(rows), t))
      && |g| == |TickerBars(Members(rows), t)|
  {
    NoDuplicateKeysMeaning(rows);
    var g0 := OfTicker(rows, t);
    var g := SortByDate(g0);
    DistinctPermutation(g0, g);
    forall b ensures b in g <==> b in g0 {
      assert b in g <==> b in multiset(g);
    }
    DistinctCardinality(g);
    assert (set x | x in g) == TickerBars(Members(rows), t);
  }

  /** In a sorted group without repetitions, the last two rows are the last two bars. */
  lemma LastTwoOfSorted(bars: set<DailyBar>, t: string, g: seq<DailyBar>)
    requires KeysUnique(bars)
    requires forall b :: b in g <==> b in bars && b.ticker == t
    requires SortedByDate(g) && Distinct(g) && |g| >= 2
    ensures IsLastTwo(bars, t, g[|g| - 2], g[|g| - 1])
  {
    var n := |g|;
    assert BarKeyOf(g[n - 2]) != BarKeyOf(g[n - 1]);
    forall b | b in bars && b.ticker == t && b != g[n - 1] ensures b.date <= g[n - 2].date {
      var k :| 0 <= k < n && g[k] == b;
      assert k <= n - 2;
    }
  }

  /** In a sorted group, the first and last rows are the earliest and latest bars. */
  lemma WeekEndsOfSorted(bars: set<DailyBar>, t: string, g: seq<DailyBar>)
    requires forall b :: b in g <==> b in bars && b.ticker == t
    requires SortedByDate(g) && |g| >= 1
    ensures IsWeekEnds(bars, t, g[0], g[|g| - 1])
  {
    forall b | b in bars && b.ticker == t ensures g[0].date <= b.date <= g[|g| - 1].date {
      var k :| 0 <= k < |g| && g[k] == b;
    }
  }

  /** At most one pair of bars is a ticker's last two. */
  lemma LastTwoUnique(bars: set<DailyBar>, t: string, p: DailyBar, c: DailyBar, p': DailyBar, c': DailyBar)
    requires KeysUnique(bars)
    requires IsLastTwo(bars, t, p, c) && IsLastTwo(bars, t, p', c')
    ensures p == p' && c == c'
  {
    assert c == c';
    assert BarKeyOf(p) == BarKeyOf(p');
  }

  /** At most one pair of bars is a ticker's first and last. */
  lemma WeekEndsUnique(bars: set<DailyBar>, t: string, f: DailyBar, l: DailyBar, f': DailyBar, l': DailyBar)
    requires KeysUnique(bars)
    requires IsWeekEnds(bars, t, f, l) && IsWeekEnds(bars, t, f', l')
    ensures f == f' && l == l'
  {
    assert BarKeyOf(f) == BarKeyOf(f');
    assert BarKeyOf(l) == BarKeyOf(l');
  }

  /** A ticker with last two bars has at least two bars. */
  lemma LastTwoNeedsTwoBars(bars: set<DailyBar>, t: string, p: DailyBar, c: DailyBar)
    requires IsLastTwo(bars, t, p, c)
    ensures |TickerBars(bars, t)| >= 2
  {
    var tb := TickerBars(bars, t);
    assert p != c;
    assert tb == {p, c} + (tb - {p, c});
    assert |tb| == |{p, c}| + |tb - {p, c}|;
  }

  /** The `daily_movers` row built from the last two bars of a ticker. */
  predicate DailyMoverOf(m: DailyMover, prev: DailyBar, curr: DailyBar)
  {
    && m.ticker == curr.ticker && m.date == curr.date
    && prev.close == Some(m.previousClose) && curr.close == Some(m.currentClose)
    && m.previousClose != 0.0
    && m.percentChange == Round2(PercentChange(m.previousClose, m.currentClose))
    && m.volume == curr.volume
  }

  /** The `weekly_movers` row built from the first and the last bar of a ticker. */
  predicate WeeklyMoverOf(m: WeeklyMover, first: DailyBar, last: DailyBar)
  {
    && m.ticker == last.ticker
    && m.weekStartDate == first.date && m.weekEndDate == last.date
    && first.close == Some(m.weekStartClose) && last.close == Some(m.weekEndClose)
    && m.weekStartClose != 0.0
    && m.percentChange == Round2(PercentChange(m.weekStartClose, m.weekEndClose))
  }

  /**
   * The per-ticker test on the last two bars: a mover when the previous close
   * is present and nonzero, the current close is present, and the change
   * reaches `minPercent` in absolute value.
   */
  function DailyChange(prev: DailyBar, curr: DailyBar, minPercent: real): (m: Option<DailyMover>)
    ensures m.Some? <==>
      && prev.close.Some? && prev.close.value != 0.0 && curr.close.Some?
      && Abs(PercentChange(prev.close.value, curr.close.value)) >= minPercent
    ensures m.Some? ==> DailyMoverOf(m.value, prev, curr)
  {
    if prev.close.None? || prev.close.value == 0.0 || curr.close.None? then None
    else
      var pct := PercentChange(prev.close.value, curr.close.value);
      if Abs(pct) >= minPercent then
        Some(DailyMover(curr.ticker, curr.date, prev.close.value, curr.close.value, Round2(pct), curr.volume))
      else None
  }

  /**
   * The per-ticker test on the first and the last bar: the span must be 5 to 9
   * days, the start close present and nonzero, the end close present, and the
   * change must reach `minPercent` in absolute value.
   */
  function WeeklyChange(first: DailyBar, last: DailyBar, minPercent: real): (m: Option<WeeklyMover>)
    ensures m.Some? <==>
      && 5 <= last.date - first.date <= 9
      && first.close.Some? && first.close.value != 0.0 && last.close.Some?
      && Abs(PercentChange(first.close.value, last.close.value)) >= minPercent
    ensures m.Some? ==> WeeklyMoverOf(m.value, first, last)
  {
    var days := last.date - first.date;
    if days < 5 || days > 9 then None
    else if first.close.None? || first.close.value == 0.0 || last.close.None? then None
    else
      var pct := PercentChange(first.close.value, last.close.value);
      if Abs(pct) >= minPercent then
        Some(WeeklyMover(last.ticker, first.date, last.date, first.close.value, last.close.value, Round2(pct)))
      else None
  }

  /** `m` is the mover of the last two bars of its ticker in `bars`. */
  ghost predicate DailySound(bars: set<DailyBar>, minPercent: real, m: DailyMover)
  {
    exists p, c :: IsLastTwo(bars, m.ticker, p, c) && DailyChange(p, c, minPercent) == Some(m)
  }

  /** The mover of ticker `t`, if it has one, is in `movers`. */
  ghost predicate DailyCovered(bars: set<DailyBar>, minPercent: real, t: string, movers: seq<DailyMover>)
  {
    forall p, c :: IsLastTwo(bars, t, p, c) && DailyChange(p, c, minPercent).Some? ==>
      DailyChange(p, c, minPercent).value in movers
  }

  /** `m` is the mover of the first and last bar of its ticker, which has at least 5 bars in `bars`. */
  ghost predicate WeeklySound(bars: set<DailyBar>, minPercent: real, m: WeeklyMover)
  {
    exists f, l :: IsWeekEnds(bars, m.ticker, f, l) && |TickerBars(bars, m.ticker)| >= 5
                   && WeeklyChange(f, l, minPercent) == Some(m)
  }

  ghost predicate WeeklyCovered(bars: set<DailyBar>, minPercent: real, t: string, movers: seq<WeeklyMover>)
  {
    forall f, l :: IsWeekEnds(bars, t, f, l) && |TickerBars(bars, t)| >= 5 && WeeklyChange(f, l, minPercent).Some? ==>
      WeeklyChange(f, l, minPercent).value in movers
  }

  /**
   * `movers` are the daily movers of the window `bars`: each is the mover of
   * the last two bars of its ticker, every ticker whose last two bars pass
   * `DailyChange` has its mover listed, and the tickers ascend.
   */
  ghost predicate DailyMoversOf(bars: set<DailyBar>, minPercent: real, movers: seq<DailyMover>)
  {
    && (forall i {:trigger DailySound(bars, minPercent, movers[i])} :: 0 <= i < |movers| ==>
          DailySound(bars, minPercent, movers[i]))
    && (forall t :: DailyCovered(bars, minPercent, t, movers))
    && (forall i, j {:trigger Text.LexLess(movers[i].ticker, movers[j].ticker)} :: 0 <= i < j < |movers| ==>
          Text.LexLess(movers[i].ticker, movers[j].ticker))
  }

  /**
   * `movers` are the weekly movers of the window `bars`: the same three
   * properties for the first and the last bar of each ticker with at least 5.
   */
  ghost predicate WeeklyMoversOf(bars: set<DailyBar>, minPercent: real, movers: seq<WeeklyMover>)
  {
    && (forall i {:trigger WeeklySound(bars, minPercent, movers[i])} :: 0 <= i < |movers| ==>
          WeeklySound(bars, minPercent, movers[i]))
    && (forall t :: WeeklyCovered(bars, minPercent, t, movers))
    && (forall i, j {:trigger Text.LexLess(movers[i].ticker, movers[j].ticker)} :: 0 <= i < j < |movers| ==>
          Text.LexLess(movers[i].ticker, movers[j].ticker))
  }

  /** Every ticker of the window is one the loop visits. */
  lemma TickerListed(rows: seq<DailyBar>, b: DailyBar)
    requires b in Members(rows)
    ensures b.ticker in Text.SortedUnique(TickerColumn(rows))
  {
    var i :| 0 <= i < |rows| && rows[i] == b;
    assert TickerColumn(rows)[i] == b.ticker;
  }

  /** The invariant of the daily ticker loop (`DetectDailyMovers` of either loader) after `k` tickers. */
  ghost predicate DailyLoopInv(rows: seq<DailyBar>, minPercent: real, tickers: seq<string>, k: nat, movers: seq<DailyMover>)
  {
    && k <= |tickers|
    && (forall i :: 0 <= i < |movers| ==> DailySound(Members(rows), minPercent, movers[i]))
    && (forall j :: 0 <= j < k ==> DailyCovered(Members(rows), minPercent, tickers[j], movers))
    && (forall i, j :: 0 <= i < j < |movers| ==> Text.LexLess(movers[i].ticker, movers[j].ticker))
    && (forall i, j :: 0 <= i < |movers| && k <= j < |tickers| ==> Text.LexLess(movers[i].ticker, tickers[j]))
  }

  /** What the daily ticker loop has established once every ticker is visited. */
  lemma DailyMoversFromLoop(rows: seq<DailyBar>, minPercent: real, tickers: seq<string>, movers: seq<DailyMover>)
    requires tickers == Text.SortedUnique(TickerColumn(rows))
    requires DailyLoopInv(rows, minPercent, tickers, |tickers|, movers)
    ensures DailyMoversOf(Members(rows), minPercent, movers)
  {
    ghost var bars := Members(rows);
    forall t ensures DailyCovered(bars, minPercent, t, movers) {
      forall p, c | IsLastTwo(bars, t, p, c) && DailyChange(p, c, minPercent).Some?
        ensures DailyChange(p, c, minPercent).value in movers
      {
        TickerListed(rows, c);
        var j :| 0 <= j < |tickers| && tickers[j] == t;
        assert DailyCovered(bars, minPercent, tickers[j], movers);
      }
    }

  }

  /** Appending the mover of ticker `k` keeps every ticker before it covered and covers ticker `k`. */
  lemma DailyStepCovered(bars: set<DailyBar>, minPercent: real, tickers: seq<string>, k: nat, movers: seq<DailyMover>, m: DailyMover)
    requires k < |tickers|
    requires forall j :: 0 <= j < k ==> DailyCovered(bars, minPercent, tickers[j], movers)
    requires forall p, c :: IsLastTwo(bars, tickers[k], p, c) ==> DailyChange(p, c, minPercent) == Some(m)
    ensures forall j :: 0 <= j < k + 1 ==> DailyCovered(bars, minPercent, tickers[j], movers + [m])
  {
    var after := movers + [m];
    forall j | 0 <= j < k + 1 ensures DailyCovered(bars, minPercent, tickers[j], after) {
      if j < k {
        assert DailyCovered(bars, minPercent, tickers[j], movers);
        forall p, c | IsLastTwo(bars, tickers[j], p, c) && DailyChange(p, c, minPercent).Some?
          ensures DailyChange(p, c, minPercent).value in after
        {
          assert DailyChange(p, c, minPercent).value in movers;
        }
      }
    }
  }

  /** Appending the mover of ticker `k` keeps the movers in ascending ticker order, before the tickers still to visit. */
  lemma DailyStepOrdered(tickers: seq<string>, k: nat, movers: seq<DailyMover>, m: DailyMover)
    requires Text.StrictlyAscending(tickers) && k < |tickers| && m.ticker == tickers[k]
    requires forall i, j :: 0 <= i < j < |movers| ==> Text.LexLess(movers[i].ticker, movers[j].ticker)
    requires forall i, j :: 0 <= i < |movers| && k <= j < |tickers| ==> Text.LexLess(movers[i].ticker, tickers[j])
    ensures var after := movers + [m];
      && (forall i, j :: 0 <= i < j < |after| ==> Text.LexLess(after[i].ticker, after[j].ticker))
      && (forall i, j :: 0 <= i < |after| && k + 1 <= j < |tickers| ==> Text.LexLess(after[i].ticker, tickers[j]))
  {
    var after := movers + [m];
    forall i, j | 0 <= i < j < |after| ensures Text.LexLess(after[i].ticker, after[j].ticker) {
      if j < |movers| {
        assert after[i] == movers[i] && after[j] == movers[j];
      } else {
        assert Text.LexLess(movers[i].ticker, tickers[k]);
      }
    }
    forall i, j | 0 <= i < |after| && k + 1 <= j < |tickers| ensures Text.LexLess(after[i].ticker, tickers[j]) {
      if i < |movers| {
        assert after[i] == movers[i];
      }
    }
  }

  /** One turn of the daily ticker loop keeps its invariant. */
  lemma DailyLoopStep(rows: seq<DailyBar>, minPercent: real, tickers: seq<string>, k: nat, movers: seq<DailyMover>,
                       m: Option<DailyMover>)
    requires Text.StrictlyAscending(tickers)
    requires k < |tickers| && DailyLoopInv(rows, minPercent, tickers, k, movers)
    requires m.Some? ==> m.value.ticker == tickers[k] && DailySound(Members(rows), minPercent, m.value)
    requires forall p, c :: IsLastTwo(Members(rows), tickers[k], p, c) ==> DailyChange(p, c, minPercent) == m
    ensures DailyLoopInv(rows, minPercent, tickers, k + 1, if m.Some? then movers + [m.value] else movers)
  {
    ghost var bars := Members(rows);
    if m.None? {
      forall j | 0 <= j < k + 1 ensures DailyCovered(bars, minPercent, tickers[j], movers) {
        if j < k {
          assert DailyCovered(bars, minPercent, tickers[j], movers);
        }
      }
    } else {
      var after := movers + [m.value];
      forall i | 0 <= i < |after| ensures DailySound(bars, minPercent, after[i]) {
        if i < |movers| {
          assert after[i] == movers[i];
        }
      }
      DailyStepCovered(bars, minPercent, tickers, k, movers, m.value);
      DailyStepOrdered(tickers, k, movers, m.value);
    }
  }

  /** The invariant of the weekly ticker loop (`DetectWeeklyMovers` of either loader) after `k` tickers. */
  ghost predicate WeeklyLoopInv(rows: seq<DailyBar>, minPercent: real, tickers: seq<string>, k: nat, movers: seq<WeeklyMover>)
  {
    && k <= |tickers|
    && (forall i :: 0 <= i < |movers| ==> WeeklySound(Members(rows), minPercent, movers[i]))
    && (forall j :: 0 <= j < k ==> WeeklyCovered(Members(rows), minPercent, tickers[j], movers))
    && (forall i, j :: 0 <= i < j < |movers| ==> Text.LexLess(movers[i].ticker, movers[j].ticker))
    && (forall i, j :: 0 <= i < |movers| && k <= j < |tickers| ==> Text.LexLess(movers[i].ticker, tickers[j]))
  }

  /** What the weekly ticker loop has established once every ticker is visited. */
  lemma WeeklyMoversFromLoop(rows: seq<DailyBar>, minPercent: real, tickers: seq<string>, movers: seq<WeeklyMover>)
    requires tickers == Text.SortedUnique(TickerColumn(rows))
    requires WeeklyLoopInv(rows, minPercent, tickers, |tickers|, movers)
    ensures WeeklyMoversOf(Members(rows), minPercent, movers)
  {
    ghost var bars := Members(rows);
    forall t ensures WeeklyCovered(bars, minPercent, t, movers) {
      forall f, l | IsWeekEnds(bars, t, f, l) && |TickerBars(bars, t)| >= 5 && WeeklyChange(f, l, minPercent).Some?
        ensures WeeklyChange(f, l, minPercent).value in movers
      {
        TickerListed(rows, l);
        var j :| 0 <= j < |tickers| && tickers[j] == t;
        assert WeeklyCovered(bars, minPercent, tickers[j], movers);
      }
    }

  }

  /** Appending the mover of ticker `k` keeps every ticker before it covered and covers ticker `k`. */
  lemma WeeklyStepCovered(bars: set<DailyBar>, minPercent: real, tickers: seq<string>, k: nat, movers: seq<WeeklyMover>, m: WeeklyMover)
    requires k < |tickers|
    requires forall j :: 0 <= j < k ==> WeeklyCovered(bars, minPercent, tickers[j], movers)
    requires forall f, l :: IsWeekEnds(bars, tickers[k], f, l) && |TickerBars(bars, tickers[k])| >= 5 ==>
      WeeklyChange(f, l, minPercent) == Some(m)
    ensures forall j :: 0 <= j < k + 1 ==> WeeklyCovered(bars, minPercent, tickers[j], movers + [m])
  {
    var after := movers + [m];
    forall j | 0 <= j < k + 1 ensures WeeklyCovered(bars, minPercent, tickers[j], after) {
      if j < k {
        assert WeeklyCovered(bars, minPercent, tickers[j], movers);
        forall f, l | IsWeekEnds(bars, tickers[j], f, l) && |TickerBars(bars, tickers[j])| >= 5 && WeeklyChange(f, l, minPercent).Some?
          ensures WeeklyChange(f, l, minPercent).value in after
        {
          assert WeeklyChange(f, l, minPercent).value in movers;
        }
      }
    }
  }

  /** Appending the mover of ticker `k` keeps the movers in ascending ticker order, before the tickers still to visit. */
  lemma WeeklyStepOrdered(tickers: seq<string>, k: nat, movers: seq<WeeklyMover>, m: WeeklyMover)
    requires Text.StrictlyAscending(tickers) && k < |tickers| && m.ticker == tickers[k]
    requires forall i, j :: 0 <= i < j < |movers| ==> Text.LexLess(movers[i].ticker, movers[j].ticker)
    requires forall i, j :: 0 <= i < |movers| && k <= j < |tickers| ==> Text.LexLess(movers[i].ticker, tickers[j])
    ensures var after := movers + [m];
      && (forall i, j :: 0 <= i < j < |after| ==> Text.LexLess(after[i].ticker, after[j].ticker))
      && (forall i, j :: 0 <= i < |after| && k + 1 <= j < |tickers| ==> Text.LexLess(after[i].ticker, tickers[j]))
  {
    var after := movers + [m];
    forall i, j | 0 <= i < j < |after| ensures Text.LexLess(after[i].ticker, after[j].ticker) {
      if j < |movers| {
        assert after[i] == movers[i] && after[j] == movers[j];
      } else {
        assert Text.LexLess(movers[i].ticker, tickers[k]);
      }
    }
    forall i, j | 0 <= i < |after| && k + 1 <= j < |tickers| ensures Text.LexLess(after[i].ticker, tickers[j]) {
      if i < |movers| {
        assert after[i] == movers[i];
      }
    }
  }

  /** One turn of the weekly ticker loop keeps its invariant. */
  lemma WeeklyLoopStep(rows: seq<DailyBar>, minPercent: real, tickers: seq<string>, k: nat, movers: seq<WeeklyMover>,
                       m: Option<WeeklyMover>)
    requires Text.StrictlyAscending(tickers)
    requires k < |tickers| && WeeklyLoopInv(rows, minPercent, tickers, k, movers)
    requires m.Some? ==> m.value.ticker == tickers[k] && WeeklySound(Members(rows), minPercent, m.value)
    requires forall f, l :: IsWeekEnds(Members(rows), tickers[k], f, l) && |TickerBars(Members(rows), tickers[k])| >= 5 ==>
      WeeklyChange(f, l, minPercent) == m
    ensures WeeklyLoopInv(rows, minPercent, tickers, k + 1, if m.Some? then movers + [m.value] else movers)
  {
    ghost var bars := Members(rows);
    if m.None? {
      forall j | 0 <= j < k + 1 ensures WeeklyCovered(bars, minPercent, tickers[j], movers) {
        if j < k {
          assert WeeklyCovered(bars, minPercent, tickers[j], movers);
        }
      }
    } else {
      var after := movers + [m.value];
      forall i | 0 <= i < |after| ensures WeeklySound(bars, minPercent, after[i]) {
        if i < |movers| {
          assert after[i] == movers[i];
        }
      }
      WeeklyStepCovered(bars, minPercent, tickers, k, movers, m.value);
      WeeklyStepOrdered(tickers, k, movers, m.value);
    }
  }
}
