/**
 * The Supabase tables as keyed maps with insert-or-replace upsert, and the
 * client the loaders write through. Every write request either commits all of
 * its rows or none: the server's refusals are an input, the set `rejected` of
 * the positions (counted from 0) of the write requests it refuses. A range
 * select either returns its rows or raises: the selects that raise are an
 * input too, the set `refusedSelects` of their date ranges.
 */
module Store {
  import opened Wrappers
  import opened Records
  import opened Chunking
  import Movers

  /** Upserting `rows` one after another: a later row replaces an earlier one with the same key. */
  function UpsertAll<K, V>(m: map<K, V>, rows: seq<V>, key: V -> K): map<K, V>
    decreases |rows|
  {
    if rows == [] then m else UpsertAll(m[key(rows[0]) := rows[0]], rows[1..], key)
  }

  ghost function KeysOf<K, V>(rows: seq<V>, key: V -> K): set<K>
  {
    set r | r in rows :: key(r)
  }

  /** Every row is stored under its own key. */
  ghost predicate WellKeyed<K, V>(m: map<K, V>, key: V -> K)
  {
    forall k :: k in m ==> key(m[k]) == k
  }

  /** Upserting two lists one after the other is upserting their concatenation. */
  lemma {:induction false} UpsertAppend<K, V>(m: map<K, V>, a: seq<V>, b: seq<V>, key: V -> K)
    ensures UpsertAll(UpsertAll(m, a, key), b, key) == UpsertAll(m, a + b, key)
    decreases |a|
  {
    if a == [] {
      assert a + b == b;
    } else {
      assert (a + b)[1..] == a[1..] + b;
      UpsertAppend(m[key(a[0]) := a[0]], a[1..], b, key);
    }
  }

  /**
   * After an upsert the table holds the old keys and the rows' keys; a row's key
   * maps to a row of the list with that key, the last row keeps its place and
   * every other key keeps its old row.
   */
  lemma UpsertContents<K, V>(m: map<K, V>, rows: seq<V>, key: V -> K)
    ensures var r := UpsertAll(m, rows, key);
      && r.Keys == m.Keys + KeysOf(rows, key)
      && (forall k :: k in KeysOf(rows, key) ==> r[k] in rows && key(r[k]) == k)
      && (forall k :: k in m && k !in KeysOf(rows, key) ==> r[k] == m[k])
      && (rows != [] ==> r[key(rows[|rows| - 1])] == rows[|rows| - 1])
  {
    UpsertKeys(m, rows, key);
    UpsertWritten(m, rows, key);
    UpsertUntouched(m, rows, key);
    if rows != [] {
      UpsertLastWins(m, rows, key);
    }
  }

  lemma KeysOfCons<K, V>(rows: seq<V>, key: V -> K)
    requires rows != []
    ensures KeysOf(rows, key) == {key(rows[0])} + KeysOf(rows[1..], key)
  {
    assert rows == [rows[0]] + rows[1..];
  }

  lemma {:induction false} UpsertKeys<K, V>(m: map<K, V>, rows: seq<V>, key: V -> K)
    ensures UpsertAll(m, rows, key).Keys == m.Keys + KeysOf(rows, key)
    decreases |rows|
  {
    if rows != [] {
      UpsertKeys(m[key(rows[0]) := rows[0]], rows[1..], key);
      KeysOfCons(rows, key);
    }
  }

  lemma {:induction false} UpsertWritten<K, V>(m: map<K, V>, rows: seq<V>, key: V -> K)
    ensures forall k :: k in KeysOf(rows, key) ==>
      (k in UpsertAll(m, rows, key) && UpsertAll(m, rows, key)[k] in rows && key(UpsertAll(m, rows, key)[k]) == k)
    decreases |rows|
  {
    if rows != [] {
      var m' := m[key(rows[0]) := rows[0]];
      var rest := rows[1..];
      UpsertWritten(m', rest, key);
      UpsertUntouched(m', rest, key);
      UpsertKeys(m', rest, key);
      KeysOfCons(rows, key);
      var r := UpsertAll(m, rows, key);
      forall k | k in KeysOf(rows, key) ensures k in r && r[k] in rows && key(r[k]) == k {
        if k !in KeysOf(rest, key) {
          assert k == key(rows[0]);
        }
      }
    }
  }

  lemma {:induction false} UpsertUntouched<K, V>(m: map<K, V>, rows: seq<V>, key: V -> K)
    ensures forall k :: k in m && k !in KeysOf(rows, key) ==>
      (k in UpsertAll(m, rows, key) && UpsertAll(m, rows, key)[k] == m[k])
    decreases |rows|
  {
    if rows != [] {
      UpsertUntouched(m[key(rows[0]) := rows[0]], rows[1..], key);
      KeysOfCons(rows, key);
    }
  }

  lemma {:induction false} UpsertLastWins<K, V>(m: map<K, V>, rows: seq<V>, key: V -> K)
    requires rows != []
    ensures key(rows[|rows| - 1]) in UpsertAll(m, rows, key)
    ensures UpsertAll(m, rows, key)[key(rows[|rows| - 1])] == rows[|rows| - 1]
    decreases |rows|
  {
    var m' := m[key(rows[0]) := rows[0]];
    var rest := rows[1..];
    if rest == [] {
      assert UpsertAll(m', rest, key) == m';
    } else {
      UpsertLastWins(m', rest, key);
      assert rest[|rest| - 1] == rows[|rows| - 1];
    }
  }


  /** What an upsert stores outside the rows' keys does not depend on the rows. */
  lemma {:induction false} UpsertOutside<K, V>(m: map<K, V>, rows: seq<V>, key: V -> K)
    ensures UpsertAll(m, rows, key) - KeysOf(rows, key) == m - KeysOf(rows, key)
  {
    UpsertContents(m, rows, key);
    var r := UpsertAll(m, rows, key);
    var s := KeysOf(rows, key);
    assert (r - s).Keys == (m - s).Keys;
    forall k | k in (r - s) ensures (r - s)[k] == (m - s)[k] {
    }
  }

  /** Two tables that agree outside the rows' keys are equal after upserting the rows. */
  lemma {:induction false} UpsertCongruent<K, V>(m1: map<K, V>, m2: map<K, V>, rows: seq<V>, key: V -> K)
    requires m1 - KeysOf(rows, key) == m2 - KeysOf(rows, key)
    ensures UpsertAll(m1, rows, key) == UpsertAll(m2, rows, key)
    decreases |rows|
  {
    if rows == [] {
      assert KeysOf(rows, key) == {};
      assert m1 == m1 - {} && m2 == m2 - {};
    } else {
      var rest := rows[1..];
      var k0 := key(rows[0]);
      assert KeysOf(rows, key) == {k0} + KeysOf(rest, key) by {
        assert rows == [rows[0]] + rest;
      }
      var a, b := m1[k0 := rows[0]], m2[k0 := rows[0]];
      var s := KeysOf(rest, key);
      assert (a - s).Keys == (b - s).Keys by {
        forall k ensures k in (a - s) <==> k in (b - s) {
          if k != k0 && k !in s {
            assert k in m1 - KeysOf(rows, key) <==> k in m2 - KeysOf(rows, key);
          }
        }
      }
      forall k | k in (a - s) ensures (a - s)[k] == (b - s)[k] {
        if k != k0 {
          assert (m1 - KeysOf(rows, key))[k] == (m2 - KeysOf(rows, key))[k];
        }
      }
      assert a - s == b - s;
      UpsertCongruent(a, b, rest, key);
    }
  }

  /** Upserting the same rows twice leaves the table as upserting them once. */
  lemma UpsertIdempotent<K, V>(m: map<K, V>, rows: seq<V>, key: V -> K)
    ensures UpsertAll(UpsertAll(m, rows, key), rows, key) == UpsertAll(m, rows, key)
  {
    UpsertOutside(m, rows, key);
    UpsertCongruent(UpsertAll(m, rows, key), m, rows, key);
  }

  /** Upserting keeps every row under its own key, and adds no row from elsewhere. */
  lemma UpsertWellKeyed<K, V>(m: map<K, V>, rows: seq<V>, key: V -> K)
    requires WellKeyed(m, key)
    ensures WellKeyed(UpsertAll(m, rows, key), key)
    ensures forall v :: v in UpsertAll(m, rows, key).Values ==> v in m.Values || v in rows
  {
    UpsertContents(m, rows, key);
    var r := UpsertAll(m, rows, key);
    forall v | v in r.Values ensures v in m.Values || v in rows {
      var k :| k in r && r[k] == v;
    }
  }

  /** None of the `n` write requests numbered from `lo` is rejected. */
  predicate NoneRejected(rejected: set<nat>, lo: nat, n: nat)
  {
    forall w :: lo <= w < lo + n ==> w !in rejected
  }

  /** Two runs of accepted requests back to back make one. */
  lemma NoneRejectedAppend(rejected: set<nat>, lo: nat, a: nat, b: nat)
    requires NoneRejected(rejected, lo, a) && NoneRejected(rejected, lo + a, b)
    ensures NoneRejected(rejected, lo, a + b)
  {
  }

  /** The rows of `lists(0)`, ..., `lists(k - 1)`, in order. */
  function LoadedOf<V>(lists: nat -> seq<V>, k: nat): seq<V>
  {
    if k == 0 then [] else LoadedOf(lists, k - 1) + lists(k - 1)
  }

  /** A loop upserting `lists(0)`, `lists(1)`, ... in chunks stopped at chunk `chunk` of list `batch`. */
  datatype ChunkFailure = ChunkFailure(batch: nat, chunk: nat)

  /**
   * Upserting the first `n` lists in chunks of `size`, one write request per
   * chunk from position `start` on, stopped at `f`: every request before that
   * chunk's was accepted, the chunk's own was refused and was the last one
   * issued, and the table holds the earlier lists and the list's earlier chunks.
   */
  ghost predicate StoppedAt<K, V>(lists: nat -> seq<V>, n: nat, size: nat, key: V -> K, f: ChunkFailure,
                                  rejected: set<nat>, start: nat, writes: nat, store0: map<K, V>, store: map<K, V>)
    requires size > 0
  {
    && f.batch < n
    && f.chunk < |Chunks(lists(f.batch), size)|
    && NoneRejected(rejected, start, ChunkTotal(lists, size, f.batch) + f.chunk)
    && start + ChunkTotal(lists, size, f.batch) + f.chunk in rejected
    && writes == start + ChunkTotal(lists, size, f.batch) + f.chunk + 1
    && store == UpsertAll(store0, LoadedOf(lists, f.batch) + Flatten(Chunks(lists(f.batch), size)[..f.chunk]), key)
  }

  /**
   * A refused chunk write of list `f.batch`, after the earlier lists were all
   * written, stops the loop as `StoppedAt` says; and some request of the whole
   * loop was refused.
   */
  lemma ChunkStopped<K, V>(lists: nat -> seq<V>, n: nat, size: nat, key: V -> K, f: ChunkFailure, rejected: set<nat>,
                           start: nat, w: nat, writes: nat, store0: map<K, V>, before: map<K, V>, store: map<K, V>)
    requires size > 0 && f.batch < n
    requires w == start + ChunkTotal(lists, size, f.batch)
    requires NoneRejected(rejected, start, ChunkTotal(lists, size, f.batch))
    requires before == UpsertAll(store0, LoadedOf(lists, f.batch), key)
    requires f.chunk < |Chunks(lists(f.batch), size)|
    requires NoneRejected(rejected, w, f.chunk) && w + f.chunk in rejected && writes == w + f.chunk + 1
    requires store == UpsertAll(before, Flatten(Chunks(lists(f.batch), size)[..f.chunk]), key)
    ensures StoppedAt(lists, n, size, key, f, rejected, start, writes, store0, store)
    ensures !NoneRejected(rejected, start, ChunkTotal(lists, size, n))
  {
    NoneRejectedAppend(rejected, start, ChunkTotal(lists, size, f.batch), f.chunk);
    UpsertAppend(store0, LoadedOf(lists, f.batch), Flatten(Chunks(lists(f.batch), size)[..f.chunk]), key);
    ChunkTotalMonotone(lists, size, f.batch + 1, n);
  }

  /**
   * Every chunk write of list `k` accepted, after the earlier lists were all
   * written: the loop has written the first `k + 1` lists.
   */
  lemma ChunkAdvanced<K, V>(lists: nat -> seq<V>, size: nat, key: V -> K, k: nat, rejected: set<nat>,
                            start: nat, w: nat, store0: map<K, V>, before: map<K, V>, store: map<K, V>)
    requires size > 0
    requires w == start + ChunkTotal(lists, size, k)
    requires NoneRejected(rejected, start, ChunkTotal(lists, size, k))
    requires before == UpsertAll(store0, LoadedOf(lists, k), key)
    requires NoneRejected(rejected, w, |Chunks(lists(k), size)|)
    requires store == UpsertAll(before, lists(k), key)
    ensures w + |Chunks(lists(k), size)| == start + ChunkTotal(lists, size, k + 1)
    ensures NoneRejected(rejected, start, ChunkTotal(lists, size, k + 1))
    ensures store == UpsertAll(store0, LoadedOf(lists, k + 1), key)
    ensures |LoadedOf(lists, k + 1)| == |LoadedOf(lists, k)| + |lists(k)|
  {
    NoneRejectedAppend(rejected, start, ChunkTotal(lists, size, k), |Chunks(lists(k), size)|);
    UpsertAppend(store0, LoadedOf(lists, k), lists(k), key);
  }

  /**
   * The elements of `xs` whose write request is accepted, when the requests
   * are issued one per element starting at position `start`.
   */
  function Accepted<T>(xs: seq<T>, start: nat, rejected: set<nat>): (r: seq<T>)
    ensures |r| <= |xs|
    ensures (forall i :: start <= i < start + |xs| ==> i !in rejected) ==> r == xs
    decreases |xs|
  {
    if xs == [] then []
    else (if start in rejected then [] else [xs[0]]) + Accepted(xs[1..], start + 1, rejected)
  }

  /** Every accepted element is one of the elements written. */
  lemma {:induction false} AcceptedMembers<T>(xs: seq<T>, start: nat, rejected: set<nat>)
    ensures forall x :: x in Accepted(xs, start, rejected) ==> x in xs
    decreases |xs|
  {
    if xs != [] {
      AcceptedMembers(xs[1..], start + 1, rejected);
    }
  }

  /**
   * `table` is `table0` after one write request per row of `rows`, numbered
   * from `from`: the accepted rows are upserted under their keys.
   */
  ghost predicate UpsertedFrom<K, V>(table: map<K, V>, table0: map<K, V>, rows: seq<V>, from: nat, rejected: set<nat>,
                                     key: V -> K)
  {
    table == UpsertAll(table0, Accepted(rows, from, rejected), key)
  }

  lemma {:induction false} AcceptedSnoc<T>(xs: seq<T>, x: T, start: nat, rejected: set<nat>)
    ensures Accepted(xs + [x], start, rejected)
         == Accepted(xs, start, rejected) + (if start + |xs| in rejected then [] else [x])
    decreases |xs|
  {
    if xs == [] {
      assert [x][1..] == [];
    } else {
      assert (xs + [x])[1..] == xs[1..] + [x];
      AcceptedSnoc(xs[1..], x, start + 1, rejected);
    }
  }

  /**
   * The movers tables of `db` are `daily0` and `weekly0` after the daily
   * movers, then the weekly movers, were written one request each, numbered
   * from `from`.
   */
  ghost predicate MoversWritten(db: Database, daily: seq<DailyMover>, weekly: seq<WeeklyMover>,
                                from: nat, daily0: map<BarKey, DailyMover>,
                                weekly0: map<BarKey, WeeklyMover>)
    reads db
  {
    && UpsertedFrom(db.dailyMovers, daily0, daily, from, db.rejected, DailyMoverKey)
    && UpsertedFrom(db.weeklyMovers, weekly0, weekly, from + |daily|, db.rejected, WeeklyMoverKey)
    && db.writes == from + |daily| + |weekly|
  }

  /** `stocks_daily` rows dated within `[lo, hi]`: what `.gte('date', lo).lte('date', hi)` selects. */
  ghost function Window(store: map<BarKey, DailyBar>, lo: Date, hi: Date): set<DailyBar>
  {
    set b | b in store.Values && lo <= b.date <= hi
  }

  /** The Supabase client: the four tables and the count of write requests issued so far. */
  class Database {
    var stocksDaily: map<BarKey, DailyBar>
    var dailyMovers: map<BarKey, DailyMover>
    var weeklyMovers: map<BarKey, WeeklyMover>
    var tickers: map<string, TickerRow>
    var writes: nat
    const rejected: set<nat>
    const refusedSelects: set<(Date, Date)>

    /** Each table holds every row under the key it upserts on. */
    ghost predicate Valid()
      reads this
    {
      && WellKeyed(stocksDaily, BarKeyOf)
      && WellKeyed(dailyMovers, DailyMoverKey)
      && WellKeyed(weeklyMovers, WeeklyMoverKey)
      && WellKeyed(tickers, TickerKey)
    }

    constructor (rejected: set<nat>, refusedSelects: set<(Date, Date)>)
      ensures Valid()
      ensures stocksDaily == map[] && dailyMovers == map[] && weeklyMovers == map[] && tickers == map[]
      ensures writes == 0 && this.rejected == rejected && this.refusedSelects == refusedSelects
    {
      stocksDaily, dailyMovers, weeklyMovers, tickers := map[], map[], map[], map[];
      writes := 0;
      this.rejected := rejected;
      this.refusedSelects := refusedSelects;
    }

    /** `table('stocks_daily').upsert(rows, on_conflict='ticker,date').execute()`. */
    method UpsertStocksDaily(rows: seq<DailyBar>) returns (ok: bool)
      requires Valid()
      modifies this
      ensures Valid()
      ensures ok == (old(writes) !in rejected) && writes == old(writes) + 1
      ensures stocksDaily == if ok then UpsertAll(old(stocksDaily), rows, BarKeyOf) else old(stocksDaily)
      ensures dailyMovers == old(dailyMovers) && weeklyMovers == old(weeklyMovers) && tickers == old(tickers)
    {
      ok := writes !in rejected;
      if ok {
        UpsertWellKeyed(stocksDaily, rows, BarKeyOf);
        stocksDaily := UpsertAll(stocksDaily, rows, BarKeyOf);
      }
      writes := writes + 1;
    }

    /** `table('daily_movers').upsert(mover, on_conflict='ticker,date').execute()`. */
    method UpsertDailyMover(mover: DailyMover) returns (ok: bool)
      requires Valid()
      modifies this
      ensures Valid()
      ensures ok == (old(writes) !in rejected) && writes == old(writes) + 1
      ensures dailyMovers == if ok then UpsertAll(old(dailyMovers), [mover], DailyMoverKey) else old(dailyMovers)
      ensures stocksDaily == old(stocksDaily) && weeklyMovers == old(weeklyMovers) && tickers == old(tickers)
    {
      ok := writes !in rejected;
      if ok {
        UpsertWellKeyed(dailyMovers, [mover], DailyMoverKey);
        dailyMovers := UpsertAll(dailyMovers, [mover], DailyMoverKey);
      }
      writes := writes + 1;
    }

    /** `table('weekly_movers').upsert(mover, on_conflict='ticker,week_end_date').execute()`. */
    method UpsertWeeklyMover(mover: WeeklyMover) returns (ok: bool)
      requires Valid()
      modifies this
      ensures Valid()
      ensures ok == (old(writes) !in rejected) && writes == old(writes) + 1
      ensures weeklyMovers == if ok then UpsertAll(old(weeklyMovers), [mover], WeeklyMoverKey) else old(weeklyMovers)
      ensures stocksDaily == old(stocksDaily) && dailyMovers == old(dailyMovers) && tickers == old(tickers)
    {
      ok := writes !in rejected;
      if ok {
        UpsertWellKeyed(weeklyMovers, [mover], WeeklyMoverKey);
        weeklyMovers := UpsertAll(weeklyMovers, [mover], WeeklyMoverKey);
      }
      writes := writes + 1;
    }

    /** `table('tickers').upsert(rows, on_conflict='ticker').execute()`. */
    method UpsertTickers(rows: seq<TickerRow>) returns (ok: bool)
      requires Valid()
      modifies this
      ensures Valid()
      ensures ok == (old(writes) !in rejected) && writes == old(writes) + 1
      ensures tickers == if ok then UpsertAll(old(tickers), rows, TickerKey) else old(tickers)
      ensures stocksDaily == old(stocksDaily) && dailyMovers == old(dailyMovers) && weeklyMovers == old(weeklyMovers)
    {
      ok := writes !in rejected;
      if ok {
        UpsertWellKeyed(tickers, rows, TickerKey);
        tickers := UpsertAll(tickers, rows, TickerKey);
      }
      writes := writes + 1;
    }

    /**
     * `table('stocks_daily').select('*').gte('date', lo).lte('date', hi).execute()`:
     * `None` when the request raises, otherwise every stored bar dated within
     * `[lo, hi]`, once each, in no particular order.
     */
    method SelectBars(lo: Date, hi: Date) returns (result: Option<seq<DailyBar>>)
      requires Valid()
      ensures result.None? <==> (lo, hi) in refusedSelects
      ensures result.Some? ==> Movers.NoDuplicateKeys(result.value)
      ensures result.Some? ==> forall b :: b in result.value <==> b in stocksDaily.Values && lo <= b.date <= hi
    {
      if (lo, hi) in refusedSelects {
        return None;
      }
      var rows := [];
      var remaining := stocksDaily.Keys;
      while remaining != {}
        invariant remaining <= stocksDaily.Keys
        invariant Movers.NoDuplicateKeys(rows)
        invariant forall i :: 0 <= i < |rows| ==> BarKeyOf(rows[i]) !in remaining
        invariant forall b :: b in rows <==>
          (BarKeyOf(b) in stocksDaily.Keys - remaining && stocksDaily[BarKeyOf(b)] == b && lo <= b.date <= hi)
        decreases remaining
      {
        var k :| k in remaining;
        var b := stocksDaily[k];
        if lo <= b.date <= hi {
          rows := rows + [b];
        }
        remaining := remaining - {k};
      }
      forall b ensures b in stocksDaily.Values ==> BarKeyOf(b) in stocksDaily && stocksDaily[BarKeyOf(b)] == b {
        if b in stocksDaily.Values {
          var k :| k in stocksDaily && stocksDaily[k] == b;
        }
      }
      result := Some(rows);
    }
  }

  /**
   * The loops that upsert each mover on its own: a failed write is logged and
   * the remaining movers are still written.
   */
  method WriteDailyMovers(db: Database, movers: seq<DailyMover>)
    requires db.Valid()
    modifies db
    ensures db.Valid()
    ensures db.writes == old(db.writes) + |movers|
    ensures db.dailyMovers == UpsertAll(old(db.dailyMovers), Accepted(movers, old(db.writes), db.rejected), DailyMoverKey)
    ensures db.stocksDaily == old(db.stocksDaily) && db.weeklyMovers == old(db.weeklyMovers)
    ensures db.tickers == old(db.tickers)
  {
    for i := 0 to |movers|
      invariant db.Valid()
      invariant db.writes == old(db.writes) + i
      invariant db.dailyMovers
             == UpsertAll(old(db.dailyMovers), Accepted(movers[..i], old(db.writes), db.rejected), DailyMoverKey)
      invariant db.stocksDaily == old(db.stocksDaily) && db.weeklyMovers == old(db.weeklyMovers)
      invariant db.tickers == old(db.tickers)
    {
      ghost var done := Accepted(movers[..i], old(db.writes), db.rejected);
      AcceptedSnoc(movers[..i], movers[i], old(db.writes), db.rejected);
      assert movers[..i + 1] == movers[..i] + [movers[i]];
      var ok := db.UpsertDailyMover(movers[i]);
      UpsertAppend(old(db.dailyMovers), done, if ok then [movers[i]] else [], DailyMoverKey);
      assert done + [] == done;
    }
    assert movers[..|movers|] == movers;
  }

  method WriteWeeklyMovers(db: Database, movers: seq<WeeklyMover>)
    requires db.Valid()
    modifies db
    ensures db.Valid()
    ensures db.writes == old(db.writes) + |movers|
    ensures db.weeklyMovers
         == UpsertAll(old(db.weeklyMovers), Accepted(movers, old(db.writes), db.rejected), WeeklyMoverKey)
    ensures db.stocksDaily == old(db.stocksDaily) && db.dailyMovers == old(db.dailyMovers)
    ensures db.tickers == old(db.tickers)
  {
    for i := 0 to |movers|
      invariant db.Valid()
      invariant db.writes == old(db.writes) + i
      invariant db.weeklyMovers
             == UpsertAll(old(db.weeklyMovers), Accepted(movers[..i], old(db.writes), db.rejected), WeeklyMoverKey)
      invariant db.stocksDaily == old(db.stocksDaily) && db.dailyMovers == old(db.dailyMovers)
      invariant db.tickers == old(db.tickers)
    {
      ghost var done := Accepted(movers[..i], old(db.writes), db.rejected);
      AcceptedSnoc(movers[..i], movers[i], old(db.writes), db.rejected);
      assert movers[..i + 1] == movers[..i] + [movers[i]];
      var ok := db.UpsertWeeklyMover(movers[i]);
      UpsertAppend(old(db.weeklyMovers), done, if ok then [movers[i]] else [], WeeklyMoverKey);
      assert done + [] == done;
    }
    assert movers[..|movers|] == movers;
  }
}
