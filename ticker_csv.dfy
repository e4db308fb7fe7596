/**
 * Reading a ticker list from a CSV file, as both loaders do: the ticker column
 * is the first of a fixed list of header names that the file has, else the
 * first column. A table is its header and its rows; a cell is `None` when it is
 * empty (pandas reads it as NaN) and a short row reads as missing cells.
 */
module TickerCsv {
  import opened Wrappers
  import Text

  datatype Csv = Unreadable | Table(header: seq<string>, rows: seq<seq<Option<string>>>)

  /** The header names tried, in order. */
  const TICKER_COLUMNS: seq<string> := ["ticker", "Ticker", "symbol", "Symbol", "TICKER", "SYMBOL"]

  function CellAt(row: seq<Option<string>>, j: nat): Option<string>
  {
    if j < |row| then row[j] else None
  }

  /** The position of the first column called `name`. */
  function IndexOf(header: seq<string>, name: string): (r: Option<nat>)
    ensures r.None? <==> name !in header
    ensures r.Some? ==> r.value < |header| && header[r.value] == name
    ensures r.Some? ==> forall j :: 0 <= j < r.value ==> header[j] != name
  {
    if header == [] then None
    else if header[0] == name then Some(0)
    else match IndexOf(header[1..], name)
      case None => None
      case Some(j) => Some(j + 1)
  }

  /** The column chosen when the candidates from position `c` on are tried in order. */
  function ColumnFrom(header: seq<string>, c: nat): Option<nat>
    requires c <= |TICKER_COLUMNS|
    decreases |TICKER_COLUMNS| - c
  {
    if c == |TICKER_COLUMNS| then (if header == [] then None else Some(0))
    else if TICKER_COLUMNS[c] in header then IndexOf(header, TICKER_COLUMNS[c])
    else ColumnFrom(header, c + 1)
  }

  /** The ticker column of a table with this header; `None` when it has no column at all. */
  function TickerColumnOf(header: seq<string>): Option<nat>
  {
    ColumnFrom(header, 0)
  }

  /**
   * The first candidate name the header has decides the column (its first
   * occurrence); with none of them, the first column is used.
   */
  lemma {:induction false} TickerColumnChoice(header: seq<string>, c: nat)
    requires c < |TICKER_COLUMNS| && TICKER_COLUMNS[c] in header
    requires forall c' :: 0 <= c' < c ==> TICKER_COLUMNS[c'] !in header
    ensures TickerColumnOf(header) == IndexOf(header, TICKER_COLUMNS[c])
  {
    var i := 0;
    while i < c
      invariant 0 <= i <= c
      invariant ColumnFrom(header, 0) == ColumnFrom(header, i)
    {
      i := i + 1;
    }
  }

  lemma {:induction false} TickerColumnFallback(header: seq<string>)
    requires forall c :: 0 <= c < |TICKER_COLUMNS| ==> TICKER_COLUMNS[c] !in header
    ensures TickerColumnOf(header) == if header == [] then None else Some(0)
  {
    var i := 0;
    while i < |TICKER_COLUMNS|
      invariant 0 <= i <= |TICKER_COLUMNS|
      invariant ColumnFrom(header, 0) == ColumnFrom(header, i)
    {
      i := i + 1;
    }
  }

  /** A column is chosen exactly when the table has one, and it is one of its columns. */
  lemma {:induction false} FindTickerColumnTotal(header: seq<string>)
    ensures TickerColumnOf(header).Some? <==> header != []
    ensures TickerColumnOf(header).Some? ==> TickerColumnOf(header).value < |header|
  {
    var i := |TICKER_COLUMNS|;
    while i > 0
      invariant 0 <= i <= |TICKER_COLUMNS|
      invariant ColumnFrom(header, i).Some? <==> header != []
      invariant ColumnFrom(header, i).Some? ==> ColumnFrom(header, i).value < |header|
    {
      i := i - 1;
    }
  }

  /** The `for col in [...]: if col in df.columns: ... break` search, then `df.columns[0]`. */
  method FindTickerColumn(header: seq<string>) returns (col: Option<nat>)
    ensures col == TickerColumnOf(header)
    ensures col.Some? <==> header != []
    ensures col.Some? ==> col.value < |header|
  {
    var c := 0;
    while c < |TICKER_COLUMNS|
      invariant 0 <= c <= |TICKER_COLUMNS|
      invariant ColumnFrom(header, 0) == ColumnFrom(header, c)
    {
      var idx := IndexOf(header, TICKER_COLUMNS[c]);
      if idx.Some? {
        return idx;
      }
      c := c + 1;
    }
    if header != [] {
      col := Some(0);
    } else {
      col := None;
    }
  }

  /** `df[col].dropna().astype(str).str.strip().tolist()`. */
  function ColumnTickers(rows: seq<seq<Option<string>>>, j: nat): seq<string>
  {
    if rows == [] then []
    else
      (match CellAt(rows[0], j) case Some(s) => [Text.Strip(s)] case None => [])
      + ColumnTickers(rows[1..], j)
  }

  /** Every ticker read is the stripped text of a non-empty cell of the column, in row order. */
  lemma {:induction false} ColumnTickersFromCells(rows: seq<seq<Option<string>>>, j: nat)
    ensures |ColumnTickers(rows, j)| <= |rows|
    ensures forall s :: s in ColumnTickers(rows, j) ==>
      exists r :: 0 <= r < |rows| && CellAt(rows[r], j).Some? && s == Text.Strip(CellAt(rows[r], j).value)
    ensures |ColumnTickers(rows, j)| == |rows| <==> forall r :: 0 <= r < |rows| ==> CellAt(rows[r], j).Some?
  {
    ColumnTickersLength(rows, j);
    ColumnTickersSound(rows, j);
  }

  /** One ticker per non-blank cell: as many tickers as rows iff no cell is blank. */
  lemma ColumnTickersLength(rows: seq<seq<Option<string>>>, j: nat)
    ensures |ColumnTickers(rows, j)| <= |rows|
    ensures |ColumnTickers(rows, j)| == |rows| <==> forall r :: 0 <= r < |rows| ==> CellAt(rows[r], j).Some?
  {
    ColumnTickersCount(rows, j);
    NoBlanks(rows, j);
  }

  /** The number of blank cells in column `j`. */
  function Blanks(rows: seq<seq<Option<string>>>, j: nat): (n: nat)
    ensures n <= |rows|
  {
    if rows == [] then 0 else (if CellAt(rows[0], j).None? then 1 else 0) + Blanks(rows[1..], j)
  }

  lemma {:induction false} ColumnTickersCount(rows: seq<seq<Option<string>>>, j: nat)
    ensures |ColumnTickers(rows, j)| == |rows| - Blanks(rows, j)
  {
    if rows != [] {
      ColumnTickersCount(rows[1..], j);
    }
  }

  lemma {:induction false} NoBlanks(rows: seq<seq<Option<string>>>, j: nat)
    ensures Blanks(rows, j) == 0 <==> forall r :: 0 <= r < |rows| ==> CellAt(rows[r], j).Some?
  {
    if rows != [] {
      var rest := rows[1..];
      NoBlanks(rest, j);
      if Blanks(rows, j) == 0 {
        forall r | 0 <= r < |rows|
          ensures CellAt(rows[r], j).Some?
        {
          if r > 0 {
            assert rows[r] == rest[r - 1];
          }
        }
      }
      if forall r :: 0 <= r < |rows| ==> CellAt(rows[r], j).Some? {
        forall r | 0 <= r < |rest|
          ensures CellAt(rest[r], j).Some?
        {
          assert rest[r] == rows[r + 1];
        }
      }
    }
  }

  /** Reading the column of two blocks of rows reads the first block, then the second. */
  lemma {:induction false} ColumnTickersAppend(a: seq<seq<Option<string>>>, b: seq<seq<Option<string>>>, j: nat)
    ensures ColumnTickers(a + b, j) == ColumnTickers(a, j) + ColumnTickers(b, j)
  {
    if a == [] {
      assert a + b == b;
    } else {
      assert (a + b)[0] == a[0] && (a + b)[1..] == a[1..] + b;
      ColumnTickersAppend(a[1..], b, j);
    }
  }

  /**
   * Every non-blank cell of column `j` is read, stripped, at the position its
   * row has once the blank cells above it are dropped.
   */
  ghost predicate InRowOrder(ts: seq<string>, rows: seq<seq<Option<string>>>, j: nat)
  {
    forall r :: 0 <= r < |rows| && CellAt(rows[r], j).Some? ==>
      && r - Blanks(rows[..r], j) < |ts|
      && ts[r - Blanks(rows[..r], j)] == Text.Strip(CellAt(rows[r], j).value)
  }

  /** `InRowOrder` for one row `r`. */
  lemma ColumnTickersAt(rows: seq<seq<Option<string>>>, j: nat, r: nat)
    requires r < |rows| && CellAt(rows[r], j).Some?
    ensures r - Blanks(rows[..r], j) < |ColumnTickers(rows, j)|
    ensures ColumnTickers(rows, j)[r - Blanks(rows[..r], j)] == Text.Strip(CellAt(rows[r], j).value)
  {
    var above, below := rows[..r], rows[r..];
    assert rows == above + below;
    assert below[0] == rows[r];
    ColumnTickersAppend(above, below, j);
    ColumnTickersCount(above, j);
  }

  /** The tickers of a column are read in row order. */
  lemma ColumnTickersInOrder(rows: seq<seq<Option<string>>>, j: nat)
    ensures InRowOrder(ColumnTickers(rows, j), rows, j)
  {
    forall r | 0 <= r < |rows| && CellAt(rows[r], j).Some?
      ensures r - Blanks(rows[..r], j) < |ColumnTickers(rows, j)|
      ensures ColumnTickers(rows, j)[r - Blanks(rows[..r], j)] == Text.Strip(CellAt(rows[r], j).value)
    {
      ColumnTickersAt(rows, j, r);
    }
  }

  /** Every ticker is the stripped text of some non-blank cell of the column. */
  lemma {:induction false} ColumnTickersSound(rows: seq<seq<Option<string>>>, j: nat)
    ensures forall s :: s in ColumnTickers(rows, j) ==>
      exists r :: 0 <= r < |rows| && CellAt(rows[r], j).Some? && s == Text.Strip(CellAt(rows[r], j).value)
  {
    if rows != [] {
      ColumnTickersSound(rows[1..], j);
      forall s | s in ColumnTickers(rows, j)
        ensures exists r :: 0 <= r < |rows| && CellAt(rows[r], j).Some? && s == Text.Strip(CellAt(rows[r], j).value)
      {
        if s !in ColumnTickers(rows[1..], j) {
          assert CellAt(rows[0], j).Some? && s == Text.Strip(CellAt(rows[0], j).value);
        } else {
          var r :| 0 <= r < |rows[1..]| && CellAt(rows[1..][r], j).Some? && s == Text.Strip(CellAt(rows[1..][r], j).value);
          assert rows[1..][r] == rows[r + 1];
        }
      }
    }
  }

}
