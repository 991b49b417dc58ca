/** Alignment of the user's ticker list with the downloaded columns
    (app.py, lines 66-67): tickers without data are dropped, and the table's
    columns are put in the user's order. */
module Alignment {
  import opened Wrappers
  import opened Sequences
  import opened PriceFrames

  /** `[t for t in tickers if t in columns]`: the tickers that have a data
      column, in the user's order, each as many times as the user wrote it. */
  function AvailableTickers(tickers: seq<string>, columns: seq<string>): (available: seq<string>)
    ensures |available| <= |tickers|
    ensures IsSubsequence(available, tickers)
    ensures forall t :: t in available ==> t in columns
    ensures forall t :: t in columns ==> multiset(available)[t] == multiset(tickers)[t]
  {
    Filter(tickers, t => t in columns)
  }

  /** When every ticker has a column, nothing is dropped. */
  lemma AvailableTickersAll(tickers: seq<string>, columns: seq<string>)
    requires forall i :: 0 <= i < |tickers| ==> tickers[i] in columns
    ensures AvailableTickers(tickers, columns) == tickers
  {
    FilterKeepsAll(tickers, t => t in columns);
  }

  /** Filtering the available tickers again against the same columns keeps them all. */
  lemma AvailableTickersStable(tickers: seq<string>, columns: seq<string>)
    ensures AvailableTickers(AvailableTickers(tickers, columns), columns) == AvailableTickers(tickers, columns)
  {
    FilterIdempotent(tickers, t => t in columns);
  }

  /** The position of the first column labelled `name`. */
  function IndexOf(columns: seq<string>, name: string): (k: nat)
    requires name in columns
    ensures k < |columns| && columns[k] == name
    ensures forall j :: 0 <= j < k ==> columns[j] != name
  {
    if columns[0] == name then 0 else 1 + IndexOf(columns[1..], name)
  }

  /** `data[names]`: a frame whose columns are `names`, in that order, each
      holding the data of the input column with that label; the dates and
      the number of rows do not change. */
  function SelectColumns(f: Frame, names: seq<string>): (g: Frame)
    requires WellFormed(f)
    requires forall i :: 0 <= i < |names| ==> names[i] in f.columns
    ensures WellFormed(g) && g.columns == names
    ensures |g.rows| == |f.rows| && Dates(g.rows) == Dates(f.rows)
    ensures forall i, j :: 0 <= i < |g.rows| && 0 <= j < |names| ==>
              g.rows[i].cells[j] == f.rows[i].cells[IndexOf(f.columns, names[j])]
  {
    Frame(names, seq(|f.rows|, i requires 0 <= i < |f.rows| =>
      Observation(f.rows[i].date, seq(|names|, j requires 0 <= j < |names| =>
        f.rows[i].cells[IndexOf(f.columns, names[j])]))))
  }

  /** Selecting a frame's own distinct columns in their own order changes nothing. */
  lemma SelectOwnColumns(f: Frame)
    requires WellFormed(f)
    requires forall a, b :: 0 <= a < b < |f.columns| ==> f.columns[a] != f.columns[b]
    ensures SelectColumns(f, f.columns) == f
  {
    var g := SelectColumns(f, f.columns);
    forall j | 0 <= j < |f.columns| ensures IndexOf(f.columns, f.columns[j]) == j {
    }
    forall i | 0 <= i < |f.rows| ensures g.rows[i] == f.rows[i] {
      assert g.rows[i].date == Dates(g.rows)[i] == Dates(f.rows)[i] == f.rows[i].date;
    }
  }

  /** `data[available_tickers]` with `available_tickers` as on line 66: the
      aligned frame's columns are exactly the available tickers, in the
      user's order. */
  function Align(f: Frame, tickers: seq<string>): (g: Frame)
    requires WellFormed(f)
    ensures WellFormed(g) && g.columns == AvailableTickers(tickers, f.columns)
    ensures |g.rows| == |f.rows| && Dates(g.rows) == Dates(f.rows)
  {
    SelectColumns(f, AvailableTickers(tickers, f.columns))
  }
}
