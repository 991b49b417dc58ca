/** The tables the dashboard works on: a pandas DataFrame indexed by date,
    with one column per asset, modelled as a list of labelled columns and a
    list of dated rows. */
module PriceFrames {
  import opened Wrappers
  import opened Sequences

  /** One entry of a table; `None` is pandas' NaN (a missing price, or an
      undefined ratio or logarithm). */
  type Cell = Option<real>

  /** One row: the date (as a day number) and one cell per column. */
  datatype Observation = Observation(date: int, cells: seq<Cell>)

  /** A DataFrame: column labels and rows in index order. */
  datatype Frame = Frame(columns: seq<string>, rows: seq<Observation>)

  /** Every row has one cell per column. */
  predicate WellFormed(f: Frame)
  {
    forall i :: 0 <= i < |f.rows| ==> |f.rows[i].cells| == |f.columns|
  }

  /** `DataFrame.empty`: true when the frame has no columns or no rows. */
  predicate IsEmpty(f: Frame)
  {
    |f.columns| == 0 || |f.rows| == 0
  }

  /** A well-formed frame is empty exactly when it holds no cell at all,
      whichever of its two axes has length zero. */
  lemma EmptyIffNoCells(f: Frame)
    requires WellFormed(f)
    ensures IsEmpty(f) <==> forall i :: 0 <= i < |f.rows| ==> |f.rows[i].cells| == 0
  {
    if !IsEmpty(f) {
      assert |f.rows[0].cells| == |f.columns| > 0;
    }
  }

  /** No cell of the row is NaN. */
  predicate Complete(cells: seq<Cell>)
  {
    forall c :: 0 <= c < |cells| ==> cells[c].Some?
  }

  /** Every price present in the frame is strictly positive. */
  predicate PositivePrices(f: Frame)
  {
    forall i, c :: 0 <= i < |f.rows| && 0 <= c < |f.rows[i].cells| && f.rows[i].cells[c].Some?
      ==> f.rows[i].cells[c].value > 0.0
  }

  /** Row `a` comes at an earlier date than row `b`. */
  predicate Earlier(a: Observation, b: Observation)
  {
    a.date < b.date
  }

  /** The dates of the rows strictly increase, as a DataFrame's date index does. */
  predicate DateOrdered(rows: seq<Observation>)
  {
    Ordered(rows, Earlier)
  }

  /** The date index of the rows. */
  function Dates(rows: seq<Observation>): (ds: seq<int>)
    ensures |ds| == |rows|
  {
    seq(|rows|, i requires 0 <= i < |rows| => rows[i].date)
  }

  /** Division of two cells: NaN if either is NaN; a zero divisor also
      yields no finite value. */
  function Divide(a: Cell, b: Cell): (q: Cell)
    ensures q.Some? <==> a.Some? && b.Some? && b.value != 0.0
    ensures q.Some? ==> q.value * b.value == a.value
  {
    if a.Some? && b.Some? && b.value != 0.0 then Some(a.value / b.value) else None
  }

  /** The row has no NaN. */
  predicate HasNoNaN(o: Observation)
  {
    Complete(o.cells)
  }

  /** `DataFrame.dropna()`: the rows without any NaN, in their order. */
  function DropNa(rows: seq<Observation>): (kept: seq<Observation>)
    ensures forall o :: o in kept ==> o in rows && Complete(o.cells)
    ensures forall o :: o in rows && Complete(o.cells) ==> multiset(kept)[o] == multiset(rows)[o]
    ensures forall o :: o in rows && Complete(o.cells) ==> o in kept
    ensures IsSubsequence(kept, rows)
  {
    var kept := Filter(rows, HasNoNaN);
    assert forall o :: o in rows && Complete(o.cells) ==> multiset(kept)[o] == multiset(rows)[o] > 0;
    kept
  }
}
