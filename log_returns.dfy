/** `get_log_returns` (app.py, lines 52-54):
    `np.log(prices / prices.shift(1)).dropna()`.
    The natural logarithm is a parameter `ln`; the model applies it only to
    strictly positive ratios. */
module LogReturns {
  import opened Wrappers
  import opened Sequences
  import opened PriceFrames

  /** `np.log` of one cell: defined for a positive value, NaN otherwise. */
  function LogCell(ln: real -> real, x: Cell): (y: Cell)
    ensures y.Some? <==> x.Some? && x.value > 0.0
  {
    if x.Some? && x.value > 0.0 then Some(ln(x.value)) else None
  }

  /** Cell `c` of row `i` of `np.log(prices / prices.shift(1))`: the
      shifted frame has only NaN in its first row, and row `i - 1` of the
      prices in row `i`. */
  function ReturnCell(ln: real -> real, f: Frame, i: nat, c: nat): (r: Cell)
    requires WellFormed(f) && i < |f.rows| && c < |f.columns|
    ensures i == 0 ==> r.None?
  {
    if i == 0 then None
    else LogCell(ln, Divide(f.rows[i].cells[c], f.rows[i - 1].cells[c]))
  }

  /** After the first date, a return is present exactly when both prices are,
      the earlier one is not zero and their ratio is positive; it is then the
      log of that ratio. */
  lemma ReturnCellDefined(ln: real -> real, f: Frame, i: nat, c: nat)
    requires WellFormed(f) && 1 <= i < |f.rows| && c < |f.columns|
    ensures var p, q, r := f.rows[i].cells[c], f.rows[i - 1].cells[c], ReturnCell(ln, f, i, c);
            && (r.Some? <==> p.Some? && q.Some? && q.value != 0.0 && p.value / q.value > 0.0)
            && (r.Some? ==> r.value == ln(p.value / q.value))
  {
    var p, q := f.rows[i].cells[c], f.rows[i - 1].cells[c];
    var d := Divide(p, q);
    if d.Some? {
      assert d.value == p.value / q.value;
    }
  }

  /** Row `i` of `np.log(prices / prices.shift(1))`, before `dropna`. */
  function RawReturnRow(ln: real -> real, f: Frame, i: nat): (cells: seq<Cell>)
    requires WellFormed(f) && i < |f.rows|
    ensures |cells| == |f.columns|
  {
    seq(|f.columns|, c requires 0 <= c < |f.columns| => ReturnCell(ln, f, i, c))
  }

  /** All rows of `np.log(prices / prices.shift(1))`, on the price dates. */
  function RawReturns(ln: real -> real, f: Frame): (rows: seq<Observation>)
    requires WellFormed(f)
    ensures |rows| == |f.rows|
    ensures forall i :: 0 <= i < |rows| ==> rows[i].date == f.rows[i].date && |rows[i].cells| == |f.columns|
    ensures |rows| > 0 ==> forall c :: 0 <= c < |rows[0].cells| ==> rows[0].cells[c].None?
  {
    seq(|f.rows|, i requires 0 <= i < |f.rows| => Observation(f.rows[i].date, RawReturnRow(ln, f, i)))
  }

  /** `get_log_returns(prices)`: the same columns, and the rows of the raw
      log-return table that have no NaN. */
  function Returns(ln: real -> real, f: Frame): (g: Frame)
    requires WellFormed(f)
    ensures WellFormed(g) && g.columns == f.columns
    ensures |g.rows| <= |f.rows|
  {
    var kept := DropNa(RawReturns(ln, f));
    assert forall k :: 0 <= k < |kept| ==> kept[k] in RawReturns(ln, f);
    Frame(f.columns, kept)
  }

  /** The return between two positive prices is the log of their ratio. */
  lemma ReturnCellValue(ln: real -> real, f: Frame, i: nat, c: nat)
    requires WellFormed(f) && 1 <= i < |f.rows| && c < |f.columns|
    requires f.rows[i].cells[c].Some? && f.rows[i].cells[c].value > 0.0
    requires f.rows[i - 1].cells[c].Some? && f.rows[i - 1].cells[c].value > 0.0
    ensures ReturnCell(ln, f, i, c) == Some(ln(f.rows[i].cells[c].value / f.rows[i - 1].cells[c].value))
  {
    var a, b := f.rows[i].cells[c].value, f.rows[i - 1].cells[c].value;
    assert a / b > 0.0;
  }

  /** With positive prices, the raw row `i` has no NaN exactly when `i` is
      not the first date and both row `i` and row `i - 1` have every price. */
  lemma RawRowComplete(ln: real -> real, f: Frame, i: nat)
    requires WellFormed(f) && PositivePrices(f) && |f.columns| > 0 && i < |f.rows|
    ensures Complete(RawReturnRow(ln, f, i))
            <==> i >= 1 && Complete(f.rows[i].cells) && Complete(f.rows[i - 1].cells)
  {
    var cells := RawReturnRow(ln, f, i);
    if i == 0 {
      assert cells[0] == ReturnCell(ln, f, 0, 0);
    } else {
      var prev := i - 1;
      if Complete(cells) {
        forall c | 0 <= c < |f.columns| ensures f.rows[i].cells[c].Some? && f.rows[prev].cells[c].Some? {
          assert cells[c] == ReturnCell(ln, f, i, c);
        }
      }
      if Complete(f.rows[i].cells) && Complete(f.rows[prev].cells) {
        forall c | 0 <= c < |f.columns| ensures cells[c].Some? {
          ReturnCellValue(ln, f, i, c);
        }
      }
    }
  }

  /** In a date-ordered table no two rows share a date. */
  lemma DatesDistinct(rows: seq<Observation>, i: nat, j: nat)
    requires DateOrdered(rows) && i < |rows| && j < |rows|
    requires rows[i].date == rows[j].date
    ensures i == j
  {
    assert i < j ==> Earlier(rows[i], rows[j]);
    assert j < i ==> Earlier(rows[j], rows[i]);
  }

  /** A return row kept by `dropna` at the date of price row `i` is raw row `i`. */
  lemma KeptRowIsRaw(ln: real -> real, f: Frame, i: nat, k: nat)
    requires WellFormed(f) && DateOrdered(f.rows) && i < |f.rows|
    requires k < |Returns(ln, f).rows| && Returns(ln, f).rows[k].date == f.rows[i].date
    ensures Returns(ln, f).rows[k] == RawReturns(ln, f)[i]
    ensures Complete(RawReturns(ln, f)[i].cells)
  {
    var raw := RawReturns(ln, f);
    var g := Returns(ln, f);
    assert g.rows[k] in raw;
    var j :| 0 <= j < |raw| && raw[j] == g.rows[k];
    DatesDistinct(f.rows, i, j);
  }

  /** A raw return row without NaN survives `dropna`, at its own date. */
  lemma CompleteRawSurvives(ln: real -> real, f: Frame, i: nat)
    requires WellFormed(f) && i < |f.rows|
    requires Complete(RawReturns(ln, f)[i].cells)
    ensures f.rows[i].date in Dates(Returns(ln, f).rows)
  {
    var raw := RawReturns(ln, f);
    var g := Returns(ln, f);
    assert raw[i] in raw;
    assert raw[i] in g.rows;
    var k :| 0 <= k < |g.rows| && g.rows[k] == raw[i];
    assert Dates(g.rows)[k] == f.rows[i].date;
  }

  /** A return kept at the date of price row `i` comes from a raw row `i`
      without NaN. */
  lemma SurvivorIsComplete(ln: real -> real, f: Frame, i: nat)
    requires WellFormed(f) && DateOrdered(f.rows) && i < |f.rows|
    requires f.rows[i].date in Dates(Returns(ln, f).rows)
    ensures Complete(RawReturns(ln, f)[i].cells)
  {
    var g := Returns(ln, f);
    var k :| 0 <= k < |g.rows| && Dates(g.rows)[k] == f.rows[i].date;
    KeptRowIsRaw(ln, f, i, k);
  }

  /** For a price table with dates in order and positive prices, the return
      for date `t` survives exactly when every column has a price at both `t`
      and the date before it. In particular the first date never survives. */
  lemma ReturnSurvivesIff(ln: real -> real, f: Frame, i: nat)
    requires WellFormed(f) && PositivePrices(f) && DateOrdered(f.rows)
    requires |f.columns| > 0 && i < |f.rows|
    ensures f.rows[i].date in Dates(Returns(ln, f).rows)
            <==> i >= 1 && Complete(f.rows[i].cells) && Complete(f.rows[i - 1].cells)
  {
    var raw := RawReturns(ln, f);
    RawRowComplete(ln, f, i);
    assert raw[i].cells == RawReturnRow(ln, f, i);
    if f.rows[i].date in Dates(Returns(ln, f).rows) {
      SurvivorIsComplete(ln, f, i);
    }
    if Complete(raw[i].cells) {
      CompleteRawSurvives(ln, f, i);
    }
  }

  /** A surviving return at the date of row `i` is, column by column, the log
      of the price at that date over the price the date before. */
  lemma SurvivingReturnValues(ln: real -> real, f: Frame, i: nat, k: nat)
    requires WellFormed(f) && PositivePrices(f) && DateOrdered(f.rows)
    requires |f.columns| > 0 && i < |f.rows|
    requires k < |Returns(ln, f).rows| && Returns(ln, f).rows[k].date == f.rows[i].date
    ensures i >= 1
    ensures forall c :: 0 <= c < |f.columns| ==>
              f.rows[i].cells[c].Some? && f.rows[i - 1].cells[c].Some?
              && Returns(ln, f).rows[k].cells[c]
                 == Some(ln(f.rows[i].cells[c].value / f.rows[i - 1].cells[c].value))
  {
    var raw := RawReturns(ln, f);
    var g := Returns(ln, f);
    KeptRowIsRaw(ln, f, i, k);
    assert Dates(g.rows)[k] == f.rows[i].date;
    ReturnSurvivesIff(ln, f, i);
    forall c | 0 <= c < |f.columns|
      ensures f.rows[i].cells[c].Some? && f.rows[i - 1].cells[c].Some?
              && g.rows[k].cells[c] == Some(ln(f.rows[i].cells[c].value / f.rows[i - 1].cells[c].value))
    {
      assert g.rows[k].cells[c] == ReturnCell(ln, f, i, c);
      ReturnCellValue(ln, f, i, c);
    }
  }

  /** The return table keeps the date order of the prices. */
  lemma ReturnsKeepDateOrder(ln: real -> real, f: Frame)
    requires WellFormed(f) && DateOrdered(f.rows)
    ensures DateOrdered(Returns(ln, f).rows)
  {
    var raw := RawReturns(ln, f);
    assert DateOrdered(raw) by {
      forall a, b | 0 <= a < b < |raw| ensures Earlier(raw[a], raw[b]) {
        assert Earlier(f.rows[a], f.rows[b]);
      }
    }
    SubsequenceKeepsOrder(Returns(ln, f).rows, raw, Earlier);
  }

  /** Every price in the frame is present and strictly positive. */
  predicate FullyPriced(f: Frame)
  {
    forall i, c :: 0 <= i < |f.rows| && 0 <= c < |f.rows[i].cells| ==>
      f.rows[i].cells[c].Some? && f.rows[i].cells[c].value > 0.0
  }

  /** With every price present and positive and at least one column,
      `dropna` removes exactly the first row of the raw log-return table. */
  lemma DropsOnlyFirstRow(ln: real -> real, f: Frame)
    requires WellFormed(f) && FullyPriced(f) && |f.columns| > 0 && |f.rows| >= 1
    ensures Returns(ln, f).rows == RawReturns(ln, f)[1..]
  {
    var raw := RawReturns(ln, f);
    var rest := raw[1..];
    assert !HasNoNaN(raw[0]) by {
      assert raw[0].cells[0] == ReturnCell(ln, f, 0, 0);
    }
    forall k | 0 <= k < |rest| ensures HasNoNaN(rest[k]) {
      var i := k + 1;
      assert rest[k] == raw[i];
      forall c | 0 <= c < |f.columns| ensures raw[i].cells[c].Some? {
        assert raw[i].cells[c] == ReturnCell(ln, f, i, c);
        ReturnCellValue(ln, f, i, c);
      }
    }
    FilterKeepsAll(rest, HasNoNaN);
    assert Filter(raw, HasNoNaN) == Filter(rest, HasNoNaN);
  }

  /** With every price present and positive and at least one column, a table
      of `n >= 1` dates gives exactly `n - 1` returns, on every date but the
      first (none at all for a single date). */
  lemma ReturnsOfCompletePrices(ln: real -> real, f: Frame)
    requires WellFormed(f) && FullyPriced(f) && |f.columns| > 0 && |f.rows| >= 1
    ensures |Returns(ln, f).rows| == |f.rows| - 1
    ensures Dates(Returns(ln, f).rows) == Dates(f.rows)[1..]
  {
    DropsOnlyFirstRow(ln, f);
    var g, raw := Returns(ln, f), RawReturns(ln, f);
    assert |g.rows| == |f.rows| - 1;
    forall k | 0 <= k < |g.rows| ensures Dates(g.rows)[k] == Dates(f.rows)[1..][k] {
      assert g.rows[k] == raw[k + 1];
    }
  }

  /** With every price present and positive and at least one column, return
      `k` is `ln(p[k + 1][c] / p[k][c])` in every column `c`. */
  lemma CompleteReturnValue(ln: real -> real, f: Frame, k: nat, c: nat)
    requires WellFormed(f) && FullyPriced(f) && |f.columns| > 0
    requires k + 1 < |f.rows| && c < |f.columns|
    ensures k < |Returns(ln, f).rows|
    ensures Returns(ln, f).rows[k].cells[c]
            == Some(ln(f.rows[k + 1].cells[c].value / f.rows[k].cells[c].value))
  {
    var g, raw := Returns(ln, f).rows, RawReturns(ln, f);
    DropsOnlyFirstRow(ln, f);
    assert g == raw[1..];
    var i := k + 1;
    assert g[k] == raw[i];
    RawReturnValue(ln, f, i, c);
    assert f.rows[i - 1] == f.rows[k];
  }

  /** With every price present and positive, raw return `i >= 1` of column
      `c` is the log of the ratio of consecutive prices. */
  lemma RawReturnValue(ln: real -> real, f: Frame, i: nat, c: nat)
    requires WellFormed(f) && FullyPriced(f)
    requires 1 <= i < |f.rows| && c < |f.columns|
    ensures RawReturns(ln, f)[i].cells[c]
            == Some(ln(f.rows[i].cells[c].value / f.rows[i - 1].cells[c].value))
  {
    assert RawReturns(ln, f)[i].cells[c] == ReturnCell(ln, f, i, c);
    ReturnCellValue(ln, f, i, c);
  }

  /** A table without columns has no NaN to drop: `dropna` then keeps every
      row, the first date included. */
  lemma ReturnsWithoutColumns(ln: real -> real, f: Frame)
    requires WellFormed(f) && |f.columns| == 0
    ensures Returns(ln, f).rows == RawReturns(ln, f)
    ensures Dates(Returns(ln, f).rows) == Dates(f.rows)
  {
    var raw := RawReturns(ln, f);
    FilterKeepsAll(raw, HasNoNaN);
  }

  /** The sum of the present values of column `c` over some rows. */
  function ColumnSum(rows: seq<Observation>, c: nat): real
  {
    if |rows| == 0 then 0.0
    else
      var cells := rows[|rows| - 1].cells;
      ColumnSum(rows[..|rows| - 1], c) + (if c < |cells| && cells[c].Some? then cells[c].value else 0.0)
  }

  /** `ln` turns products of positive numbers into sums, as the natural
      logarithm does. */
  ghost predicate Additive(ln: real -> real)
  {
    forall x, y {:trigger ln(Product(x, y))} :: x > 0.0 && y > 0.0 ==> ln(Product(x, y)) == ln(x) + ln(y)
  }

  /** The product of two reals, named so that `Additive` is instantiated only
      at the products a proof mentions. */
  function Product(x: real, y: real): real
  {
    x * y
  }

  /** Two consecutive log-ratios add up to the log-ratio over both steps. */
  lemma LogRatiosAdd(ln: real -> real, p0: real, a: real, b: real)
    requires Additive(ln) && p0 > 0.0 && a > 0.0 && b > 0.0
    ensures ln(a / p0) + ln(b / a) == ln(b / p0)
  {
    RatiosCompose(p0, a, b);
    assert Product(a / p0, b / a) == b / p0;
    assert ln(Product(a / p0, b / a)) == ln(a / p0) + ln(b / a);
  }

  /** Two consecutive positive ratios multiply to the ratio over both steps. */
  lemma RatiosCompose(p0: real, a: real, b: real)
    requires p0 > 0.0 && a > 0.0 && b > 0.0
    ensures a / p0 > 0.0 && b / a > 0.0
    ensures (a / p0) * (b / a) == b / p0
  {
    var x, y, z := a / p0, b / a, b / p0;
    assert x * p0 == a && y * a == b && z * p0 == b;
    assert (x * y) * p0 == y * (x * p0);
  }

  /** The log of a ratio of a number to itself is zero. */
  lemma LogOfOne(ln: real -> real, p0: real)
    requires Additive(ln) && p0 > 0.0
    ensures ln(p0 / p0) == 0.0
  {
    assert p0 / p0 == 1.0;
    assert ln(Product(1.0, 1.0)) == ln(1.0) + ln(1.0);
  }

  /** The returns of dates `1..m` of a positively priced column add up to
      the log of the price at `m` over the first price. */
  lemma {:induction false} RawReturnsTelescope(ln: real -> real, f: Frame, c: nat, m: nat)
    requires WellFormed(f) && FullyPriced(f) && c < |f.columns| && m < |f.rows|
    requires Additive(ln)
    ensures ColumnSum(RawReturns(ln, f)[1..m + 1], c)
            == ln(f.rows[m].cells[c].value / f.rows[0].cells[c].value)
  {
    var raw := RawReturns(ln, f);
    var p0 := f.rows[0].cells[c].value;
    assert p0 > 0.0;
    if m == 0 {
      assert raw[1..1] == [];
      LogOfOne(ln, p0);
    } else {
      RawReturnsTelescope(ln, f, c, m - 1);
      var a, b := f.rows[m - 1].cells[c].value, f.rows[m].cells[c].value;
      assert a > 0.0 && b > 0.0;
      assert raw[1..m + 1][..m - 1] == raw[1..m];
      assert raw[1..m + 1][m - 1] == raw[m];
      assert raw[m].cells[c] == ReturnCell(ln, f, m, c);
      ReturnCellValue(ln, f, m, c);
      LogRatiosAdd(ln, p0, a, b);
    }
  }

  /** Summing the returns of a column telescopes: when `ln` turns products
      into sums, the returns add up to the log of the last price over the
      first. This is the round trip from returns back to prices: the last
      price is the first one grown by the exponential of the summed returns. */
  lemma ReturnsTelescope(ln: real -> real, f: Frame, c: nat)
    requires WellFormed(f) && FullyPriced(f) && |f.rows| >= 1 && c < |f.columns|
    requires Additive(ln)
    ensures ColumnSum(Returns(ln, f).rows, c)
            == ln(f.rows[|f.rows| - 1].cells[c].value / f.rows[0].cells[c].value)
  {
    DropsOnlyFirstRow(ln, f);
    var raw := RawReturns(ln, f);
    var rows := Returns(ln, f).rows;
    assert rows == raw[1..|f.rows|];
    RawReturnsTelescope(ln, f, c, |f.rows| - 1);
  }
}
