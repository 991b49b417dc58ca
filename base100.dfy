/** The relative-performance view (app.py, line 71):
    `normalized = (data / data.iloc[0]) * 100`. Every column is divided by
    its value on the first date and scaled to 100. */
module Base100 {
  import opened Wrappers
  import opened PriceFrames

  /** `x * 100` on a cell; NaN stays NaN. */
  function Times100(x: Cell): (y: Cell)
    ensures y.Some? <==> x.Some?
    ensures y.Some? ==> y.value == 100.0 * x.value
  {
    if x.Some? then Some(x.value * 100.0) else None
  }

  /** One cell of the normalised frame: the price over the first price of
      its column, times 100. */
  function Rebased(x: Cell, first: Cell): Cell
  {
    Times100(Divide(x, first))
  }

  /** `(data / data.iloc[0]) * 100`. `data.iloc[0]` needs a first row. */
  function Normalize(f: Frame): (g: Frame)
    requires WellFormed(f) && |f.rows| > 0
    ensures WellFormed(g) && g.columns == f.columns
    ensures |g.rows| == |f.rows| && Dates(g.rows) == Dates(f.rows)
  {
    var first := f.rows[0].cells;
    Frame(f.columns, seq(|f.rows|, i requires 0 <= i < |f.rows| =>
      Observation(f.rows[i].date, seq(|f.columns|, c requires 0 <= c < |f.columns| =>
        Rebased(f.rows[i].cells[c], first[c])))))
  }

  /** Every column whose first price is present and positive starts at
      exactly 100. */
  lemma NormalizeStartsAt100(f: Frame, c: nat)
    requires WellFormed(f) && |f.rows| > 0 && c < |f.columns|
    requires f.rows[0].cells[c].Some? && f.rows[0].cells[c].value > 0.0
    ensures Normalize(f).rows[0].cells[c] == Some(100.0)
  {
    var p := f.rows[0].cells[c].value;
    assert Normalize(f).rows[0].cells[c] == Rebased(f.rows[0].cells[c], f.rows[0].cells[c]);
    assert p / p == 1.0;
  }

  /** A normalised value is present exactly when the price and the first
      price of its column are present and the first price is not zero; it is
      then 100 times their ratio. */
  lemma NormalizedValue(f: Frame, i: nat, c: nat)
    requires WellFormed(f) && i < |f.rows| && c < |f.columns|
    ensures Normalize(f).rows[i].cells[c].Some?
            <==> f.rows[i].cells[c].Some? && f.rows[0].cells[c].Some? && f.rows[0].cells[c].value != 0.0
    ensures Normalize(f).rows[i].cells[c].Some? ==>
              Normalize(f).rows[i].cells[c].value * f.rows[0].cells[c].value == 100.0 * f.rows[i].cells[c].value
  {
    assert Normalize(f).rows[i].cells[c] == Rebased(f.rows[i].cells[c], f.rows[0].cells[c]);
  }

  /** Normalising keeps the ratio between any two dates of a column:
      `normalized[t][c] / normalized[s][c] == data[t][c] / data[s][c]`. */
  lemma NormalizePreservesRatios(f: Frame, t: nat, s: nat, c: nat)
    requires WellFormed(f) && t < |f.rows| && s < |f.rows| && c < |f.columns|
    requires f.rows[0].cells[c].Some? && f.rows[0].cells[c].value > 0.0
    requires f.rows[t].cells[c].Some? && f.rows[s].cells[c].Some? && f.rows[s].cells[c].value > 0.0
    ensures Normalize(f).rows[t].cells[c].Some? && Normalize(f).rows[s].cells[c].Some?
    ensures Normalize(f).rows[s].cells[c].value > 0.0
    ensures Normalize(f).rows[t].cells[c].value / Normalize(f).rows[s].cells[c].value
            == f.rows[t].cells[c].value / f.rows[s].cells[c].value
  {
    var g := Normalize(f);
    var p0, pt, ps := f.rows[0].cells[c].value, f.rows[t].cells[c].value, f.rows[s].cells[c].value;
    assert g.rows[t].cells[c] == Rebased(f.rows[t].cells[c], f.rows[0].cells[c]);
    assert g.rows[s].cells[c] == Rebased(f.rows[s].cells[c], f.rows[0].cells[c]);
    var nt, ns := pt / p0 * 100.0, ps / p0 * 100.0;
    assert g.rows[t].cells[c].value == nt && g.rows[s].cells[c].value == ns;
    assert ps / p0 > 0.0;
    assert nt / ns == pt / ps by {
      assert nt * ps == pt * ns;
    }
  }

  /** Rebasing a price onto a first price of 100 gives the price back. */
  lemma RebaseOnHundred(x: Cell)
    requires x.Some?
    ensures Rebased(x, Some(100.0)) == x
  {
    assert Divide(x, Some(100.0)) == Some(x.value / 100.0);
  }

  /** Normalising a normalised frame changes nothing: every column already
      starts at 100, or is NaN throughout. */
  lemma NormalizeIdempotent(f: Frame)
    requires WellFormed(f) && |f.rows| > 0
    ensures Normalize(Normalize(f)) == Normalize(f)
  {
    var g := Normalize(f);
    var h := Normalize(g);
    forall i, c | 0 <= i < |f.rows| && 0 <= c < |f.columns|
      ensures h.rows[i].cells[c] == g.rows[i].cells[c]
    {
      assert h.rows[i].cells[c] == Rebased(g.rows[i].cells[c], g.rows[0].cells[c]);
      assert g.rows[i].cells[c] == Rebased(f.rows[i].cells[c], f.rows[0].cells[c]);
      assert g.rows[0].cells[c] == Rebased(f.rows[0].cells[c], f.rows[0].cells[c]);
      if g.rows[i].cells[c].Some? {
        var p0 := f.rows[0].cells[c].value;
        assert p0 / p0 == 1.0;
        RebaseOnHundred(g.rows[i].cells[c]);
      } else {
        assert Divide(g.rows[i].cells[c], g.rows[0].cells[c]) == None;
      }
    }
    forall i | 0 <= i < |f.rows| ensures h.rows[i] == g.rows[i] {
      assert h.rows[i].date == Dates(h.rows)[i] == Dates(g.rows)[i] == g.rows[i].date;
    }
  }
}
