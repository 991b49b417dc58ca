/** The displayed Value-at-Risk figures (app.py, lines 104-109). The
    per-asset quantiles of the fitted normal distribution are inputs here;
    a NaN quantile (a series with zero or undefined deviation) is `None`. */
module ValueAtRisk {
  import opened Wrappers

  /** `x * -1 if x < 0 else x`: a negative quantile is shown as the loss it
      stands for, a non-negative one as it is. The result is the absolute
      value of the quantile. */
  function LossFigure(q: real): (v: real)
    ensures v >= 0.0
    ensures v == q || v == -q
    ensures q >= 0.0 ==> v == q
  {
    if q < 0.0 then q * -1.0 else q
  }

  /** Applying the sign rule to a figure already shown changes nothing. */
  lemma LossFigureIdempotent(q: real)
    ensures LossFigure(LossFigure(q)) == LossFigure(q)
  {
  }

  /** The sign rule gives opposite quantiles the same figure. */
  lemma LossFigureSymmetric(q: real)
    ensures LossFigure(-q) == LossFigure(q)
  {
  }

  /** `[x * -1 if x < 0 else x for x in var_value]`: one figure per quantile,
      in the same order; a NaN quantile stays NaN, since `NaN < 0` is false. */
  function LossFigures(quantiles: seq<Option<real>>): (figures: seq<Option<real>>)
    ensures |figures| == |quantiles|
    ensures forall i :: 0 <= i < |quantiles| ==>
              figures[i] == (if quantiles[i].Some? then Some(LossFigure(quantiles[i].value)) else None)
  {
    if |quantiles| == 0 then []
    else
      var q := quantiles[0];
      [if q.Some? then Some(LossFigure(q.value)) else None] + LossFigures(quantiles[1..])
  }

  /** Every figure shown is NaN or non-negative. */
  lemma LossFiguresNonNegative(quantiles: seq<Option<real>>)
    ensures forall i :: 0 <= i < |quantiles| && LossFigures(quantiles)[i].Some? ==>
              LossFigures(quantiles)[i].value >= 0.0
  {
  }

  /** The table built from `{"Asset": assets, "Max Daily Loss": figures}`:
      row `i` pairs asset `i` with figure `i`. pandas refuses columns of
      different lengths (a ValueError), which is `None` here. */
  function RiskTable(assets: seq<string>, figures: seq<Option<real>>): (table: Option<seq<(string, Option<real>)>>)
    ensures table.Some? <==> |assets| == |figures|
    ensures table.Some? ==> |table.value| == |assets|
    ensures table.Some? ==> forall i :: 0 <= i < |assets| ==> table.value[i] == (assets[i], figures[i])
  {
    if |assets| != |figures| then None
    else Some(seq(|assets|, i requires 0 <= i < |assets| => (assets[i], figures[i])))
  }

  /** The asset column of a table. */
  function Assets(table: seq<(string, Option<real>)>): seq<string>
  {
    seq(|table|, i requires 0 <= i < |table| => table[i].0)
  }

  /** The figure column of a table. */
  function Figures(table: seq<(string, Option<real>)>): seq<Option<real>>
  {
    seq(|table|, i requires 0 <= i < |table| => table[i].1)
  }

  /** Reading the two columns back out of the table gives the asset list and
      the figures it was built from. */
  lemma RiskTableColumns(assets: seq<string>, figures: seq<Option<real>>)
    requires |assets| == |figures|
    ensures RiskTable(assets, figures).Some?
    ensures Assets(RiskTable(assets, figures).value) == assets
    ensures Figures(RiskTable(assets, figures).value) == figures
  {
  }
}
