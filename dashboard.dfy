/** The main flow of app.py (lines 57-115) with its user interface, charts
    and statistics taken out: parse the ticker list, align the downloaded
    prices with it, and derive the base-100 view and the log returns; then
    pair the per-asset VaR figures with the available tickers. */
module Dashboard {
  import opened Wrappers
  import opened Sequences
  import opened Tickers
  import opened PriceFrames
  import opened Alignment
  import Base100
  import LogReturns
  import ValueAtRisk

  /** What one run produces: the "No data found" warning, or the tables the
      dashboard draws from. */
  datatype Outcome =
    | NoData
    | Analysed(tickers: seq<string>, available: seq<string>, prices: Frame,
               normalized: Frame, logReturns: Frame)

  /** One run of the dashboard on the text of the asset field and the frame
      the download returned (`ln` is the natural logarithm). */
  function Analyse(input: string, downloaded: Frame, ln: real -> real): (out: Outcome)
    requires WellFormed(downloaded)
    ensures out.NoData? <==> IsEmpty(downloaded)
    ensures out.Analysed? ==>
              && out.tickers == ParseTickers(input)
              && out.available == AvailableTickers(out.tickers, downloaded.columns)
              && out.prices.columns == out.available
              && out.normalized.columns == out.available
              && out.logReturns.columns == out.available
              && Dates(out.prices.rows) == Dates(downloaded.rows)
              && Dates(out.normalized.rows) == Dates(downloaded.rows)
  {
    var tickers := ParseTickers(input);
    if IsEmpty(downloaded) then NoData
    else
      var available := AvailableTickers(tickers, downloaded.columns);
      var prices := Align(downloaded, tickers);
      Analysed(tickers, available, prices, Base100.Normalize(prices), LogReturns.Returns(ln, prices))
  }

  /** The VaR table of a run, from one quantile per column of the return
      table (computed outside the model). It builds exactly when there is
      one quantile per available ticker; row `i` then shows ticker `i` with
      quantile `i` made non-negative, and a NaN quantile shown as NaN. */
  function RiskReport(out: Outcome, quantiles: seq<Option<real>>): (table: Option<seq<(string, Option<real>)>>)
    requires out.Analysed?
    ensures table.Some? <==> |quantiles| == |out.available|
    ensures table.Some? ==> |table.value| == |quantiles|
    ensures table.Some? ==> forall i :: 0 <= i < |quantiles| ==>
              && table.value[i].0 == out.available[i]
              && (quantiles[i].Some? ==> table.value[i].1 == Some(ValueAtRisk.LossFigure(quantiles[i].value)))
              && (quantiles[i].None? ==> table.value[i].1.None?)
  {
    ValueAtRisk.RiskTable(out.available, ValueAtRisk.LossFigures(quantiles))
  }

  /** With one quantile per column of the return table, as `returns.mean()`
      and `returns.std()` give, the VaR table always builds, and row `i`
      shows available ticker `i` with the displayed figure of quantile `i`. */
  lemma RiskReportAligned(input: string, downloaded: Frame, ln: real -> real, quantiles: seq<Option<real>>)
    requires WellFormed(downloaded)
    requires Analyse(input, downloaded, ln).Analysed?
    requires |quantiles| == |Analyse(input, downloaded, ln).logReturns.columns|
    ensures RiskReport(Analyse(input, downloaded, ln), quantiles).Some?
    ensures forall i :: 0 <= i < |quantiles| ==>
              var row := RiskReport(Analyse(input, downloaded, ln), quantiles).value[i];
              && row.0 == Analyse(input, downloaded, ln).available[i]
              && row.0 in downloaded.columns
              && (quantiles[i].Some? ==> row.1 == Some(ValueAtRisk.LossFigure(quantiles[i].value)))
              && (quantiles[i].None? ==> row.1.None?)
  {
    var out := Analyse(input, downloaded, ln);
    forall i | 0 <= i < |quantiles| ensures out.available[i] in downloaded.columns {
      assert out.available[i] in out.available;
    }
  }

  /** When the download has data, the normalised view starts at 100 for
      every available ticker whose first price is positive. */
  lemma NormalizedViewStartsAt100(input: string, downloaded: Frame, ln: real -> real, c: nat)
    requires WellFormed(downloaded) && !IsEmpty(downloaded)
    requires c < |Analyse(input, downloaded, ln).available|
    requires Analyse(input, downloaded, ln).prices.rows[0].cells[c].Some?
    requires Analyse(input, downloaded, ln).prices.rows[0].cells[c].value > 0.0
    ensures Analyse(input, downloaded, ln).normalized.rows[0].cells[c] == Some(100.0)
  {
    var out := Analyse(input, downloaded, ln);
    Base100.NormalizeStartsAt100(out.prices, c);
  }
}
