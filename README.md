# Quant Risk Dashboard: the data logic of `app.py`, in Dafny

The dashboard is a Streamlit script. The user types a comma-separated list of
asset tickers. The script downloads adjusted closing prices and shows three
views: performance rebased to 100, a correlation matrix of daily log
returns, and a one-day parametric Value-at-Risk per asset.

This project models the exact list, string and table logic under those views:

- **Ticker parsing** (`Tickers`): `[t.strip().upper() for t in ticker_input.split(',')]`, over ASCII.
- **Alignment** (`Alignment`): `available_tickers = [t for t in tickers if t in data.columns]` and the column selection `data[available_tickers]`.
- **Log returns** (`LogReturns`): `np.log(prices / prices.shift(1)).dropna()`.
  A price table is a list of dated rows with one `Option<real>` cell per column. `None` is pandas' NaN.
  The natural logarithm is a parameter `ln: real -> real`, applied only to positive ratios.
- **Base-100 view** (`Base100`): `(data / data.iloc[0]) * 100`.
- **VaR display** (`ValueAtRisk`): `x * -1 if x < 0 else x` over the per-asset quantiles, and the table that pairs each figure with its ticker.
- **The run** (`Dashboard`): the main flow that chains these steps, with the "no data" branch.

Shared pieces: `Wrappers` (the `Option` type), `Sequences` (filtering and
subsequences) and `PriceFrames` (the table type, cell division and `dropna`).

The code flags neither a zero-variance series nor an asset with too little history; the model follows the code:

- A zero-variance series gives a NaN quantile. The code shows that NaN unchanged: `NaN < 0` is false.
- An asset with too little history is not flagged. It only loses rows through `dropna`, which is row-wise over all assets.
- Both cases are modelled as the code behaves.

## Model

| member | source | states |
|---|---|---|
| Tickers.Split | app.py:21 | `str.split(',')` yields one more piece than there are commas, so at least one piece; no piece contains the separator |
| Tickers.JoinSplit | app.py:21 | joining the pieces of a split with the separator gives back the original text |
| Tickers.SplitJoin | app.py:21 | splitting the join of separator-free pieces gives back exactly those pieces |
| Tickers.SplitTrailingSeparator | app.py:21 | a separator at the end of the text adds one empty final piece |
| Tickers.Strip | app.py:21 | `str.strip()` returns a string that neither starts nor ends with whitespace and is no longer than the token |
| Tickers.StripCutsOnlyWhitespace | app.py:21 | the stripped token is a contiguous part of the token, and only whitespace lies before and after it |
| Tickers.StripPadded | app.py:21 | any whitespace around a stripped word is removed and the word is returned unchanged; a stripped string is its own strip |
| Tickers.Upper | app.py:21 | `str.upper()` keeps the length, maps each character by the ASCII upper-case rule and leaves no lower-case letter |
| Tickers.UpperUpper | app.py:21 | upper-casing a string without lower-case letters leaves it unchanged |
| Tickers.NormalizeTicker | app.py:21 | a normalised token has no leading or trailing whitespace, no lower-case letter, is no longer than the token and gains no comma |
| Tickers.NormalizePadded | app.py:21 | a token normalises to its upper-cased word whatever whitespace surrounds the word |
| Tickers.NormalizeAll | app.py:21 | the comprehension gives one entry per token, in token order; each is the token's normalised form, trimmed and upper-case, and comma-free when the token is |
| Tickers.ParseTickers | app.py:21 | the ticker list has one entry per comma plus one, so it is never empty and the `len(tickers) > 0` guard of line 57 always holds; every entry is trimmed, upper-case and comma-free |
| Tickers.NormalizeTickerIdempotent | app.py:21 | normalising a token twice equals normalising it once |
| Tickers.ParseTickersStable | app.py:21 | re-normalising a parsed ticker list changes nothing |
| Tickers.ParseJoinParse | app.py:21 | writing the parsed list back as comma-separated text and parsing it again gives the same list |
| Tickers.ParseTrailingComma | app.py:21 | a trailing comma adds one final empty ticker, so empty tokens are kept |
| Tickers.ParseFirstToken | app.py:21 | the first comma-free token becomes the first ticker, ahead of the tickers of the rest, so input order is kept |
| Tickers.ParseKeepsDuplicates | app.py:21 | a token repeated across a comma yields the same ticker twice, so there is no de-duplication |
| Sequences.Filter | app.py:66 | a list comprehension with a condition keeps a subsequence of its input, only elements meeting the condition, each of those with its full multiplicity |
| Alignment.AvailableTickers | app.py:66 | `available_tickers` is a subsequence of `tickers` in user order; it is no longer than `tickers`; every element is a data column; every ticker that is a column keeps its multiplicity |
| Alignment.AvailableTickersAll | app.py:66 | when every ticker has a data column, `available_tickers == tickers` |
| Alignment.AvailableTickersStable | app.py:66 | filtering the available tickers again against the same columns keeps all of them |
| Alignment.IndexOf | app.py:67 | the column looked up for a label is the first column with that label |
| Alignment.SelectColumns | app.py:67 | `data[names]` has exactly the columns `names` in that order; each column holds the data of the input column with that label; dates and row count are unchanged |
| Alignment.SelectOwnColumns | app.py:67 | selecting a frame's own distinct labels in their own order returns the frame unchanged |
| Alignment.Align | app.py:66-67 | after line 67 the frame's columns are exactly the available tickers in user order, on the same dates |
| PriceFrames.Divide | app.py:54 | a quotient cell is present iff both cells are present and the divisor is non-zero, and it then times the divisor gives the dividend |
| PriceFrames.EmptyIffNoCells | app.py:64 | `data.empty` holds for a frame exactly when it holds no cell, whether it has no rows or no columns |
| PriceFrames.DropNa | app.py:54 | `dropna()` keeps, in order, exactly the rows without NaN, each as often as it occurs, and nothing else |
| LogReturns.LogCell | app.py:54 | the logarithm of a cell is defined iff the cell is present and positive |
| LogReturns.ReturnCell | app.py:54 | the first row of `prices / prices.shift(1)` has nothing to divide by, so its log return is NaN |
| LogReturns.ReturnCellDefined | app.py:54 | after the first date, a return cell is present iff both prices are present, the earlier one is non-zero and their ratio is positive; it is then `ln` of that ratio |
| LogReturns.RawReturns | app.py:54 | the table before `dropna` has one row per price date, on the same dates, one cell per column, and its first row is all NaN |
| LogReturns.RawReturnValue | app.py:54 | with every price present and positive, raw return `t >= 1` is `ln(p[t][c] / p[t-1][c])` |
| LogReturns.Returns | app.py:52-54 | the return table has the price table's columns and at most as many rows |
| LogReturns.RawRowComplete | app.py:54 | for positive prices, the raw return row at `t` has no NaN iff `t > 0` and every column has a price at `t` and `t - 1` |
| LogReturns.KeptRowIsRaw | app.py:54 | in a date-ordered table, the return row kept at the date of price row `t` is raw row `t`, and it has no NaN |
| LogReturns.CompleteRawSurvives | app.py:54 | a raw return row without NaN survives `dropna` at its own date |
| LogReturns.SurvivorIsComplete | app.py:54 | in a date-ordered table, a return that survives at the date of row `t` comes from a raw row `t` without NaN |
| LogReturns.ReturnSurvivesIff | app.py:54 | for ordered dates and positive prices, the return for date `t` survives `dropna` iff `t` is not the first date and every column has a price at `t` and at `t - 1` |
| LogReturns.SurvivingReturnValues | app.py:54 | a surviving return at date `t` equals `ln(p[t][c] / p[t-1][c])` in every column |
| LogReturns.ReturnsKeepDateOrder | app.py:54 | the surviving rows keep the dates' order |
| LogReturns.DropsOnlyFirstRow | app.py:54 | with every price present and positive, `dropna` removes exactly the first row |
| LogReturns.ReturnsOfCompletePrices | app.py:52-54 | `n >= 1` fully priced dates give exactly `n - 1` returns, on every date but the first (none for a single date) |
| LogReturns.CompleteReturnValue | app.py:52-54 | with every price present and positive, return `k` is `ln(p[k+1][c] / p[k][c])` in every column |
| LogReturns.ReturnsWithoutColumns | app.py:54 | a frame with no columns has no NaN to drop, so every date is kept, the first included |
| LogReturns.LogRatiosAdd | app.py:53 | for a logarithm that turns products into sums, consecutive log-ratios add up |
| LogReturns.ReturnsTelescope | app.py:53-54 | a column's returns add up to `ln(last price / first price)`, which is the round trip from returns back to prices |
| Base100.Normalize | app.py:71 | the normalised frame has the same columns, dates and number of rows |
| Base100.NormalizeStartsAt100 | app.py:71 | every column with a positive first price is exactly 100 on the first date |
| Base100.NormalizedValue | app.py:71 | a normalised value is present iff the price and a non-zero first price are present; it is then 100 times their ratio |
| Base100.NormalizePreservesRatios | app.py:71 | `normalized[t][c] / normalized[s][c] == data[t][c] / data[s][c]` |
| Base100.RebaseOnHundred | app.py:71 | rebasing a present price onto a first price of 100 returns the price unchanged |
| Base100.NormalizeIdempotent | app.py:71 | normalising the normalised frame changes nothing |
| ValueAtRisk.LossFigure | app.py:104 | the displayed figure is the absolute value of the quantile: non-negative, equal to `q` or `-q`, and equal to `q` when `q >= 0` |
| ValueAtRisk.LossFigureIdempotent | app.py:104 | applying the sign rule twice equals applying it once |
| ValueAtRisk.LossFigureSymmetric | app.py:104 | opposite quantiles display the same figure |
| ValueAtRisk.LossFigures | app.py:104 | one figure per quantile, in the same order; a NaN quantile stays NaN |
| ValueAtRisk.LossFiguresNonNegative | app.py:104 | every displayed figure is NaN or non-negative |
| ValueAtRisk.RiskTable | app.py:106-109 | the table builds iff the asset and figure lists have equal length, and row `i` pairs asset `i` with figure `i` |
| ValueAtRisk.RiskTableColumns | app.py:106-109 | reading the two columns back from the table gives the lists it was built from |
| Dashboard.Analyse | app.py:57-82 | a run gives the "no data" warning iff the download is empty; otherwise the aligned prices, the normalised view and the returns all have the available tickers as columns, and prices and normalised view keep the download's dates |
| Dashboard.RiskReport | app.py:104-109 | the VaR table builds iff there is one quantile per available ticker; row `i` then shows ticker `i` with the absolute value of quantile `i`, and NaN for a NaN quantile |
| Dashboard.RiskReportAligned | app.py:99-109 | with one quantile per return column, the VaR table builds, and row `i` shows available ticker `i`, a downloaded column, with the absolute value of quantile `i`, or NaN for a NaN (zero-variance) quantile |
| Dashboard.NormalizedViewStartsAt100 | app.py:67-71 | in a run, every available ticker with a positive first price starts the performance view at 100 |

## Left out

- Page setup, sidebar widgets, subheaders, captions, warnings and error display (lines 10-29, 58, 70, 85-97, 111-118) are user interface. The model keeps only the choice between the warning and the analysis.
- The Plotly charts (lines 73-79, 91-93) are rendering.
- `load_data` (lines 32-50) is left out: the download, the `@st.cache_data` cache, the selection of the `Close` block and the fallback to an empty frame on any exception. The downloaded frame is an input of `Dashboard.Analyse`. A failed download reaches it as an empty frame.
- `returns.corr()`, `returns.mean()`, `returns.std()` and `norm.ppf` (lines 90, 99-101) are floating-point statistics inside pandas and SciPy. The quantiles are an input of `Dashboard.RiskReport`, one per return column.
- Percentage formatting `f"{x*100:.2f}%"` and `int(conf_level*100)` (lines 97, 108) are float rounding and string formatting.
- The default dates come from `datetime.today()` (lines 25-26) and depend on the clock.
- Floating point: prices and returns are exact reals, and `ln` is any function of type `real -> real`. Rounding is not modelled.
- Tickers.Strip, Tickers.Upper: only ASCII is modelled. Python's `str.strip()` also removes non-ASCII whitespace such as U+00A0, and `str.upper()` also maps non-ASCII letters (`'ß'` becomes `"SS"`). The model leaves all non-ASCII characters unchanged.
- PriceFrames.Divide: pandas gives `±inf` for a non-zero price over a zero price. The model gives NaN (`None`).
- LogReturns.LogCell: `np.log(0)` is `-inf`, which `dropna` keeps. The model gives NaN, so a row with a zero price is dropped. All statements about surviving rows assume positive prices, where the two agree.
- Alignment.SelectColumns: pandas returns every column carrying a label when the download has duplicate labels. The model takes the first such column. The download's labels are distinct.
- Dates are day numbers (`int`). The order of the date index is an assumption of the lemmas that need it (`DateOrdered`), not something the code checks.
