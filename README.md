# Poultry consumption and weight estimator: a Dafny model

The calculator helps a farm technician compare a flock with its genetic
line's reference curves. The user picks a genetic line (RAZA) and a sex
(SEXO), then enters a day, the real cumulative feed consumption and the real
weight. Two coefficient tables hold degree-4 regression polynomials keyed by
(RAZA, SEXO). One gives cumulative consumption by day. The other gives weight
by cumulative consumption. The calculator reports:

- the estimated consumption for the day;
- the estimated weight for the real consumption;
- the real-minus-estimated differences, absolute and as a percentage of the
  estimate;
- the feed conversion (real consumption / real weight).

Each of the last two uses a guard that yields 0 where the division would be
by zero.

The model has five modules. Arithmetic is exact (`real`):

- `Wrappers`: `Option` and `Result`.
- `Polynomial`: `Horner`, the accumulator loop `acc := acc * x + c` that
  `np.polyval` runs over coefficients in descending power order, and
  `PolySum`, the explicit sum of terms. They are proved equal for lists of
  every length.
- `CoefficientTable`: rows `(RAZA, SEXO, coef_0 .. coef_4)` in source order.
  `Selection` is the boolean-mask filter. `Lookup` takes the first matching
  row and returns `coef_4 .. coef_0`, or `None` where the source's `iloc[0]`
  raises on an empty selection.
- `Estimator`: the query, the report and the whole calculation. A missing
  key yields `Failure`, naming the table whose lookup failed first; the
  day-to-consumption table is consulted first.
- `SelectorOptions`: the two selector lists, `sorted(unique(column))` over
  the consumption-to-weight table. Python orders strings by character code,
  and a proper prefix sorts first; `Less` models that order.

Behaviour choices, each following the code:

- Duplicate keys are not rejected. The code silently takes the first
  matching row, and so does `Lookup` (`LookupIgnoresLaterRows`). A stricter
  loader could refuse a table that holds a key twice; this model does not.
- The input widgets enforce day ≥ 14, consumption ≥ 0.01 and weight ≥ 0.01
  (scripts/app.py:33-35). `Estimate` requires exactly these minima
  (`ValidQuery`), so the worked example uses day 15. Under these minima the
  feed-conversion zero guard cannot fire inside `Estimate`;
  `FeedConversion` states the guard on its own.
- A missing key makes `iloc[0]` raise an indexing error, and the
  calculation stops with no partial result. `Failure` models this.

Calling `Lookup` twice with the same key gives the same coefficients,
because it is a function.

`SelectablePairMayBeMissing` shows that the two selectors are independent.
A line and a sex can each be on offer even though no row holds that pair,
and then the lookup finds nothing.

## Model

| member | source | states |
|---|---|---|
| `CoefficientTable.Coeffs` | scripts/app.py:40 | the list has exactly five entries, and position 4-k holds column `coef_k` (coef_4 first, coef_0 last) |
| `CoefficientTable.CoeffsPowers` | scripts/app.py:40-43 | evaluating a row's list multiplies each `coef_k` by x^k |
| `CoefficientTable.Selection` | scripts/app.py:38 | the filtered rows are exactly the table's rows whose RAZA and SEXO both equal the requested pair; the selection is no longer than the table, and its head is the first matching row |
| `CoefficientTable.SelectionAppend` | scripts/app.py:38 | filtering two tables laid end to end gives the first table's selection followed by the second's; with the clauses of `Selection`, this fixes the selection's table order and how many times each row appears |
| `CoefficientTable.Lookup` | scripts/app.py:37-40 | the lookup fails exactly when no row matches both keys; a found list has five coefficients |
| `CoefficientTable.LookupFirstMatch` | scripts/app.py:38-40 | if row i is the first row matching both keys, the lookup returns row i's coefficients |
| `CoefficientTable.LookupFound` | scripts/app.py:38-40 | a successful lookup's coefficients are those of a first matching row |
| `CoefficientTable.LookupIsHeadOfSelection` | scripts/app.py:38 | the lookup is the head (`iloc[0]`) of the filtered selection, and nothing when the selection is empty |
| `CoefficientTable.LookupIgnoresLaterRows` | scripts/app.py:38 | once a key is found, appending rows (including later duplicates of the key) does not change the result |
| `Polynomial.HornerIsSum` | scripts/app.py:42-43 | Horner evaluation equals the explicit sum of c_i * x^(n-1-i) for a coefficient list of any length |
| `Polynomial.HornerDegree4` | scripts/app.py:42-43 | `[c4,c3,c2,c1,c0]` evaluates to c4*x^4 + c3*x^3 + c2*x^2 + c1*x + c0 |
| `Polynomial.HornerConstant` | scripts/app.py:42-43 | a list whose entries are all zero except possibly the last evaluates to that last entry at every x |
| `Estimator.PctDiff` | scripts/app.py:53-55 | the percentage is 0 when the estimate is 0, whatever the difference; otherwise the percentage times the estimate is 100 times the difference |
| `Estimator.FeedConversion` | scripts/app.py:56 | the conversion is 0 when the weight is 0; otherwise the conversion times the weight is the consumption |
| `Estimator.Compare` | scripts/app.py:52-56 | each difference is real minus estimated; the percentages and the conversion follow the zero-guard policy |
| `Estimator.Estimate` | scripts/app.py:47-56 | fails exactly when either lookup fails, naming the day table when that lookup fails; on success, estimate plus difference is the real value for consumption and for weight, and conversion times real weight is real consumption |
| `Estimator.EstimateFromRows` | scripts/app.py:47-56 | the estimated consumption is the day table's first matching polynomial at the day; the estimated weight is the weight table's first matching polynomial at the REAL consumption; the report compares the real values with these estimates |
| `Estimator.WeightIndependentOfDayTable` | scripts/app.py:49-50 | the estimated weight does not depend on the day table, so it does not depend on the estimated consumption |
| `Estimator.WorkedExample` | scripts/app.py:47-56 | with day polynomial 2d+10 and weight polynomial 0.5c, the inputs day 15, consumption 20 and weight 12 give estimates 40 and 10, a weight difference of 2 (20 %) and a conversion of 20/12 |
| `SelectorOptions.Insert` | scripts/app.py:29-30 | inserting into a strictly ascending list keeps it strictly ascending, and adds exactly the new value |
| `SelectorOptions.SortedUnique` | scripts/app.py:29-30 | the result is strictly ascending (sorted, no duplicates) and holds exactly the input's values |
| `SelectorOptions.Razas` | scripts/app.py:29 | the line options are strictly ascending and are exactly the RAZA values in the table |
| `SelectorOptions.Sexos` | scripts/app.py:30 | the sex options are strictly ascending and are exactly the SEXO values in the table |
| `SelectorOptions.StrictlySortedUnique` | scripts/app.py:29-30 | two strictly ascending lists with the same values are equal |
| `SelectorOptions.RazasCanonical` | scripts/app.py:29 | any strictly ascending list of exactly the table's lines equals the offered list, whatever the row order |
| `SelectorOptions.SelectablePairMayBeMissing` | scripts/app.py:29-38 | a line and a sex can both be on offer while no row holds that pair, and then the lookup finds nothing |

## Left out

- Reading the two CSV files and caching them between runs
  (scripts/app.py:16-21): file I/O and a library cache. Tables are given as
  sequences of rows.
- Loading the logo and drawing it as a watermark (scripts/app.py:22, 90, 110):
  image handling.
- The widgets, the page layout and the Markdown report with its two-decimal
  formatting (scripts/app.py:25-35, 45, 58-72, 113-114). The widgets' minima
  appear only as the requires of `Estimate`.
- The two charts (scripts/app.py:75-111): plotting, `np.linspace` sampling
  and axis limits. The charts evaluate the same polynomials pointwise with
  `np.polyval`, so `Horner` is what each plotted point is.
- Floating point: rounding, NaN and infinity are not modelled. Horner
  evaluation and the explicit sum are therefore equal exactly, not within a
  tolerance. The guards' `if x` on a float is false exactly when x is ±0.0,
  which is `x != 0`. NaN, which `real` cannot hold, is truthy and would give
  a NaN percentage.
- DataFrame semantics beyond a row filter and taking its first row: column
  dtypes, missing values and the index.
