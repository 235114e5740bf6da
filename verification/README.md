# Per-region latency metrics, modelled in Dafny

The service answers a POST request that names a list of regions and, optionally,
a latency threshold in milliseconds (180 when omitted). The request runs against
a dataset of observations. Each observation has a region name, a latency and an
uptime percentage. The service narrows the dataset to the requested regions.
Then, for each requested region in the caller's order, it selects the
observations whose region equals that name exactly and computes four metrics:

- the mean latency, rounded to 2 decimal places;
- the 95th-percentile latency, rounded to 2 places. It uses pandas' `'higher'`
  rule: the element of rank `ceil(0.95 * (n - 1))` of the sorted latencies, with
  no interpolation;
- the mean uptime, rounded to 3 places;
- the number of breaches: observations whose latency is at or above the
  threshold.

A region without observations gets the all-zero record. The name-to-metrics
mapping is returned under the key `"regions"`. It is a Python dictionary, so the
body lists the regions in the order the request first names them. A region
named twice is computed twice and keeps its first place.

The project has five modules:

- `Wrappers` (`wrappers.dfy`): `Option` and `Result`.
- `Stats` (`stats.dfy`): statistics over a column of exact reals. It has
  sum and mean, minimum and maximum, and counts against a pivot. It also has
  an insertion sort, selection by rank, and the 95th percentile with the
  "higher" rule. Selection by rank is specified independently of the sort: the
  value of rank `k` is the unique `v` with at most `k` values below it and more
  than `k` values at or below it.
- `Rounding` (`rounding.dfy`): rounding to a number of decimal places, half to
  even. It scales, rounds to the nearest integer and scales back, as numpy does
  for `float64` values.
- `RegionMetrics` (`region_metrics.dfy`): the observation and metrics records,
  and `calculate_region_metrics`.
- `LatencyApi` (`latency_api.dfy`): the request and response, the threshold
  default, the two filters, the key order of the response, and the handler
  loop. It also holds the start-up load of the dataset, both as written and
  corrected (see Findings).

Two points where the code's behaviour may not be what a reader expects. The
model follows the code in both.

- **p95.** A 95th percentile is often read as the smallest value with at least
  95% of the values at or below it. The code calls pandas' `quantile(0.95,
  interpolation='higher')`, which selects rank `ceil(0.95 * (n - 1))`. For five
  values both readings give the largest value (`P95FiveValues`). For 100 values
  they differ: the code selects rank 95 (the 96th smallest), while the other
  reading selects rank 94. The model proves the guarantee that holds for every
  size (`P95Coverage`): at least 95% of the values lie at or below the
  percentile.
- **Missing data file.** The fallback on line 53 is evidently meant to keep the
  service answering, with the zero record for every region. The code raises a
  key error instead (see Findings).

## Model

| member | source | states |
|---|---|---|
| `Stats.Mean` | api/index.py:70 | The mean of a non-empty column lies between the column's minimum and maximum. |
| `Stats.MeanBetween` | api/index.py:70-73 | Values that all lie between `lo` and `hi` have a mean between `lo` and `hi`. |
| `Stats.MeanPermutation` | api/index.py:70-73 | Reordering a column leaves its mean unchanged. |
| `Stats.SumPermutation` | api/index.py:70 | Reordering a column leaves its sum unchanged. |
| `Stats.Count` | api/index.py:75 | A count of values against a threshold is never more than the number of values. |
| `Stats.CountPermutation` | api/index.py:75 | Reordering a column leaves every count unchanged. |
| `Stats.CountAtLeastBelow` | api/index.py:75 | Values at or above the threshold and values below it add up to the whole column: the comparison is inclusive on the breach side. |
| `Stats.CountAtLeastAntitone` | api/index.py:75 | Raising the threshold never increases the count of values at or above it. |
| `Stats.Insert` | api/index.py:72 | Inserting into a sorted column keeps it sorted and adds exactly the one value. |
| `Stats.Sort` | api/index.py:72 | The sort's result is sorted and is a rearrangement of its input. |
| `Stats.SortedUnique` | api/index.py:72 | Two sorted rearrangements of the same values are equal. |
| `Stats.SortPermutation` | api/index.py:72 | Reordering a column leaves its sorted form unchanged. |
| `Stats.SortedOrderStatistic` | api/index.py:72 | In a sorted column, position `k` holds the value of rank `k`. |
| `Stats.OrderStatisticUnique` | api/index.py:72 | At most one value has rank `k`. |
| `Stats.SelectRank` | api/index.py:72 | Selection by rank returns one of the column's own values, and that value has the requested rank. |
| `Stats.SelectRankCharacterization` | api/index.py:72 | A value has rank `k` if and only if selection by rank returns it. |
| `Stats.SelectRankPermutation` | api/index.py:72 | Reordering a column leaves the value of every rank unchanged. |
| `Stats.P95Rank` | api/index.py:72 | The "higher" rank is the ceiling of 0.95·(n−1): `95(n−1) <= 100k < 95(n−1)+100`, and it is below `n`. |
| `Stats.P95` | api/index.py:71-72 | The 95th percentile is an element of the column, lies between its minimum and maximum, and has rank ceil(0.95·(n−1)). |
| `Stats.P95Coverage` | api/index.py:71-72 | At least 95% of the values are at or below the percentile, and at least `n - k` values are at or above it. |
| `Stats.P95Permutation` | api/index.py:72 | Reordering a column leaves its 95th percentile unchanged. |
| `Rounding.RoundHalfEven` | api/index.py:78-80 | The result is an integer within 1/2 of the input, and the even one on a tie. |
| `Rounding.RoundToSpec` | api/index.py:78-80 | Rounding to `d` places moves the scaled value by at most half a unit of the last kept place, and lands on that grid. |
| `Rounding.RoundToOnGrid` | api/index.py:78-80 | A value that already has at most `d` decimal places is left unchanged. |
| `Rounding.RoundToIdempotent` | api/index.py:78-80 | Rounding twice to the same number of places is the same as rounding once. |
| `RegionMetrics.ColumnPermutation` | api/index.py:70-75 | Reordering the records leaves each numeric column with the same values: the latency column keeps its multiset, and so does the uptime column. |
| `RegionMetrics.RawMetrics` | api/index.py:69-75 | Before rounding, for a non-empty region: each mean lies between the minimum and maximum of its column; the p95 is a latency of the region with rank ceil(0.95·(n−1)); breaches plus latencies below the threshold add up to the region's size. |
| `RegionMetrics.Breaches` | api/index.py:74-75 | The breach count never exceeds the number of records, and together with the records below the threshold it makes up the whole region: the comparison counts a latency equal to the threshold as a breach. |
| `RegionMetrics.CalculateRegionMetrics` | api/index.py:59-82 | An empty region yields exactly the zero record. A non-empty region yields the rounded statistics. In both cases the breach count is the number of records at or above the threshold. |
| `RegionMetrics.Rounded` | api/index.py:77-82 | Each reported latency is within half a unit of its second decimal place of the unrounded statistic (0.005), and the uptime within half a unit of its third (0.0005). The breach count is passed through unrounded. |
| `RegionMetrics.RoundedToGrid` | api/index.py:77-82 | Each reported latency is a point of the two-decimal grid and the uptime a point of the three-decimal grid, and each is the grid point nearest the unrounded statistic, with a tie going to the even neighbour. |
| `RegionMetrics.RoundedZero` | api/index.py:61-67 | Rounding the zero record leaves it unchanged, so returning its literal zeros unrounded reports what rounding would. |
| `RegionMetrics.BreachesExact` | api/index.py:75 | There are no breaches when every latency is below the threshold, and every record is a breach when every latency reaches it. |
| `RegionMetrics.BreachesAppend` | api/index.py:75 | One more record adds one breach exactly when its latency is at or above the threshold. |
| `RegionMetrics.BreachesAntitone` | api/index.py:75 | Raising the threshold never increases the breach count. |
| `RegionMetrics.P95CoversRegion` | api/index.py:72 | At least 95% of a region's latencies are at or below its unrounded p95. |
| `RegionMetrics.MetricsPermutationInvariant` | api/index.py:70-75 | All four metrics are unchanged when the region's records are reordered. |
| `RegionMetrics.P95FiveValues` | api/index.py:72 | The p95 of latencies 100, 110, 120, 200 and 500 is 500. |
| `LatencyApi.FilterInCharacterization` | api/index.py:99 | Narrowing to the requested regions keeps each record of a requested region exactly as often as the dataset has it, and drops every other record. |
| `LatencyApi.SelectRegionCharacterization` | api/index.py:104 | Selecting a region keeps each record whose region equals the name exactly, as often as the dataset has it, and drops every other record. |
| `LatencyApi.PrefilterTransparent` | api/index.py:99-104 | For a requested region, selecting from the narrowed dataset gives the same records, in the same order, as selecting from the full dataset. |
| `LatencyApi.FirstOccurrencesOrdered` | api/index.py:102-105 | The key order names exactly the requested regions, and lists them by the position of their first mention in the request, so no region appears twice. |
| `LatencyApi.LatencyMetrics` | api/index.py:102-108 | The response's mapping has exactly the requested regions as keys, and the key order lists exactly those regions. |
| `LatencyApi.GetLatencyMetrics` | api/index.py:95-108 | The handler loop over the narrowed dataset returns one key per requested region. Each key maps to the metrics of exactly that region's records in the full dataset. The keys are listed in first-mention order, and the result equals the reference response. |
| `LatencyApi.ResponseFromEntries` | api/index.py:102-108 | A map with one correct entry per requested region, listed in first-mention order, is the response. |
| `LatencyApi.SingleRegionDataset` | api/index.py:103-105 | When every record belongs to one requested region, that region is reported with the metrics of the whole dataset. |
| `LatencyApi.UnmatchedRegionIsZero` | api/index.py:103-105 | A requested region without records still appears in the response, with the zero record. |
| `LatencyApi.OmittedThresholdIsDefault` | api/index.py:43 | A request without a threshold gets the same response as one with threshold 180. |
| `LatencyApi.RegionOrderIrrelevant` | api/index.py:103-105 | Two requests naming the same set of regions, in any order or with repeats, and with the same threshold, get the same metrics for every region. Their bodies list the same regions, possibly in a different order. |
| `LatencyApi.KeyOrderExample` | api/index.py:102-105 | For regions `a` and `b`, the request `[b, a, b]` lists `[b, a]` in its body, while `[a, b]` lists `[a, b]`: the order of the request shows in the body. |
| `LatencyApi.RepeatsKeepPlace` | api/index.py:103-105 | Naming again, in any order and any number of times, only regions already named leaves the key order unchanged: a repeated region keeps its first place. |
| `LatencyApi.MissingFileServesZeroRecords` | api/index.py:52-53 | Corrected: with the file missing, every requested region is reported, with the zero record. |
| `LatencyApi.LoadFrameAsWritten` | api/index.py:46-53 | As written: the loaded table has a "region" column exactly when the file supplied at least one record. |
| `LatencyApi.MissingFileFailsAsWritten` | api/index.py:52-53 | As written, a missing or empty data file makes every request fail with a key error. The corrected model returns zero records instead. |
| `LatencyApi.LoadedFileAgrees` | api/index.py:49-51 | When the file holds records, the handler as written and the corrected handler give the same response. |
| `LatencyApi.ExampleBreaches` | api/index.py:75 | Latencies 100, 160 and 200 against threshold 150 give two breaches. |
| `LatencyApi.ExampleUsEast` | api/index.py:103-105 | In the example request, "us-east" is reported with two breaches. |
| `LatencyApi.ExampleEuWest` | api/index.py:103-105 | In the example request, "eu-west" has no records and is reported with the zero record. |

## Left out

- HTTP layer: the FastAPI application, the route decorators and the GET
  informational route (api/index.py:14, 89-90, 111-113). These are framework
  plumbing. The handler is modelled as a function from a dataset and a request
  to a response.
- Serialising the response to JSON (api/index.py:108). The response is
  modelled as the key order plus the name-to-metrics mapping, which is what
  the serialised body carries. The JSON text itself is not produced.
- CORS middleware (api/index.py:22-34). This is configuration with no logic.
- Request validation by pydantic (api/index.py:41-43). A request is modelled
  as already validated, except for the threshold default.
- Reading and parsing the JSON file (api/index.py:46-51). The file's content is
  a parameter: `None` when the file is missing, otherwise the parsed records.
  Other I/O or parse errors are not modelled.
- Floating point. Latencies, uptimes, means and thresholds are exact reals.
  Binary float representation, accumulated error in pandas' sum, and NaN
  handling in `mean`, `quantile` and `>=` are not modelled.
- The percentile rank. pandas computes `0.95 * (n - 1)` in floating point
  before taking the ceiling. The model computes the exact ceiling with integer
  arithmetic.
- Rounding (api/index.py:78-80). It is modelled as half-to-even rounding of
  the exact value, in the way numpy rounds a `float64`. One case is not
  modelled: a binary float can sit just below or above a decimal tie, and the
  float result can then differ from the exact-real result. The empty case
  returns the literal zeros without rounding them. The model uses the same
  literals, and `RoundedZero` shows that rounding them would change nothing.
- Concurrent requests. The dataset is read-only, so there is nothing to verify.
- Metrics and column dtypes. The breach count is a `nat`. The integer column
  dtypes pandas may infer are not distinguished from floats.

## Findings

| source | as written | input that shows it | evidently intended | confidence | as-written member | corrected member |
|---|---|---|---|---|---|---|
| api/index.py:52-53 | A missing data file leaves `DF_FULL = pd.DataFrame()`, a table with no columns. A file holding an empty list gives the same. Line 99 then reads `DF_FULL['region']`, which raises `KeyError` on every POST request that passes validation. | Start with no data file, then POST `{"regions": ["us-east"]}`. | The fallback on line 53 is meant to keep the service answering, so every requested region should get the zero record. | high; not executed | `LatencyApi.MissingFileFailsAsWritten` | `LatencyApi.MissingFileServesZeroRecords` |
